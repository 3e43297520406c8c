/** The head-WMB convergence checker: a sequential state machine that reports an
    idle head WMB as valid only after `threshold` consecutive, value-identical idle
    observations of it, and then starts over. */
module Checker {
  import opened Wmb

  datatype Option<T> = None | Some(value: T)

  /** The convergence state: how many matching idle observations have been seen in
      the current streak, and the WMB they match (none when no streak is open). */
  datatype Streak = Streak(count: nat, reference: Option<WMB>)

  /** No streak in progress. */
  const Reset: Streak := Streak(0, None)

  /** What one observation does: the state after it and the value returned. */
  datatype Outcome = Outcome(next: Streak, valid: bool)

  /** Two WMBs report the same head when their offset and watermark agree. */
  predicate SameHead(a: WMB, b: WMB) {
    a.offset == b.offset && a.watermark == b.watermark
  }

  /** The states the checker can be in: a streak is open exactly when the counter is
      positive, it is always about an idle WMB, and with a threshold of 2 or more the
      counter stays below the threshold. */
  predicate Consistent(threshold: int, s: Streak) {
    (s.count == 0 <==> s.reference.None?) &&
    (s.reference.Some? ==> s.reference.value.idle) &&
    (threshold >= 2 ==> s.count < threshold)
  }

  /** One call of ValidateHeadWMB on the abstract state. A true result comes only from
      an idle observation and leaves no streak open; each call raises the counter by
      at most one. */
  function Step(threshold: int, s: Streak, w: WMB): (o: Outcome)
    ensures o.valid ==> w.idle && o.next == Reset
    ensures o.next.count <= s.count + 1
  {
    if !w.idle then Outcome(Reset, false)
    else match s.reference
      case None => Outcome(Streak(1, Some(w)), false)
      case Some(ref) =>
        if !SameHead(w, ref) then Outcome(Reset, false)
        else if s.count + 1 == threshold then Outcome(Reset, true)
        else Outcome(Streak(s.count + 1, Some(ref)), false)
  }

  /** The outcomes of feeding the observations ws, in order, to one checker in state s. */
  function Run(threshold: int, s: Streak, ws: seq<WMB>): (r: seq<Outcome>)
    ensures |r| == |ws|
    decreases |ws|
  {
    if ws == [] then []
    else
      var o := Step(threshold, s, ws[0]);
      [o] + Run(threshold, o.next, ws[1..])
  }

  /** The state after a run that started in s. */
  function Final(s: Streak, r: seq<Outcome>): (s': Streak) {
    if r == [] then s else r[|r| - 1].next
  }

  /** The values returned along a run. */
  function Results(r: seq<Outcome>): (b: seq<bool>)
    ensures |b| == |r| && forall i :: 0 <= i < |r| ==> b[i] == r[i].valid
  {
    seq(|r|, i requires 0 <= i < |r| => r[i].valid)
  }

  /** The counter read back after each call of a run. */
  function Counters(r: seq<Outcome>): (c: seq<int>)
    ensures |c| == |r| && forall i :: 0 <= i < |r| ==> c[i] == r[i].next.count
  {
    seq(|r|, i requires 0 <= i < |r| => r[i].next.count)
  }

  function Repeat(w: WMB, n: nat): (ws: seq<WMB>)
    ensures |ws| == n && forall i :: 0 <= i < n ==> ws[i] == w
  {
    seq(n, _ => w)
  }

  /** Every transition keeps the state consistent. */
  lemma StepConsistent(threshold: int, s: Streak, w: WMB)
    requires Consistent(threshold, s)
    ensures Consistent(threshold, Step(threshold, s, w).next)
  {
  }

  /** A non-idle observation returns false and clears the streak, whatever the state. */
  lemma ActiveObservationResets(threshold: int, s: Streak, w: WMB)
    requires !w.idle
    ensures Step(threshold, s, w) == Outcome(Reset, false)
  {
  }

  /** An idle observation whose head differs from the open streak's returns false and
      clears the streak; it does not open a new one. */
  lemma DivergentObservationResets(threshold: int, s: Streak, w: WMB)
    requires w.idle && s.reference.Some? && !SameHead(w, s.reference.value)
    ensures Step(threshold, s, w) == Outcome(Reset, false)
  {
  }

  /** Returning true happens only on an idle observation that completes a streak of
      `threshold` matches, and it leaves the checker reset. */
  lemma FiringCompletesStreak(threshold: int, s: Streak, w: WMB)
    requires Consistent(threshold, s) && Step(threshold, s, w).valid
    ensures w.idle && s.reference == Some(w)
    ensures threshold >= 2 && s.count == threshold - 1
    ensures Step(threshold, s, w).next == Reset
  {
  }

  /** With a threshold below 2 the checker never reports a valid head WMB: the first
      idle observation opens a streak at counter 1 without comparing it with the
      threshold, and every later comparison sees a counter of at least 2. */
  lemma NeverFiresBelowTwo(threshold: int, s: Streak, w: WMB)
    requires threshold <= 1 && Consistent(threshold, s)
    ensures !Step(threshold, s, w).valid
  {
  }

  /** The counter counts: after any history the last `count` observations were idle
      and report the head of the open streak. */
  ghost predicate StreakEndsHistory(hist: seq<WMB>, s: Streak) {
    && s.count <= |hist|
    && (s.count > 0 ==> s.reference.Some?)
    && (s.count > 0 ==>
          forall i :: |hist| - s.count <= i < |hist| ==>
            hist[i].idle && SameHead(hist[i], s.reference.value))
  }

  lemma StepExtendsHistory(threshold: int, s: Streak, hist: seq<WMB>, w: WMB)
    requires Consistent(threshold, s) && StreakEndsHistory(hist, s)
    ensures StreakEndsHistory(hist + [w], Step(threshold, s, w).next)
    ensures Step(threshold, s, w).valid ==>
      threshold <= |hist| + 1 &&
      forall i :: |hist| + 1 - threshold <= i <= |hist| ==>
        (hist + [w])[i].idle && SameHead((hist + [w])[i], w)
  {
    var h := hist + [w];
    var o := Step(threshold, s, w);
    if o.next.count > 0 {
      forall i | |h| - o.next.count <= i < |h|
        ensures h[i].idle && SameHead(h[i], o.next.reference.value)
      {
        if i < |hist| { assert h[i] == hist[i]; }
      }
    }
    if o.valid {
      forall i | |hist| + 1 - threshold <= i <= |hist|
        ensures h[i].idle && SameHead(h[i], w)
      {
        if i < |hist| { assert h[i] == hist[i]; }
      }
    }
  }

  /** The same fact along a run, with the history before the run carried along. */
  lemma {:induction false} RunHistory(threshold: int, s: Streak, hist: seq<WMB>, ws: seq<WMB>, k: nat)
    requires Consistent(threshold, s) && StreakEndsHistory(hist, s)
    requires k < |ws| && Run(threshold, s, ws)[k].valid
    ensures threshold <= |hist| + k + 1
    ensures forall i :: |hist| + k + 1 - threshold <= i <= |hist| + k ==>
      (hist + ws)[i].idle && SameHead((hist + ws)[i], ws[k])
    decreases k
  {
    var o := Step(threshold, s, ws[0]);
    StepExtendsHistory(threshold, s, hist, ws[0]);
    assert (hist + [ws[0]]) + ws[1..] == hist + ws;
    if k == 0 {
      forall i | |hist| + 1 - threshold <= i <= |hist|
        ensures (hist + ws)[i].idle && SameHead((hist + ws)[i], ws[0])
      {
        assert (hist + ws)[i] == (hist + [ws[0]])[i];
      }
    } else {
      StepConsistent(threshold, s, ws[0]);
      assert Run(threshold, s, ws)[k] == Run(threshold, o.next, ws[1..])[k - 1];
      RunHistory(threshold, o.next, hist + [ws[0]], ws[1..], k - 1);
    }
  }

  /** Safety: a freshly constructed checker returns true at observation k only if the
      `threshold` observations ending at k were all idle and reported the same head. */
  lemma NoFiringWithoutIdenticalIdleRun(threshold: int, ws: seq<WMB>, k: nat)
    requires k < |ws| && Run(threshold, Reset, ws)[k].valid
    ensures 2 <= threshold <= k + 1
    ensures forall i :: k + 1 - threshold <= i <= k ==> ws[i].idle && SameHead(ws[i], ws[k])
  {
    assert [] + ws == ws;
    RunHistory(threshold, Reset, [], ws, k);
    FiringNeedsTwo(threshold, Reset, ws, k);
  }

  lemma {:induction false} FiringNeedsTwo(threshold: int, s: Streak, ws: seq<WMB>, k: nat)
    requires Consistent(threshold, s) && k < |ws| && Run(threshold, s, ws)[k].valid
    ensures threshold >= 2
    decreases k
  {
    var o := Step(threshold, s, ws[0]);
    if k == 0 {
      FiringCompletesStreak(threshold, s, ws[0]);
    } else {
      StepConsistent(threshold, s, ws[0]);
      FiringNeedsTwo(threshold, o.next, ws[1..], k - 1);
    }
  }

  /** An open streak on the head of an idle w, at a count c below the threshold, runs
      to completion when w keeps being observed: false with counts c+1, c+2, ... and then true with the checker reset. */
  lemma {:induction false} StreakRunsToCompletion(threshold: int, w: WMB, c: nat)
    requires w.idle && 1 <= c < threshold
    ensures var r := Run(threshold, Streak(c, Some(w)), Repeat(w, threshold - c));
      (forall i :: 0 <= i < threshold - c - 1 ==> r[i] == Outcome(Streak(c + i + 1, Some(w)), false)) &&
      r[threshold - c - 1] == Outcome(Reset, true)
    decreases threshold - c
  {
    var ws := Repeat(w, threshold - c);
    var r := Run(threshold, Streak(c, Some(w)), ws);
    if c + 1 < threshold {
      assert ws[1..] == Repeat(w, threshold - (c + 1));
      StreakRunsToCompletion(threshold, w, c + 1);
      forall i | 0 <= i < threshold - c - 1
        ensures r[i] == Outcome(Streak(c + i + 1, Some(w)), false)
      {
        if i > 0 {
          assert r[i] == Run(threshold, Streak(c + 1, Some(w)), ws[1..])[i - 1];
        }
      }
      assert r[threshold - c - 1] == Run(threshold, Streak(c + 1, Some(w)), ws[1..])[threshold - c - 2];
    }
  }

  /** Convergence: with a threshold of 2 or more, from the reset state, `threshold` identical idle observations
      return false, ..., false, true, with counters 1, 2, ..., threshold - 1, 0. */
  lemma IdenticalIdleRunFires(threshold: int, w: WMB)
    requires threshold >= 2 && w.idle
    ensures var r := Run(threshold, Reset, Repeat(w, threshold));
      (forall i :: 0 <= i < threshold - 1 ==> r[i] == Outcome(Streak(i + 1, Some(w)), false)) &&
      r[threshold - 1] == Outcome(Reset, true)
  {
    var ws := Repeat(w, threshold);
    var r := Run(threshold, Reset, ws);
    assert ws[1..] == Repeat(w, threshold - 1);
    StreakRunsToCompletion(threshold, w, 1);
    var tail := Run(threshold, Streak(1, Some(w)), ws[1..]);
    assert forall i :: 1 <= i < threshold ==> r[i] == tail[i - 1];
  }

  /** Progress: with a threshold of 2 or more, whatever consistent state the checker is in, threshold + 1 identical
      idle observations make it return true at least once. */
  lemma EventuallyFires(threshold: int, s: Streak, w: WMB)
    requires threshold >= 2 && w.idle && Consistent(threshold, s)
    ensures true in Results(Run(threshold, s, Repeat(w, threshold + 1)))
  {
    var ws := Repeat(w, threshold + 1);
    var r := Run(threshold, s, ws);
    var o := Step(threshold, s, w);
    assert ws[1..] == Repeat(w, threshold);
    assert ws[..threshold] == Repeat(w, threshold);
    if s.reference.None? {
      IdenticalIdleRunFires(threshold, w);
      RunPrefix(threshold, s, ws, threshold);
      assert r[threshold - 1].valid;
    } else if SameHead(w, s.reference.value) {
      assert s.reference.value == w;
      var c := s.count;
      StreakRunsToCompletion(threshold, w, c);
      RunPrefix(threshold, s, ws, threshold - c);
      assert ws[..threshold - c] == Repeat(w, threshold - c);
      assert r[threshold - c - 1].valid;
    } else {
      assert o.next == Reset;
      IdenticalIdleRunFires(threshold, w);
      assert r[threshold] == Run(threshold, Reset, ws[1..])[threshold - 1];
      assert r[threshold].valid;
    }
  }

  /** A run's outcomes on a prefix are the prefix of its outcomes. */
  lemma {:induction false} RunPrefix(threshold: int, s: Streak, ws: seq<WMB>, n: nat)
    requires n <= |ws|
    ensures Run(threshold, s, ws[..n]) == Run(threshold, s, ws)[..n]
    decreases n
  {
    if n > 0 {
      var o := Step(threshold, s, ws[0]);
      assert ws[..n][1..] == ws[1..][..n - 1];
      RunPrefix(threshold, o.next, ws[1..], n - 1);
    }
  }

  /** The five cases of the unit test, driven in sequence through one checker with
      threshold 2: good, diff_head_wmb, active_head_wmb_2, active_head_wmb_1, good_check_again. */
  function TestObservations(): (ws: seq<WMB>) {
    [ WMB(true, 0, 1000), WMB(true, 0, 1000),
      WMB(true, 0, 1000), WMB(true, 2, 3000),
      WMB(true, 0, 1000), WMB(false, 1, 2000),
      WMB(false, 2, 2000),
      WMB(true, 3, 4000), WMB(true, 3, 4000) ]
  }

  lemma TestTrace()
    ensures var r := Run(2, Reset, TestObservations());
      Counters(r) == [1, 0, 1, 0, 1, 0, 0, 1, 0] &&
      Results(r) == [false, true, false, false, false, false, false, false, true]
  {
  }

  /** The checker object: the threshold fixed at construction, the match counter and
      the reference WMB of the open streak. */
  class WMBChecker {
    const threshold: int
    var counter: nat
    var reference: Option<WMB>

    function State(): Streak
      reads this
    {
      Streak(counter, reference)
    }

    ghost predicate Valid()
      reads this
    {
      Consistent(threshold, State())
    }

    /** NewWMBChecker: no streak open, counter 0. */
    constructor (threshold: int)
      ensures Valid() && this.threshold == threshold && State() == Reset
    {
      this.threshold := threshold;
      counter := 0;
      reference := None;
    }

    /** ValidateHeadWMB: true only when w completes a streak of `threshold` identical
        idle observations; the new state is the one Step prescribes. */
    method ValidateHeadWMB(w: WMB) returns (valid: bool)
      requires Valid()
      modifies this
      ensures Valid()
      ensures Outcome(State(), valid) == Step(threshold, old(State()), w)
    {
      if !w.idle {
        counter, reference := 0, None;
        return false;
      }
      match reference {
        case None =>
          counter, reference := 1, Some(w);
          valid := false;
        case Some(ref) =>
          if !SameHead(w, ref) {
            counter, reference := 0, None;
            valid := false;
          } else {
            counter := counter + 1;
            if counter == threshold {
              counter, reference := 0, None;
              valid := true;
            } else {
              valid := false;
            }
          }
      }
    }

    /** GetCounter: the number of matching idle observations in the open streak. */
    method GetCounter() returns (c: int)
      ensures c == counter
    {
      c := counter;
    }
  }

  /** The unit test's loop: feed observations one by one, reading the counter back
      after each call. */
  method Feed(c: WMBChecker, ws: seq<WMB>) returns (results: seq<bool>, counters: seq<int>)
    requires c.Valid()
    modifies c
    ensures c.Valid()
    ensures var r := Run(c.threshold, old(c.State()), ws);
      results == Results(r) && counters == Counters(r) && c.State() == Final(old(c.State()), r)
  {
    ghost var start := c.State();
    ghost var done: seq<Outcome> := [];
    results, counters := [], [];
    var i := 0;
    while i < |ws|
      invariant 0 <= i <= |ws|
      invariant c.Valid()
      invariant Run(c.threshold, start, ws) == done + Run(c.threshold, c.State(), ws[i..])
      invariant c.State() == Final(start, done)
      invariant results == Results(done) && counters == Counters(done)
    {
      var valid := c.ValidateHeadWMB(ws[i]);
      var count := c.GetCounter();
      assert ws[i..][1..] == ws[i + 1..];
      done := done + [Outcome(c.State(), valid)];
      results, counters := results + [valid], counters + [count];
      i := i + 1;
    }
    assert ws[i..] == [];
  }

  /** One checker instance driven through all five test cases in order, as the unit
      test does: each case ends with the expected result and every call with the
      expected counter. */
  method ValidateHeadWMBScenario() returns (results: seq<bool>, counters: seq<int>)
    ensures counters == [1, 0, 1, 0, 1, 0, 0, 1, 0]
    ensures |results| == 9 && results[1] && !results[3] && !results[5] && !results[6] && results[8]
  {
    var c := new WMBChecker(2);
    results, counters := Feed(c, TestObservations());
    TestTrace();
  }
}
