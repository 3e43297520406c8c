# WMB: watermark marker codec and head-WMB convergence checker

This project models the watermark-marker primitive of the numaflow streaming engine
(package `wmb`):

- **The WMB record.** Each partition reports a WMB `{Idle, Offset, Watermark}`. `Offset` and
  `Watermark` are signed 64-bit integers. The record travels between processes as a
  fixed 17-byte blob: `[Idle:1][Offset:8][Watermark:8]`, each integer little-endian
  two's complement. `EncodeToBytes` writes that blob. `DecodeToWMB` reads the first 17
  bytes and ignores any trailing bytes, so the format can grow. It rejects any input
  shorter than 17 bytes with an error and never returns a partial WMB.
  A nonzero idle byte reads as `true`.
- **The convergence checker (`WMBChecker`).** It holds a fixed threshold, a match counter
  and the reference WMB of the open streak. `ValidateHeadWMB(w)` returns true only when
  `w` completes `threshold` consecutive idle observations that report the same head
  (same offset and watermark). The checker then resets. A non-idle observation clears
  the streak. So does an idle one whose head differs from the reference; that
  observation does not open a new streak. `GetCounter()` reads the counter.

Module layout:

- `little_endian.dfy` (`LittleEndian`): bytes as integers 0..255, the n-byte
  little-endian reader and writer, and 64-bit two's complement. This module is the
  explicit fixed-offset reader that stands in for Go's reflective
  `binary.Write`/`binary.Read`.
- `wmb.dfy` (`Wmb`): the `WMB` value, `EncodeToBytes`, `DecodeToWMB` and the codec's
  round-trip, layout, trailing-byte and short-input properties, with the unit tests'
  byte vectors.
- `checker.dfy` (`Checker`): the transition rule as a pure function `Step`, and its
  iteration over a sequence of observations as `Run`. The class `WMBChecker` keeps the
  counter and reference as mutable fields. Its `ValidateHeadWMB` is proved to perform
  exactly `Step`. The trace lemmas are:
  - safety: the checker never fires without `threshold` identical idle observations;
  - convergence: from a reset checker with a threshold of 2 or more, `threshold`
    identical idle observations fire on the last one;
  - progress: from any consistent state, with a threshold of 2 or more,
    `threshold + 1` identical idle observations fire at least once;
  - the unit test's nine-call trace.

The implementation file of the package is not part of this model. Its behaviour is
taken from the package's unit tests (`pkg/watermark/wmb/wmb_test.go`) and from the
transition rule stated here. That rule increments the counter on a
matching idle observation and fires when the counter then equals the threshold.

Two consequences of that rule, stated as lemmas:

- With a threshold of 2 or more, the counter always stays below the threshold.
- With a threshold below 2, the checker never fires (`Checker.NeverFiresBelowTwo`). The
  first idle observation opens a streak with counter 1 without comparing it with the
  threshold; every later comparison sees a counter of at least 2, so a threshold of 1
  or less is never met. The unit tests use threshold 2 only.

The checker compares only the offset and the watermark. Comparing whole WMBs would give
the same answer: the reference is always idle (an invariant of the class), and the
comparison only happens for idle observations.

## Model

| member | source | states |
|---|---|---|
| `LittleEndian.FromBytes` | pkg/watermark/wmb/wmb_test.go:151 | the value of an n-byte little-endian string is below 256^n |
| `LittleEndian.FromToBytes` | pkg/watermark/wmb/wmb_test.go:48-50 | reading back the n little-endian bytes written for a value that fits gives that value |
| `LittleEndian.ToFromBytes` | pkg/watermark/wmb/wmb_test.go:151 | every byte string is the little-endian representation of its own value, so the reader is injective |
| `LittleEndian.ToUnsigned` | pkg/watermark/wmb/wmb_test.go:177-184 | two's complement: the 64-bit pattern of an int64 is below 2^64, has the sign bit set exactly for negative values and is congruent to it modulo 2^64 |
| `LittleEndian.ToSigned` | pkg/watermark/wmb/wmb_test.go:177-184 | the int64 read from a 64-bit pattern is the one whose pattern it is |
| `LittleEndian.FromBytesAppend` | pkg/watermark/wmb/wmb_test.go:151 | each further byte of a little-endian string counts 256 times more than the one before it |
| `LittleEndian.EncodeInt64` | pkg/watermark/wmb/wmb_test.go:64-72 | an int64 is written as exactly 8 bytes |
| `LittleEndian.DecodeInt64` | pkg/watermark/wmb/wmb_test.go:151 | the int64 read from 8 bytes is negative exactly when the top bit of the last (most significant) byte is set |
| `LittleEndian.DecodeOfEncodeInt64` | pkg/watermark/wmb/wmb_test.go:177-184 | an int64 written as 8 little-endian bytes reads back unchanged |
| `LittleEndian.EncodeOfDecodeInt64` | pkg/watermark/wmb/wmb_test.go:177-184 | any 8 bytes are exactly the encoding of the int64 they decode to |
| `Wmb.BoolByte` | pkg/watermark/wmb/wmb_test.go:183 | the idle byte is nonzero exactly when Idle is true |
| `Wmb.EncodeToBytes` | pkg/watermark/wmb/wmb_test.go:189-199 | encoding never fails, yields exactly 17 bytes, and byte 0 is nonzero exactly for an idle WMB |
| `Wmb.DecodeToWMB` | pkg/watermark/wmb/wmb_test.go:149-160 | decoding fails exactly when the input is shorter than 17 bytes (the error carries the length); on success Idle is true exactly when byte 0 is nonzero |
| `Wmb.EncodeLayout` | pkg/watermark/wmb/wmb_test.go:177-184 | byte 0 holds Idle, bytes 1-8 the offset and bytes 9-16 the watermark, each as 8 little-endian bytes |
| `Wmb.RoundTrip` | pkg/watermark/wmb/wmb_test.go:39-59 | decoding the encoding of any WMB returns that WMB, all three fields preserved |
| `Wmb.DecodeIgnoresTrailing` | pkg/watermark/wmb/wmb_test.go:121-147 | appending any bytes to an input of at least 17 bytes does not change what it decodes to |
| `Wmb.RoundTripWithTrailing` | pkg/watermark/wmb/wmb_test.go:121-147 | an encoded WMB followed by any extra bytes decodes to that WMB |
| `Wmb.EncodeOfDecode` | pkg/watermark/wmb/wmb_test.go:96-120 | re-encoding a decoded input reproduces its bytes 1-16, and byte 0 as 0 or 1 |
| `Wmb.CanonicalRecord` | pkg/watermark/wmb/wmb_test.go:96-120 | a 17-byte record whose idle byte is 0 or 1 is exactly the encoding of what it decodes to |
| `Wmb.EncodeExample` | pkg/watermark/wmb/wmb_test.go:176-199 | {Idle:false, Offset:100, Watermark:1667495100000} encodes to [0,100,0,0,0,0,0,0,0,96,254,115,62,132,1,0,0] |
| `Wmb.ShortStructsRejected` | pkg/watermark/wmb/wmb_test.go:60-95 | the 8-byte blob of one int64 and the 16-byte blob of two int64s both fail to decode |
| `Wmb.ThreeFieldStructDecodes` | pkg/watermark/wmb/wmb_test.go:96-120 | the literal 17-byte blob of {bool true, int64 0, int64 0} decodes to {Idle:true, Offset:0, Watermark:0} |
| `Wmb.FourFieldStructDecodes` | pkg/watermark/wmb/wmb_test.go:121-147 | the literal 25-byte blob of {false, 100, 1667495100000, 20} decodes to {Idle:false, Offset:100, Watermark:1667495100000}, the fourth field ignored |
| `Checker.Step` | pkg/watermark/wmb/wmb_test.go:309 | one call of ValidateHeadWMB: a true result comes only from an idle observation and leaves no streak open, and the counter rises by at most one per call |
| `Checker.StepConsistent` | pkg/watermark/wmb/wmb_test.go:306-313 | every call keeps the state consistent: a streak is open exactly when the counter is positive, its reference is idle, and with threshold >= 2 the counter stays below the threshold |
| `Checker.ActiveObservationResets` | pkg/watermark/wmb/wmb_test.go:252-284 | a non-idle observation returns false and leaves counter 0 and no reference, whether or not a streak was open |
| `Checker.DivergentObservationResets` | pkg/watermark/wmb/wmb_test.go:233-251 | an idle observation whose offset or watermark differs from the reference returns false and resets the counter to 0 |
| `Checker.FiringCompletesStreak` | pkg/watermark/wmb/wmb_test.go:214-232 | a call returns true only for an idle observation equal to the reference when the counter is threshold - 1, and the checker is then reset |
| `Checker.NeverFiresBelowTwo` | pkg/watermark/wmb/wmb_test.go:207 | with a threshold below 2 no call ever returns true |
| `Checker.StepExtendsHistory` | pkg/watermark/wmb/wmb_test.go:306-311 | after each call the last `counter` observations were idle and report the reference's head; a true result means the last `threshold` observations were idle with the head just observed |
| `Checker.RunHistory` | pkg/watermark/wmb/wmb_test.go:306-311 | along any run from a consistent state, a true result at call k means the `threshold` observations ending at k were idle with the same head |
| `Checker.NoFiringWithoutIdenticalIdleRun` | pkg/watermark/wmb/wmb_test.go:205-313 | a new checker returns true at call k only if threshold >= 2, at least `threshold` calls were made, and the last `threshold` observations were all idle with the same offset and watermark |
| `Checker.FiringNeedsTwo` | pkg/watermark/wmb/wmb_test.go:207 | a run from a consistent state can return true only if the threshold is at least 2 |
| `Checker.StreakRunsToCompletion` | pkg/watermark/wmb/wmb_test.go:214-232 | with 1 <= c < threshold, an open idle streak at count c, fed its own WMB, returns false with counters c+1, c+2, ... and then true with the checker reset |
| `Checker.IdenticalIdleRunFires` | pkg/watermark/wmb/wmb_test.go:285-303 | with a threshold of 2 or more, from the reset state, `threshold` identical idle observations return false, ..., false, true with counters 1, 2, ..., threshold - 1, 0 |
| `Checker.EventuallyFires` | pkg/watermark/wmb/wmb_test.go:285-303 | with a threshold of 2 or more, from any consistent state, threshold + 1 identical idle observations make some call return true |
| `Checker.RunPrefix` | pkg/watermark/wmb/wmb_test.go:306-311 | the outcomes of a prefix of the observations are the prefix of the outcomes |
| `Checker.TestTrace` | pkg/watermark/wmb/wmb_test.go:205-313 | one threshold-2 checker fed the nine observations of the five test cases returns true exactly at calls 2 and 9, with counters 1,0,1,0,1,0,0,1,0 |
| `Checker.WMBChecker.constructor` | pkg/watermark/wmb/wmb_test.go:207 | a new checker keeps its threshold, has counter 0 and no reference |
| `Checker.WMBChecker.ValidateHeadWMB` | pkg/watermark/wmb/wmb_test.go:309 | the result and the new counter and reference are those of the transition rule `Step`, and the state stays consistent |
| `Checker.WMBChecker.GetCounter` | pkg/watermark/wmb/wmb_test.go:310 | returns the current match counter |
| `Checker.ValidateHeadWMBScenario` | pkg/watermark/wmb/wmb_test.go:205-313 | one checker with threshold 2, driven through the five test cases in order, reads counters 1,0,1,0,1,0,0,1,0 and ends the cases with true, false, false, false, true |
| `Checker.Feed` | pkg/watermark/wmb/wmb_test.go:306-313 | driving one checker through a list of observations yields the results, the counters read after each call and the final state of `Run` |

## Left out

- `pkg/sources/generator/tickgen.go` is not part of this model. It holds a data source's plumbing: goroutines, tickers, channels, read timeouts, random padding, JSON and wall-clock time.
- The watermark store, publisher, fetcher and idle manager are not part of this model. They are collaborators whose code is not included.
- `Wmb.DecodeToWMB` reports one error kind with the input length. Go's reader distinguishes an empty input (end of file) from a partial one (unexpected end of file). Both are errors, and callers only test for an error.
- `Wmb.DecodeToWMB`: on failure Go also returns the zero `WMB{}` next to the error (wmb_test.go:74, 93, 156). The model's `Failure` carries no WMB, since callers must not use it.
- `Wmb.EncodeToBytes` returns the bytes alone. Go's version also returns an error, which is always nil for an in-memory buffer.
- `Checker.WMBChecker.ValidateHeadWMB`: with a threshold below 2 the counter grows without bound. The model uses an unbounded `nat` and does not model Go's 64-bit `int` wrap-around, which would take 2^63 calls.
- Concurrency: the checker must be driven by one caller in sequence. The model is sequential and does not model concurrent callers.
- Special watermark values, such as negative sentinels, are not modelled. The codec and checker treat the watermark as an opaque int64 compared for equality.
