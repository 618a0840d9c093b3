# rng_modules: the entropy-shaping layer of the RDSEED and TrueRNG backends

This project models two hardware random-number backends of `rng_modules` and
proves properties of the model in Dafny:

- **IntelSeed** (`rng_devices/intel_seed/intel_seed.py`). It loads a native
  library that wraps the RDSEED instruction and probes it once. It then shapes
  the raw entropy into bytes (`get_bytes`), whole bytes covering a bit count
  (`get_bits`), and bit-exact buffers (`get_exact_bits`). It draws integers
  in `[min_val, max_val)` by rejection sampling (`random_int`). It also
  answers whether RDSEED is usable (`is_rdseed_available`) and keeps one
  module-level shared instance (`get_rdseed`, `close` and the wrappers).
- **TrueRNG** (`rng_devices/truerng/core.py`). It finds the USB device among
  the serial ports (`_is_trng_port`, `_find_port`, `is_device_available`),
  reads bytes from it (`get_bytes`, `get_bits`, `get_exact_bits`), and draws
  integers (`random_int`).

The entropy source is not modelled as hardware. Every read takes the next
entry of a **tape** (`RawRead.Tape`, a sequence of byte strings). A read of
n bytes keeps the first n bytes of that entry. A shorter entry, or an empty
tape, is a short read. Every operation returns its result, or the exception
it raises, together with the tape it leaves (`RawRead.Drawn`). That makes the
rejection loops total functions: each pass takes one entry off the tape.

The serial-port enumeration is a given sequence of port descriptors
(`TrueRng.Port`). It is the same on every search. Every TrueRNG call that
needs the device searches it afresh, as the source does. The pure
specifications take the outcome of that search (`TrueRng.Search`). The
methods take the ports and are proved equal to the specification applied to
`TrueRng.FirstTrngPort(ports)`.

Python's `int.from_bytes(data, "big")` is `Bytes.BigEndian`. `&` on
non-negative integers is `Bytes.BitAnd`. `math.ceil(math.log2(r))` is the
exact integer `Sampling.CeilLog2`. The floating-point original falls one
bit short for ranges of 2^k + 1 from k = 49 on, which the model states as a
finding.

`is_rdseed_available` documents that failures other than an unsupported CPU
reach the caller, but returns False for every exception that is not an
RDSEEDError. The code is modelled (`Rdseed.IsRdseedAvailable`), the
documented behaviour beside it (`Rdseed.IsRdseedAvailableAsDocumented`), and
a lemma states exactly where they differ.

Both `random_int` implementations are defective as written (see
"## Findings"). Each is modelled twice: once as written, with the defect
exhibited, and once corrected, with the promised properties proved. The
correction lies in `random_int`'s draw. IntelSeed's `get_exact_bits` masks
the LAST byte, as it documents, and is modelled that way; `random_int` then
reads that buffer big-endian, where the last byte is the least significant.
The corrected draw clears the spare high bits of the FIRST byte instead
(`Sampling.MaskHeadByte`). It is the low `bits_needed` bits of the raw
value, and every value of the range can be returned.

Files:

| file | module | contents |
|---|---|---|
| `failures.dfy` | `Failures` | `Option`, `Result`, the Python exception classes raised |
| `text.dfy` | `Text` | ASCII `lower()`, substring and prefix tests, `str()` of integers |
| `bytes.dfy` | `Bytes` | powers of two, byte counts, `&` as a low mask, big-endian decoding and encoding |
| `raw_read.dfy` | `RawRead` | the tape of reads and the outcome of a call |
| `sampling.dfy` | `Sampling` | the bit count of a range, and the corrected head-byte mask |
| `rdseed.dfy` | `Rdseed` | the IntelSeed backend |
| `truerng.dfy` | `TrueRng` | the TrueRNG backend |

## Model

| member | source | states |
|---|---|---|
| `RawRead.Delivered` | rng_devices/intel_seed/intel_seed.py:81-84 | one read delivers at most n bytes, and exactly n precisely when the next tape entry holds n, in which case they are that entry's first n bytes |
| `Bytes.BytesFor` | rng_devices/intel_seed/intel_seed.py:107 | `ceil(n_bits / 8)`: the least positive byte count whose bits cover n_bits |
| `Bytes.BitAnd` | rng_devices/intel_seed/intel_seed.py:138 | `x & y` on non-negative integers is at most each operand |
| `Bytes.BitAndLowMask` | rng_devices/intel_seed/intel_seed.py:137-138 | `x & ((1 << k) - 1)` is `x mod 2^k`, so the mask keeps exactly the low k bits |
| `Bytes.MaskLow` | rng_devices/intel_seed/intel_seed.py:136-138 | a masked byte is the byte mod 2^k and is below 2^k |
| `Bytes.BigEndian` | rng_devices/truerng/core.py:160-162 | `int.from_bytes(data, "big")` of n bytes is below 2^(8n) |
| `Bytes.BigEndianHead` | rng_devices/truerng/core.py:160-162 | the first byte is the most significant: it weighs 2^(8(n-1)) |
| `Bytes.BigEndianLowByte` | rng_devices/intel_seed/intel_seed.py:178 | the last byte is the value mod 256 |
| `Bytes.FromToBigEndian` | rng_devices/truerng/core.py:160-162 | every value below 2^(8n) is the big-endian reading of some n bytes (decoding inverts encoding) |
| `Bytes.ToFromBigEndian` | rng_devices/truerng/core.py:160-162 | encoding inverts decoding: the bytes are recovered from their value |
| `Text.Lower` | rng_devices/truerng/core.py:25 | `str.lower()` keeps the length and lower-cases each character |
| `Text.ContainsJoin` | rng_devices/truerng/core.py:25-26 | a word without spaces occurs in `f"{a} {b}"` exactly when it occurs in a or in b |
| `Sampling.CeilLog2` | rng_devices/intel_seed/intel_seed.py:174 | `ceil(log2(r))`: the least c with 2^c >= r |
| `Sampling.BitsNeeded` | rng_devices/intel_seed/intel_seed.py:174 | `max(1, ceil(log2(range_size)))` is at least 1 |
| `Sampling.BitsNeededBounds` | rng_devices/intel_seed/intel_seed.py:173-174 | 2^bits_needed covers the range and is at most twice the range; when bits_needed > 1, 2^(bits_needed - 1) does not cover it (for a range of 1, bits_needed is 1 and 2^0 covers it) |
| `Sampling.BitsNeededIsLeast` | rng_devices/truerng/core.py:186-191 | no smaller positive bit count covers the range |
| `Sampling.BitsNeededExact` | rng_devices/intel_seed/intel_seed.py:174 | for b >= 1 with 2^(b-1) < range_size <= 2^b, the bit count is b (no such b exists for a range of 1) |
| `Sampling.PowPlusOneBits` | rng_devices/intel_seed/intel_seed.py:174 | a range of 2^k + 1 needs k + 1 bits |
| `Sampling.MaskHeadByte` | rng_devices/intel_seed/intel_seed.py:177-178 | `random_int`'s corrected draw changes only the first byte, the most significant one once read big-endian, which keeps its low n_bits mod 8 bits; whole-byte counts are left untouched |
| `Sampling.HeadMaskedValue` | rng_devices/intel_seed/intel_seed.py:177-178 | read big-endian, `random_int`'s corrected draw yields exactly the low n_bits bits of the raw value, hence a value below 2^n_bits |
| `Sampling.HeadMaskedReachesAll` | rng_devices/intel_seed/intel_seed.py:177-178 | every value below 2^n_bits comes out of `random_int`'s corrected draw for some raw read |
| `Rdseed.ResolvedPath` | rng_devices/intel_seed/intel_seed.py:34-41 | the given library path unchanged, or else a path that starts with the module's directory and ends with the platform's library name (`librdseed.dll` on Windows, `librdseed.so` elsewhere) |
| `Rdseed.Construct` | rng_devices/intel_seed/intel_seed.py:23-62 | construction succeeds exactly when the resolved library exists, loads, exports `rdseed_bytes` and the one-byte probe reads a byte; the checks before the probe consume no entropy |
| `Rdseed.ClassifyFailure` | rng_devices/intel_seed/intel_seed.py:204-216 | a construction failure is "unavailable" or raised again, and raised again exactly when it is an RDSEEDError whose lower-cased text lacks "not available on this cpu" |
| `Rdseed.IsRdseedAvailable` | rng_devices/intel_seed/intel_seed.py:183-229 | True exactly when construction succeeds; raises exactly the RDSEEDErrors that do not name an unsupported CPU, with the constructor's own error; also `is_device_available()` with no path |
| `Rdseed.ProbeFailureIsUnavailable` | rng_devices/intel_seed/intel_seed.py:59-62 | when the library loads but the probe read fails, availability is False, whatever the inner error said |
| `Rdseed.MarkerLowered` | rng_devices/intel_seed/intel_seed.py:205-206 | the probe's wording, lower-cased, is the marker the availability check looks for |
| `Rdseed.MissingLibraryIsRaised` | rng_devices/intel_seed/intel_seed.py:43-44 | a missing library file makes the availability check raise "RDSEED library not found at ...", unless the path itself spells the marker |
| `Rdseed.LoadFailureIsRaised` | rng_devices/intel_seed/intel_seed.py:46-49 | a library the loader refuses makes the availability check raise "Failed to load RDSEED library: ...", unless the loader's text spells the marker |
| `Rdseed.MissingSymbolIsUnavailable` | rng_devices/intel_seed/intel_seed.py:51-56 | a library without `rdseed_bytes` raises AttributeError, which reads as unavailable, and nothing is read |
| `Rdseed.ClassifyAsDocumented` | rng_devices/intel_seed/intel_seed.py:188-199 | as documented: a failure reads as False exactly when it is an RDSEEDError naming an unsupported CPU, and is raised otherwise |
| `Rdseed.IsRdseedAvailableAsDocumented` | rng_devices/intel_seed/intel_seed.py:183-199 | as documented: True exactly when construction succeeds, False exactly for an unsupported CPU, the failure raised otherwise |
| `Rdseed.AvailabilityDiffersFromDocumented` | rng_devices/intel_seed/intel_seed.py:200-215 | the code and its documentation disagree exactly on construction failures that are not RDSEEDErrors: the code returns False, the documentation raises |
| `Rdseed.DocumentedMissingSymbolIsRaised` | rng_devices/intel_seed/intel_seed.py:188-199 | as documented, a library without `rdseed_bytes` makes the check raise AttributeError, and nothing is read |
| `Rdseed.MaskLastByte` | rng_devices/intel_seed/intel_seed.py:133-139 | the truncation as written keeps every byte but the last and leaves the last below 2^(n_bits mod 8) |
| `Rdseed.Rejection` | rng_devices/intel_seed/intel_seed.py:176-180 | the rejection loop as written accepts only values below the range size |
| `Rdseed.WordDraw` | rng_devices/intel_seed/intel_seed.py:161-166 | the unbounded draw reads four bytes, fails exactly on a short read, and returns the big-endian value of those four bytes, below 2^32 |
| `Rdseed.WordDrawReachesAll` | rng_devices/intel_seed/intel_seed.py:152-166 | the unbounded draw spans the full unsigned 32-bit range: every value below 2^32 is returned for some read |
| `Rdseed.RangeDraw` | rng_devices/intel_seed/intel_seed.py:173-180 | every value the bounded draw returns lies in `[min_val, max_val)` |
| `Rdseed.RandomIntOutcome` | rng_devices/intel_seed/intel_seed.py:143-180 | a negative min_val without max_val and an empty range are ValueErrors that read nothing; without max_val it is otherwise `WordDraw`, the big-endian value of four bytes read, below 2^32; with max_val the result lies in `[min_val, max_val)` |
| `Rdseed.IntelSeed.Open` | rng_devices/intel_seed/intel_seed.py:23-62 | a new instance for the resolved library path exactly when construction succeeds, otherwise the constructor's exception |
| `Rdseed.IntelSeed.GetBytes` | rng_devices/intel_seed/intel_seed.py:64-87 | a non-positive count is a ValueError that reads nothing; otherwise one read, which returns the first n bytes of the tape entry, or raises RDSEEDError when fewer were written |
| `Rdseed.IntelSeed.GetBits` | rng_devices/intel_seed/intel_seed.py:89-108 | a non-positive count is a ValueError; otherwise `ceil(n_bits / 8)` bytes exactly as read |
| `Rdseed.IntelSeed.GetExactBits` | rng_devices/intel_seed/intel_seed.py:110-141 | a non-positive count is a ValueError; otherwise `ceil(n_bits / 8)` bytes, all as read but the last, which keeps its low n_bits mod 8 bits when n_bits is not a multiple of 8 |
| `Rdseed.IntelSeed.RandomInt` | rng_devices/intel_seed/intel_seed.py:143-180 | the method's result and remaining tape are those of `RandomIntOutcome` |
| `Rdseed.IntelSeed.RandomWord` | rng_devices/intel_seed/intel_seed.py:161-166 | the unbounded case returns what `WordDraw` specifies |
| `Rdseed.IntelSeed.RandomBelow` | rng_devices/intel_seed/intel_seed.py:173-180 | the bounded case returns what `RangeDraw` specifies |
| `Rdseed.IntelSeed.Sample` | rng_devices/intel_seed/intel_seed.py:176-180 | the `while True` loop returns what `Rejection` specifies |
| `Rdseed.UnboundedIgnoresMin` | rng_devices/intel_seed/intel_seed.py:161-166 | without max_val, a non-negative min_val has no effect on the draw |
| `Rdseed.NarrowOrAlignedDraw` | rng_devices/intel_seed/intel_seed.py:127-141 | for at most 8 bits, or a whole number of bytes, a draw as written is below 2^n_bits |
| `Rdseed.NarrowOrAlignedDrawBounded` | rng_devices/intel_seed/intel_seed.py:173-177 | in those cases each draw of the loop is below twice the range |
| `Rdseed.NarrowOrAlignedAccepts` | rng_devices/intel_seed/intel_seed.py:176-180 | in those cases a read spelling an offset below the range is accepted at once |
| `Rdseed.NarrowMaskKeepsValue` | rng_devices/intel_seed/intel_seed.py:134-139 | a one-byte draw that already fits is left unchanged by the mask |
| `Rdseed.NarrowOrAlignedRangeAccepts` | rng_devices/intel_seed/intel_seed.py:176-180 | in those cases min_val plus an accepted offset is what the bounded draw returns |
| `Rdseed.NarrowOrAlignedRangeReachesAll` | rng_devices/intel_seed/intel_seed.py:173-180 | in those cases every value of `[min_val, max_val)` is returned for some entropy |
| `Rdseed.ExactBitsOfRead` | rng_devices/intel_seed/intel_seed.py:127-141 | on a read that delivers exactly the bytes asked for, `get_exact_bits` returns them, masked as written when the count is not a multiple of 8 |
| `Rdseed.WideRaw` | rng_devices/intel_seed/intel_seed.py:130-131 | a raw read of the right length whose first byte is 255 |
| `Rdseed.WideDrawExceedsBound` | rng_devices/intel_seed/intel_seed.py:134-139 | for more than 8 bits and not a whole number of bytes, `get_exact_bits` as written can return a value of at least 2^n_bits |
| `Rdseed.HeadByteExceedsBound` | rng_devices/intel_seed/intel_seed.py:134-139 | an unmasked first byte of 255 puts the value at or above 2^n_bits |
| `Rdseed.ExactDrawLowByte` | rng_devices/intel_seed/intel_seed.py:134-139 | as written, the low byte of every unaligned draw is below 2^(n_bits mod 8) |
| `Rdseed.RejectionLowByte` | rng_devices/intel_seed/intel_seed.py:176-180 | hence so is the low byte of every value the loop accepts |
| `Rdseed.WideRangeMissesValue` | rng_devices/intel_seed/intel_seed.py:173-180 | for a range needing more than 8 bits and not a whole number of bytes, min_val + 2^(bits_needed mod 8) lies in the range and is never returned |
| `Rdseed.Range300Bits` | rng_devices/intel_seed/intel_seed.py:174 | a range of 300 needs 9 bits |
| `Rdseed.Range300MissesTwo` | rng_devices/intel_seed/intel_seed.py:173-180 | `random_int(0, 300)` never returns 2, whatever the entropy |
| `Rdseed.CorrectedExactBits` | rng_devices/intel_seed/intel_seed.py:177-178 | `random_int`'s corrected draw (the bytes `get_exact_bits` fetches, head byte masked) is the low n_bits bits of the raw read, below 2^n_bits |
| `Rdseed.CorrectedRejection` | rng_devices/intel_seed/intel_seed.py:176-180 | the corrected loop accepts only values below the range size |
| `Rdseed.CorrectedRejectionReachesAll` | rng_devices/intel_seed/intel_seed.py:143-180 | with the corrected draw, every value below the range size is returned for some entropy |
| `Rdseed.CorrectedRejectionBelowPow2` | rng_devices/intel_seed/intel_seed.py:176-180 | whatever bit count the corrected loop is given, every value it accepts is below 2^bits |
| `Rdseed.FloatBitsMissTop` | rng_devices/intel_seed/intel_seed.py:174 | a range of 2^k + 1 needs k + 1 bits; given k bits (what floating-point `log2` yields from k = 49 on), the corrected loop never returns the in-range offset 2^k |
| `Rdseed.Lifecycle.constructor` | rng_devices/intel_seed/intel_seed.py:245-246 | the module starts without a shared instance |
| `Rdseed.Lifecycle.GetRdseed` | rng_devices/intel_seed/intel_seed.py:249-254 | the shared instance is built on first use and returned unchanged afterwards; a construction that raises leaves none cached |
| `Rdseed.Lifecycle.Close` | rng_devices/intel_seed/intel_seed.py:232-242 | afterwards there is no shared instance; closing twice changes nothing |
| `Rdseed.Lifecycle.GetBytes` | rng_devices/intel_seed/intel_seed.py:257-263 | the construction error, or `get_bytes` on the shared instance; when none was cached (first use, or after `close()`), the instance is a new one for the default library path |
| `Rdseed.Lifecycle.GetBits` | rng_devices/intel_seed/intel_seed.py:266-272 | the construction error, or `get_bits` on the shared instance; when none was cached (first use, or after `close()`), the instance is a new one for the default library path |
| `Rdseed.Lifecycle.GetExactBits` | rng_devices/intel_seed/intel_seed.py:275-281 | the construction error, or `get_exact_bits` on the shared instance; when none was cached (first use, or after `close()`), the instance is a new one for the default library path |
| `Rdseed.Lifecycle.RandomInt` | rng_devices/intel_seed/intel_seed.py:284-297 | the construction error, or `random_int` on the shared instance; when none was cached (first use, or after `close()`), the instance is a new one for the default library path |
| `TrueRng.MarkerHasNoSpace` | rng_devices/truerng/core.py:26 | the searched name has no space |
| `TrueRng.IsTrngPort` | rng_devices/truerng/core.py:15-35 | `_is_trng_port`: the lower-cased joined description, manufacturer and product contain "truerng", or else the second entry, lower-cased, starts with it; a plain tuple without a second entry never matches, the IndexError of `port[1]` reading as False (the per-attribute and per-tuple characterisations are the next two rows) |
| `TrueRng.PortTupleMatches` | rng_devices/truerng/core.py:31-35 | a plain tuple matches exactly when it has a second entry that starts with "truerng" in any letter case |
| `TrueRng.PortInfoMatches` | rng_devices/truerng/core.py:15-35 | a port object matches exactly when its description, manufacturer or product contains "truerng" in any letter case, or its second entry starts with it |
| `TrueRng.DeviceOf` | rng_devices/truerng/core.py:47-50 | the device attribute when present and not empty, else the first tuple entry; IndexError exactly when neither exists |
| `TrueRng.FirstTrngPort` | rng_devices/truerng/core.py:38-51 | `_find_port`'s search over the ports in enumeration order (its result is pinned down by `FirstTrngPortNone` and `FirstTrngPortFirst`); the only exception it raises is the IndexError of a matching port without a device |
| `TrueRng.FirstTrngPortNone` | rng_devices/truerng/core.py:38-51 | the search finds nothing exactly when no port matches |
| `TrueRng.FirstTrngPortFirst` | rng_devices/truerng/core.py:44-51 | the search returns the device of the first matching port in enumeration order |
| `TrueRng.FindPort` | rng_devices/truerng/core.py:38-51 | the loop over the enumeration returns what the search specifies |
| `TrueRng.IsDeviceAvailable` | rng_devices/truerng/core.py:54-60 | True exactly when some port matches; raises exactly when the search raises |
| `TrueRng.ReadBytes` | rng_devices/truerng/core.py:76-105 | a non-positive n is a ValueError before the search; no device is a RuntimeError; a search error is raised again; otherwise one read returning the first n bytes, or a RuntimeError on a short read; only a read consumes entropy |
| `TrueRng.GetBytes` | rng_devices/truerng/core.py:63-110 | the method returns what `ReadBytes` specifies for the search over the given ports |
| `TrueRng.GetBits` | rng_devices/truerng/core.py:113-132 | a non-positive n is a ValueError; otherwise `(n + 7) // 8` bytes exactly as read |
| `TrueRng.GetExactBits` | rng_devices/truerng/core.py:135-157 | a non-positive n, or one not a multiple of 8, is a ValueError before the search; otherwise n / 8 bytes exactly as read |
| `TrueRng.WordDraw` | rng_devices/truerng/core.py:179-181 | the unbounded draw reads four bytes and returns their big-endian value, below 2^32 |
| `TrueRng.WordDrawReachesAll` | rng_devices/truerng/core.py:170-181 | with a device present, the unbounded draw spans the full unsigned 32-bit range |
| `TrueRng.RandomIntAsWritten` | rng_devices/truerng/core.py:165-191 | as written: without max it is `WordDraw` and min is ignored; an empty range is a ValueError; any non-empty range raises TypeError before reading |
| `TrueRng.ExactRejection` | rng_devices/truerng/core.py:194-198 | with the builtin `max` restored, the loop over `get_exact_bits` accepts only values below the range size |
| `TrueRng.UnalignedRangeRaises` | rng_devices/truerng/core.py:191-198 | with the builtin restored, a bit count not a multiple of 8 raises ValueError on the first draw and reads nothing |
| `TrueRng.Range10Raises` | rng_devices/truerng/core.py:186-198 | with the builtin restored, `random_int(0, 10)` needs 4 bits and raises "n must be divisible by 8, got 4" |
| `TrueRng.MaskedBits` | rng_devices/truerng/core.py:129-132 | the corrected draw reads `(n + 7) // 8` bytes, fails exactly on a short read or a failed search, and returns that many bytes |
| `TrueRng.MaskedBitsValue` | rng_devices/truerng/core.py:129-132 | the corrected draw, which replaces the `get_exact_bits` call at line 195 and reads through `get_bits`, is exactly the low n bits of the bytes read, below 2^n |
| `TrueRng.Rejection` | rng_devices/truerng/core.py:194-198 | the corrected loop accepts only values below the range size |
| `TrueRng.RangeDraw` | rng_devices/truerng/core.py:186-198 | every value the corrected bounded draw returns lies in `[min, max)` |
| `TrueRng.RandomIntOutcome` | rng_devices/truerng/core.py:165-198 | corrected: without max it is `WordDraw`; an empty range is a ValueError that reads nothing; otherwise the result lies in `[min, max)` |
| `TrueRng.RandomInt` | rng_devices/truerng/core.py:165-198 | the corrected method returns what `RandomIntOutcome` specifies |
| `TrueRng.RandomWord` | rng_devices/truerng/core.py:179-181 | the unbounded case returns what `WordDraw` specifies |
| `TrueRng.RandomBelow` | rng_devices/truerng/core.py:186-198 | the corrected bounded case returns what `RangeDraw` specifies |
| `TrueRng.Sample` | rng_devices/truerng/core.py:194-198 | the corrected `while True` loop returns what `Rejection` specifies |
| `TrueRng.DrawMasked` | rng_devices/truerng/core.py:195-196 | one corrected draw returns what `MaskedBits` specifies |
| `TrueRng.AlignedRejectionAgrees` | rng_devices/truerng/core.py:151-157 | for a multiple of 8 bits, the restored-builtin loop and the corrected loop draw the same |
| `TrueRng.DrawBelowTwiceRange` | rng_devices/truerng/core.py:191-198 | each corrected draw is below twice the range, so it is accepted with odds of at least one half |
| `TrueRng.RejectionAccepts` | rng_devices/truerng/core.py:194-198 | a read spelling an offset below the range is accepted at once |
| `TrueRng.RangeDrawAccepts` | rng_devices/truerng/core.py:196-198 | min plus that offset is what the bounded draw returns |
| `TrueRng.RandomIntReachesAll` | rng_devices/truerng/core.py:172-173 | with a device present, every value of `[min, max)` is returned for some entropy |
| `TrueRng.RejectionBelowPow2` | rng_devices/truerng/core.py:194-198 | whatever bit count the corrected loop is given, every value it accepts is below 2^bits |
| `TrueRng.RangeDrawBelowPow2` | rng_devices/truerng/core.py:194-198 | so a bounded draw with k bits returns less than min + 2^k |
| `TrueRng.FloatBitsMissTop` | rng_devices/truerng/core.py:191 | a range of 2^k + 1 needs k + 1 bits; given k bits (what floating-point `log2` yields from k = 49 on), the corrected draw never returns min + 2^k, which lies in the range |

## Left out

- Hardware and I/O: the native library and its ctypes signatures, the
  serial port's open, DTR, flush and close, and the POSIX `stty` subprocess.
  Only what a read delivers is modelled, as the tape. An exception raised by
  opening or configuring the serial port is not modelled.
- The serial-port enumeration is a given sequence, the same on every search.
  A device plugged in or removed between two searches of one call is not
  modelled.
- TrueRng.DeviceOf: a port's tuple entries are abstracted as `fields`, a
  sequence of strings. `str()` of a non-string entry and an attribute lookup
  that raises are not modelled. A port object that cannot be indexed at all
  makes `port[0]` raise TypeError in the source; the model raises IndexError
  for every port without a first entry.
- TrueRng.IsTrngPort: the first `try` block of `_is_trng_port` is taken
  never to raise, so its `except` branch is not modelled.
- TrueRng.PortInfoMatches: the first `try` block of `_is_trng_port` is
  taken never to raise, so its `except` branch is not modelled.
- Text.Lower: lower-cases ASCII letters only, not the full Unicode case
  mapping of `str.lower()`.
- Sampling.CeilLog2: computes `ceil(log2(r))` exactly on integers. The
  source's floating-point `math.log2` rounds `log2(2**k + 1)` down to k from
  k = 49 on (the first such range is 2^49 + 1), so it draws one bit too few
  and the top of such ranges cannot be returned; see "## Findings".
- Bytes.BytesFor: computes `ceil(n_bits / 8)` exactly. The source divides
  in floating point, which is inexact for counts above 2^53.
- RawRead.Delivered: a native call reporting more bytes written than asked
  for is not modelled.
- The tape is finite. Once it is exhausted, every read is short and raises.
  So the rejection loops end with an error there, where the hardware would
  go on drawing.
- Rdseed.CorrectedRejectionReachesAll: states that every value is returned
  for some entropy, not that all values are equally likely. Probabilities are
  not modelled.
- TrueRng.RandomIntReachesAll: likewise reachability, not uniformity.
- The messages `is_rdseed_available` prints are not modelled. Neither is the
  `__main__` demonstration block.
- TrueRNG's `close()` does nothing, so there is nothing to model.

## Findings

| source | as written | input that shows it | evidently intended | confidence | as-written member | corrected member |
|---|---|---|---|---|---|---|
| rng_devices/intel_seed/intel_seed.py:177-178 | `random_int` reads the draw of `get_exact_bits` with `int.from_bytes(..., "big")`. `get_exact_bits` clears the spare high bits of the LAST byte, as it documents (lines 134-139), and big-endian makes that the least significant byte, so the most significant byte stays unmasked | `random_int(0, 300)` needs 9 bits (two bytes). It never returns 2, because every accepted value has a low byte below 2. The raw read `FF 00` yields 65280, at or above 2^9 | change `random_int`'s draw, not `get_exact_bits`: clear the spare high bits of the first byte (or read the buffer little-endian), so that the draw is the low `bits_needed` bits and every value of the range can be returned | not executed | `Rdseed.Range300MissesTwo` | `Rdseed.CorrectedRejectionReachesAll` |
| rng_devices/truerng/core.py:191 | the parameter `max` shadows the builtin, so `max(1, ...)` calls an int | `random_int(0, 10)` raises TypeError "'int' object is not callable", as does every call with min < max | use the builtin `max`, so that the call returns a value in `[min, max)` | not executed | `TrueRng.RandomIntAsWritten` | `TrueRng.RandomIntOutcome` |
| rng_devices/truerng/core.py:195 | even with the builtin restored, the loop draws through `get_exact_bits`, which refuses bit counts that are not a multiple of 8 | `random_int(0, 10)` needs 4 bits and raises ValueError "n must be divisible by 8, got 4" | draw `(bits + 7) // 8` bytes and clear the spare high bits of the first byte, so that every value of the range can be returned | not executed | `TrueRng.Range10Raises` | `TrueRng.RandomIntReachesAll` |
| rng_devices/intel_seed/intel_seed.py:174 | the bit count is `math.ceil(math.log2(range_size))` in double precision | `random_int(0, 2**49 + 1)`: `math.log2(2**49 + 1)` rounds to 49.0, so 49 bits are drawn where 50 are needed. With the head-byte mask corrected, 2^49 is never returned (as written, the unmasked head byte still lets it through) | compute `ceil(log2)` exactly on integers, as `(range_size - 1).bit_length()` does, so that every value of the range can be returned | not executed; the rounding of `math.log2` is a property of IEEE doubles, stated here, not proved | `Rdseed.FloatBitsMissTop` | `Rdseed.CorrectedRejectionReachesAll` |
| rng_devices/truerng/core.py:191 | the same floating-point bit count | with the builtin `max` restored and the draw corrected, `random_int(0, 2**49 + 1)` never returns 2^49 | compute the bit count exactly on integers | not executed; the rounding of `math.log2` is stated here, not proved | `TrueRng.FloatBitsMissTop` | `TrueRng.RandomIntReachesAll` |
| rng_devices/intel_seed/intel_seed.py:212-215 | the documentation (lines 188 and 197-199) says failures other than an unsupported CPU are raised to the caller, but `except Exception` returns False for every exception that is not an RDSEEDError | a library without `rdseed_bytes` makes the constructor raise AttributeError, and `is_rdseed_available` returns False | raise every failure other than an unsupported CPU, as documented | not executed; the comment at line 213 suggests the broad catch may be deliberate and the documentation out of date | `Rdseed.MissingSymbolIsUnavailable` | `Rdseed.DocumentedMissingSymbolIsRaised` |
