/** The IntelSeed backend: raw entropy from the RDSEED instruction through a
    native library, shaped into bytes, bits and bit-exact buffers, a
    rejection sampler for integers, the availability check, and the
    module-level shared instance with its lazy construction and reset.

    The native call `rdseed_bytes(buf, n)` is the tape of module RawRead: it
    fills `written` bytes, at most n, and the call fails unless written == n. */
module Rdseed {
  import opened Bytes
  import opened Failures
  import opened Text
  import opened RawRead
  import opened Sampling

  // ------------------------------------------------------------------------
  // Construction: locating and loading the native library, then a probe read

  /** What constructing `IntelSeed` finds on the host. */
  datatype Host = Host(
    system: string,                  // what `platform.system()` reports
    moduleDir: string,               // the directory holding the module
    files: set<string>,              // the paths `os.path.exists` accepts
    loadErrors: map<string, string>, // paths `ctypes.CDLL` refuses, with the OSError text
    lacksSymbol: set<string>)        // loadable libraries that export no `rdseed_bytes`

  function LibraryName(system: string): string
  {
    if system == "Windows" then "librdseed.dll" else "librdseed.so"
  }

  function Separator(system: string): string
  {
    if system == "Windows" then "\\" else "/"
  }

  /** `os.path.join(dir, name)` for a plain file name: a separator is inserted
      unless dir is empty or already ends with one. */
  function JoinPath(dir: string, name: string, sep: string): string
  {
    if dir == [] || (|sep| <= |dir| && dir[|dir| - |sep|..] == sep) then dir + name
    else dir + sep + name
  }

  /** The library a construction loads: the given path, or the platform's
      library file next to the module. */
  function ResolvedPath(libraryPath: Option<string>, host: Host): (r: string)
    ensures libraryPath.Some? ==> r == libraryPath.value
    ensures libraryPath.None? ==>
      var name := LibraryName(host.system);
      && |host.moduleDir| + |name| <= |r|
      && r[..|host.moduleDir|] == host.moduleDir
      && r[|r| - |name|..] == name
  {
    match libraryPath
    case Some(p) => p
    case None => JoinPath(host.moduleDir, LibraryName(host.system), Separator(host.system))
  }

  const NotFoundPrefix: string := "RDSEED library not found at "

  function NotFoundMessage(path: string): string
  {
    NotFoundPrefix + path
  }

  function LoadFailedMessage(reason: string): string
  {
    "Failed to load RDSEED library: " + reason
  }

  /** The words of the probe failure that `is_rdseed_available` keys on. */
  const ProbeMarker: string := "not available on this CPU"

  function ProbeFailedMessage(reason: string): string
  {
    "RDSEED instruction " + ProbeMarker + ": " + reason
  }

  function MissingSymbolMessage(path: string): string
  {
    path + ": undefined symbol: rdseed_bytes"
  }

  /** The library is present, loads, and exports `rdseed_bytes`. */
  predicate Loads(path: string, host: Host)
  {
    path in host.files && path !in host.loadErrors && path !in host.lacksSymbol
  }

  /** `IntelSeed(library_path)`: the checks in order, each failure raised
      before anything is read, then a one-byte probe read whose failure is
      re-raised as "not available on this CPU". */
  function Construct(libraryPath: Option<string>, host: Host, tape: Tape): (d: Drawn<()>)
    ensures d.result.Ok? <==> Loads(ResolvedPath(libraryPath, host), host) && tape != [] && |tape[0]| >= 1
    ensures Loads(ResolvedPath(libraryPath, host), host) ==> d.rest == Rest(tape)
    ensures !Loads(ResolvedPath(libraryPath, host), host) ==> d.rest == tape
  {
    var path := ResolvedPath(libraryPath, host);
    if path !in host.files then Drawn(Err(RdseedError(NotFoundMessage(path))), tape)
    else if path in host.loadErrors then Drawn(Err(RdseedError(LoadFailedMessage(host.loadErrors[path]))), tape)
    else if path in host.lacksSymbol then Drawn(Err(AttributeError(MissingSymbolMessage(path))), tape)
    else
      var probe := IntelSeed.GetBytes(1, tape);
      if probe.result.Err? then Drawn(Err(RdseedError(ProbeFailedMessage(probe.result.error.msg))), probe.rest)
      else Drawn(Ok(()), probe.rest)
  }

  // ------------------------------------------------------------------------
  // Availability

  /** The marker `is_rdseed_available` looks for in the lower-cased message. */
  const CpuUnsupported: string := "not available on this cpu"

  /** How `is_rdseed_available` treats what the constructor raised: an
      RDSEEDError is "unavailable" when it names an unsupported CPU and is
      re-raised otherwise; any other exception is "unavailable". */
  function ClassifyFailure(e: Exception): (r: Result<bool>)
    ensures r == Ok(false) || r == Err(e)
    ensures r == Err(e) <==> e.RdseedError? && !Contains(Lower(e.msg), CpuUnsupported)
  {
    match e
    case RdseedError(msg) => if Contains(Lower(msg), CpuUnsupported) then Ok(false) else Err(e)
    case _ => Ok(false)
  }

  /** `is_rdseed_available(library_path)`; with no path it is also the
      module's `is_device_available()`. */
  function IsRdseedAvailable(libraryPath: Option<string>, host: Host, tape: Tape): (d: Drawn<bool>)
    ensures d.rest == Construct(libraryPath, host, tape).rest
    ensures d.result == Ok(true) <==> Construct(libraryPath, host, tape).result.Ok?
    ensures d.result.Err? <==>
      var c := Construct(libraryPath, host, tape).result;
      c.Err? && c.error.RdseedError? && !Contains(Lower(c.error.msg), CpuUnsupported)
    ensures d.result.Err? ==> d.result.error == Construct(libraryPath, host, tape).result.error
  {
    var c := Construct(libraryPath, host, tape);
    if c.result.Ok? then Drawn(Ok(true), c.rest)
    else Drawn(ClassifyFailure(c.result.error), c.rest)
  }

  /** A failed probe read always reads as "unavailable": the message the
      constructor raises carries the marker whatever the inner error said. */
  lemma ProbeFailureIsUnavailable(libraryPath: Option<string>, host: Host, tape: Tape)
    requires Loads(ResolvedPath(libraryPath, host), host)
    requires tape == [] || |tape[0]| == 0
    ensures IsRdseedAvailable(libraryPath, host, tape).result == Ok(false)
  {
    var probe := IntelSeed.GetBytes(1, tape);
    var pre, tail := "RDSEED instruction ", ": " + probe.result.error.msg;
    var msg := ProbeFailedMessage(probe.result.error.msg);
    assert msg == pre + (ProbeMarker + tail);
    LowerAppend(pre, ProbeMarker + tail);
    LowerAppend(ProbeMarker, tail);
    MarkerLowered();
    assert Lower(msg)[19..44] == CpuUnsupported;
    assert OccursAt(Lower(msg), CpuUnsupported, 19);
    assert Construct(libraryPath, host, tape).result == Err(RdseedError(msg));
  }

  /** Lower-casing the probe's words yields the marker. */
  lemma MarkerLowered()
    ensures Lower(ProbeMarker) == CpuUnsupported
  {
    var low := Lower(ProbeMarker);
    assert low[..22] == ProbeMarker[..22] by {
      forall j | 0 <= j < 22
        ensures low[j] == ProbeMarker[j]
      {
      }
    }
    assert low[22..] == "cpu";
  }

  /** A missing library file is re-raised, unless its own path spells the
      marker. */
  lemma MissingLibraryIsRaised(libraryPath: Option<string>, host: Host, tape: Tape)
    requires ResolvedPath(libraryPath, host) !in host.files
    requires !Contains(Lower(ResolvedPath(libraryPath, host)), CpuUnsupported)
    ensures IsRdseedAvailable(libraryPath, host, tape).result
      == Err(RdseedError(NotFoundMessage(ResolvedPath(libraryPath, host))))
  {
    var path := ResolvedPath(libraryPath, host);
    LowerAppend(NotFoundPrefix, path);
    NotFoundPrefixMismatch();
    NotContainsAppend(Lower(NotFoundPrefix), Lower(path), CpuUnsupported);
  }

  /** No position of the lower-cased not-found prefix starts the marker. */
  lemma NotFoundPrefixMismatch()
    ensures forall i | 0 <= i < |Lower(NotFoundPrefix)| :: MismatchAt(Lower(NotFoundPrefix), CpuUnsupported, i)
  {
    var low := Lower(NotFoundPrefix);
    forall i | 0 <= i < |low|
      ensures MismatchAt(low, CpuUnsupported, i)
    {
      if i == 15 {
        assert low[i + 4] != CpuUnsupported[4];
      } else if i == 22 {
        assert low[i + 1] != CpuUnsupported[1];
      } else {
        assert low[i + 0] != CpuUnsupported[0];
      }
    }
  }

  /** A library that exists but fails to load is re-raised, unless the loader's
      message spells the marker. */
  lemma LoadFailureIsRaised(libraryPath: Option<string>, host: Host, tape: Tape)
    requires ResolvedPath(libraryPath, host) in host.files
    requires ResolvedPath(libraryPath, host) in host.loadErrors
    requires !Contains(Lower(host.loadErrors[ResolvedPath(libraryPath, host)]), CpuUnsupported)
    ensures IsRdseedAvailable(libraryPath, host, tape).result
      == Err(RdseedError(LoadFailedMessage(host.loadErrors[ResolvedPath(libraryPath, host)])))
  {
    var reason := host.loadErrors[ResolvedPath(libraryPath, host)];
    var pre := "Failed to load RDSEED library: ";
    LowerAppend(pre, reason);
    var low := Lower(pre);
    forall i | 0 <= i < |low|
      ensures MismatchAt(low, CpuUnsupported, i)
    {
      assert low[i + 0] != CpuUnsupported[0];
    }
    NotContainsAppend(low, Lower(reason), CpuUnsupported);
  }

  /** A library without the `rdseed_bytes` symbol raises AttributeError, which
      reads as "unavailable". */
  lemma MissingSymbolIsUnavailable(libraryPath: Option<string>, host: Host, tape: Tape)
    requires ResolvedPath(libraryPath, host) in host.files
    requires ResolvedPath(libraryPath, host) !in host.loadErrors
    requires ResolvedPath(libraryPath, host) in host.lacksSymbol
    ensures IsRdseedAvailable(libraryPath, host, tape) == Drawn(Ok(false), tape)
  {
  }

  /** How the documentation of `is_rdseed_available` describes the check:
      False only for a CPU without RDSEED, every other failure raised to the
      caller. */
  function ClassifyAsDocumented(e: Exception): (r: Result<bool>)
    ensures r == Ok(false) || r == Err(e)
    ensures r == Ok(false) <==> e.RdseedError? && Contains(Lower(e.msg), CpuUnsupported)
  {
    if e.RdseedError? && Contains(Lower(e.msg), CpuUnsupported) then Ok(false) else Err(e)
  }

  /** `is_rdseed_available` as documented. */
  function IsRdseedAvailableAsDocumented(libraryPath: Option<string>, host: Host, tape: Tape): (d: Drawn<bool>)
    ensures d.rest == Construct(libraryPath, host, tape).rest
    ensures d.result == Ok(true) <==> Construct(libraryPath, host, tape).result.Ok?
    ensures d.result == Ok(false) <==>
      var c := Construct(libraryPath, host, tape).result;
      c.Err? && c.error.RdseedError? && Contains(Lower(c.error.msg), CpuUnsupported)
  {
    var c := Construct(libraryPath, host, tape);
    if c.result.Ok? then Drawn(Ok(true), c.rest)
    else Drawn(ClassifyAsDocumented(c.result.error), c.rest)
  }

  /** The code and its documentation part exactly on construction failures
      that are not RDSEEDErrors: the code reports them as False, the
      documentation raises them. */
  lemma AvailabilityDiffersFromDocumented(libraryPath: Option<string>, host: Host, tape: Tape)
    ensures var c := Construct(libraryPath, host, tape).result;
      (IsRdseedAvailable(libraryPath, host, tape) != IsRdseedAvailableAsDocumented(libraryPath, host, tape))
      <==> (c.Err? && !c.error.RdseedError?)
    ensures var c := Construct(libraryPath, host, tape).result;
      c.Err? && !c.error.RdseedError? ==>
        && IsRdseedAvailable(libraryPath, host, tape).result == Ok(false)
        && IsRdseedAvailableAsDocumented(libraryPath, host, tape).result == Err(c.error)
  {
  }

  /** As documented, a library without `rdseed_bytes` is an error the caller
      sees. */
  lemma DocumentedMissingSymbolIsRaised(libraryPath: Option<string>, host: Host, tape: Tape)
    requires ResolvedPath(libraryPath, host) in host.files
    requires ResolvedPath(libraryPath, host) !in host.loadErrors
    requires ResolvedPath(libraryPath, host) in host.lacksSymbol
    ensures IsRdseedAvailableAsDocumented(libraryPath, host, tape)
      == Drawn(Err(AttributeError(MissingSymbolMessage(ResolvedPath(libraryPath, host)))), tape)
  {
  }

  // ------------------------------------------------------------------------
  // The generator

  function WroteMessage(written: nat, nBytes: nat): string
  {
    "RDSEED failed: wrote " + NatToString(written) + "/" + NatToString(nBytes) + " bytes"
  }

  function RangeMessage(minVal: int, maxVal: int): string
  {
    "min_val must be less than max_val, got min_val=" + IntToString(minVal)
      + ", max_val=" + IntToString(maxVal)
  }

  /** The truncation of `get_exact_bits`: the LAST byte keeps its low
      nBits % 8 bits; every other byte is left as read. */
  function MaskLastByte(nBits: int, data: seq<byte>): (r: seq<byte>)
    requires nBits > 0 && nBits % 8 != 0 && |data| == BytesFor(nBits)
    ensures |r| == |data| && r[..|r| - 1] == data[..|data| - 1]
    ensures r[|r| - 1] == data[|data| - 1] % Pow2(nBits % 8) && r[|r| - 1] < Pow2(nBits % 8)
  {
    data[..|data| - 1] + [MaskLow(data[|data| - 1], nBits % 8)]
  }

  /** The sampler's `while True` loop: draw bitsNeeded exact bits, read them
      big-endian, accept a value below rangeSize, otherwise draw again from
      fresh entropy; a failed read ends the loop with its error. */
  function Rejection(rangeSize: nat, bitsNeeded: nat, tape: Tape): (d: Drawn<int>)
    requires bitsNeeded >= 1
    ensures d.result.Ok? ==> 0 <= d.result.value < rangeSize
    decreases |tape|
  {
    var draw := IntelSeed.GetExactBits(bitsNeeded, tape);
    if draw.result.Err? then Drawn(Err(draw.result.error), draw.rest)
    else
      var value := BigEndian(draw.result.value);
      if value < rangeSize then Drawn(Ok(value), draw.rest)
      else Rejection(rangeSize, bitsNeeded, draw.rest)
  }

  /** `random_int` without max_val: the big-endian value of four fresh bytes. */
  function WordDraw(tape: Tape): (d: Drawn<int>)
    ensures d.rest == Rest(tape)
    ensures d.result.Ok? <==> tape != [] && |tape[0]| >= 4
    ensures d.result.Ok? ==> d.result.value == BigEndian(tape[0][..4]) && 0 <= d.result.value < Pow2(32)
  {
    var data := IntelSeed.GetBytes(4, tape);
    if data.result.Err? then Drawn(Err(data.result.error), data.rest)
    else Drawn(Ok(BigEndian(data.result.value)), data.rest)
  }

  /** The unbounded draw spans the full unsigned 32-bit range: every w below
      2^32 is returned for the read that spells it in four bytes. */
  lemma WordDrawReachesAll(w: nat)
    requires w < Pow2(32)
    ensures WordDraw([ToBigEndian(w, 4)]) == Drawn(Ok(w), [])
  {
    var raw := ToBigEndian(w, 4);
    assert [raw][0][..4] == raw;
    FromToBigEndian(w, 4);
  }

  /** `random_int` over [minVal, maxVal): minVal plus an offset the
      rejection loop draws with bitsNeeded bits. */
  function RangeDraw(minVal: int, maxVal: int, bitsNeeded: nat, tape: Tape): (d: Drawn<int>)
    requires minVal < maxVal && bitsNeeded >= 1
    ensures d.result.Ok? ==> minVal <= d.result.value < maxVal
  {
    var drawn := Rejection(maxVal - minVal, bitsNeeded, tape);
    if drawn.result.Err? then drawn
    else Drawn(Ok(minVal + drawn.result.value), drawn.rest)
  }

  /** `IntelSeed.random_int(min_val, max_val)`. */
  function RandomIntOutcome(minVal: int, maxVal: Option<int>, tape: Tape): (d: Drawn<int>)
    ensures maxVal.None? && minVal < 0 ==> d.result.Err? && d.result.error.ValueError? && d.rest == tape
    ensures maxVal.None? && minVal >= 0 ==> d == WordDraw(tape)
    ensures maxVal.None? && d.result.Ok? ==> 0 <= d.result.value < Pow2(32)
    ensures maxVal.Some? && minVal >= maxVal.value ==> d.result.Err? && d.result.error.ValueError? && d.rest == tape
    ensures maxVal.Some? && d.result.Ok? ==> minVal <= d.result.value < maxVal.value
  {
    match maxVal
    case None =>
      if minVal < 0 then Drawn(Err(ValueError("min_val must be non-negative when max_val is None")), tape)
      else WordDraw(tape)
    case Some(hi) =>
      if minVal >= hi then Drawn(Err(ValueError(RangeMessage(minVal, hi))), tape)
      else RangeDraw(minVal, hi, BitsNeeded(hi - minVal), tape)
  }

  /** One RDSEED generator: an instance the constructor managed to load. */
  class IntelSeed {
    /** The library this instance loaded. */
    const libraryPath: string

    constructor Loaded(path: string)
      ensures libraryPath == path
    {
      libraryPath := path;
    }

    /** `IntelSeed(library_path)`: an instance, or what the constructor raises. */
    static method Open(libraryPath: Option<string>, host: Host, tape: Tape) returns (r: Result<IntelSeed>, rest: Tape)
      ensures rest == Construct(libraryPath, host, tape).rest
      ensures r.Ok? <==> Construct(libraryPath, host, tape).result.Ok?
      ensures r.Err? ==> r.error == Construct(libraryPath, host, tape).result.error
      ensures r.Ok? ==> fresh(r.value) && r.value.libraryPath == ResolvedPath(libraryPath, host)
    {
      var outcome := Construct(libraryPath, host, tape);
      rest := outcome.rest;
      if outcome.result.Err? {
        return Err(outcome.result.error), rest;
      }
      var seed := new IntelSeed.Loaded(ResolvedPath(libraryPath, host));
      r := Ok(seed);
    }

    /** `get_bytes(n_bytes)`: a non-positive count is refused before the
        native call; otherwise one native call, which must write every
        requested byte. */
    static function GetBytes(nBytes: int, tape: Tape): (d: Drawn<seq<byte>>)
      ensures nBytes <= 0 ==> d == Drawn(Err(ValueError("n_bytes must be positive")), tape)
      ensures nBytes > 0 ==> d.rest == Rest(tape)
      ensures d.result.Ok? <==> nBytes > 0 && tape != [] && |tape[0]| >= nBytes
      ensures d.result.Ok? ==> |d.result.value| == nBytes && d.result.value == tape[0][..nBytes]
      ensures nBytes > 0 && d.result.Err? ==> d.result.error.RdseedError?
    {
      if nBytes <= 0 then Drawn(Err(ValueError("n_bytes must be positive")), tape)
      else
        var written := Delivered(tape, nBytes);
        if |written| != nBytes then Drawn(Err(RdseedError(WroteMessage(|written|, nBytes))), Rest(tape))
        else Drawn(Ok(written), Rest(tape))
    }

    /** `get_bits(n_bits)`: ceil(n_bits / 8) bytes exactly as read, the spare
        bits of the last byte left unmasked. */
    static function GetBits(nBits: int, tape: Tape): (d: Drawn<seq<byte>>)
      ensures nBits <= 0 ==> d == Drawn(Err(ValueError("n_bits must be positive")), tape)
      ensures nBits > 0 ==> d.rest == Rest(tape)
      ensures nBits > 0 ==> (d.result.Ok? <==> tape != [] && |tape[0]| >= BytesFor(nBits))
      ensures d.result.Ok? ==>
        && nBits > 0 && |d.result.value| == BytesFor(nBits)
        && d.result.value == tape[0][..BytesFor(nBits)]
    {
      if nBits <= 0 then Drawn(Err(ValueError("n_bits must be positive")), tape)
      else GetBytes(BytesFor(nBits), tape)
    }

    /** `get_exact_bits(n_bits)`: ceil(n_bits / 8) bytes as read, except that
        when n_bits is not a multiple of 8 the last byte keeps only its low
        n_bits % 8 bits, its high bits cleared. */
    static function GetExactBits(nBits: int, tape: Tape): (d: Drawn<seq<byte>>)
      ensures nBits <= 0 ==> d == Drawn(Err(ValueError("n_bits must be positive")), tape)
      ensures nBits > 0 ==> d.rest == Rest(tape)
      ensures nBits > 0 ==> (d.result.Ok? <==> tape != [] && |tape[0]| >= BytesFor(nBits))
      ensures d.result.Ok? ==>
        var n := BytesFor(nBits);
        var raw := tape[0][..n];
        var v := d.result.value;
        && nBits > 0 && |v| == n
        && v[..n - 1] == raw[..n - 1]
        && (nBits % 8 != 0 ==> v[n - 1] == raw[n - 1] % Pow2(nBits % 8) && v[n - 1] < Pow2(nBits % 8))
        && (nBits % 8 == 0 ==> v == raw)
    {
      if nBits <= 0 then Drawn(Err(ValueError("n_bits must be positive")), tape)
      else
        var data := GetBytes(BytesFor(nBits), tape);
        if data.result.Ok? && nBits % 8 != 0 then
          Drawn(Ok(MaskLastByte(nBits, data.result.value)), data.rest)
        else data
    }

    /** `random_int(min_val, max_val)`. Without max_val: the big-endian value
        of four fresh bytes. With it: rejection sampling over
        [min_val, max_val), each draw from fresh entropy. */
    method RandomInt(minVal: int, maxVal: Option<int>, tape: Tape) returns (r: Result<int>, rest: Tape)
      ensures Drawn(r, rest) == RandomIntOutcome(minVal, maxVal, tape)
    {
      match maxVal
      case None =>
        if minVal < 0 {
          r, rest := Err(ValueError("min_val must be non-negative when max_val is None")), tape;
        } else {
          r, rest := RandomWord(tape);
        }
      case Some(hi) =>
        if minVal >= hi {
          r, rest := Err(ValueError(RangeMessage(minVal, hi))), tape;
        } else {
          r, rest := RandomBelow(minVal, hi, BitsNeeded(hi - minVal), tape);
        }
    }

    /** The unbounded case of `random_int`: one read of four bytes. */
    static method RandomWord(tape: Tape) returns (r: Result<int>, rest: Tape)
      ensures Drawn(r, rest) == WordDraw(tape)
    {
      var data := GetBytes(4, tape);
      rest := data.rest;
      if data.result.Err? {
        r := Err(data.result.error);
      } else {
        r := Ok(BigEndian(data.result.value));
      }
    }

    /** The bounded case of `random_int`: the rejection loop over the range
        size, offset by minVal. */
    static method RandomBelow(minVal: int, maxVal: int, bitsNeeded: nat, tape: Tape) returns (r: Result<int>, rest: Tape)
      requires minVal < maxVal && bitsNeeded >= 1
      ensures Drawn(r, rest) == RangeDraw(minVal, maxVal, bitsNeeded, tape)
    {
      var value;
      value, rest := Sample(maxVal - minVal, bitsNeeded, tape);
      if value.Err? {
        r := value;
      } else {
        r := Ok(minVal + value.value);
      }
    }

    /** The `while True` loop of `random_int`: draw bitsNeeded exact bits
        until their big-endian value falls below rangeSize. */
    static method Sample(rangeSize: nat, bitsNeeded: nat, tape: Tape) returns (r: Result<int>, rest: Tape)
      requires bitsNeeded >= 1
      ensures Drawn(r, rest) == Rejection(rangeSize, bitsNeeded, tape)
    {
      rest := tape;
      while true
        invariant Rejection(rangeSize, bitsNeeded, rest) == Rejection(rangeSize, bitsNeeded, tape)
        decreases |rest|
      {
        var data := GetExactBits(bitsNeeded, rest);
        if data.result.Err? {
          return Err(data.result.error), data.rest;
        }
        var value := BigEndian(data.result.value);
        if value < rangeSize {
          return Ok(value), data.rest;
        }
        rest := data.rest;
      }
    }
  }

  // ------------------------------------------------------------------------
  // What the sampler can return

  /** Without max_val, min_val only gates the call: any non-negative min_val
      draws exactly what min_val = 0 draws. */
  lemma UnboundedIgnoresMin(minVal: int, tape: Tape)
    requires minVal >= 0
    ensures RandomIntOutcome(minVal, None, tape) == RandomIntOutcome(0, None, tape)
  {
  }

  /** When the range needs at most 8 bits, or a whole number of bytes, every
      draw is below 2^bitsNeeded, hence below twice the range. */
  lemma NarrowOrAlignedDrawBounded(rangeSize: nat, tape: Tape)
    requires rangeSize >= 1
    requires BitsNeeded(rangeSize) <= 8 || BitsNeeded(rangeSize) % 8 == 0
    ensures var bits := BitsNeeded(rangeSize);
      var d := IntelSeed.GetExactBits(bits, tape);
      d.result.Ok? ==> BigEndian(d.result.value) < Pow2(bits) <= 2 * rangeSize
  {
    var bits := BitsNeeded(rangeSize);
    NarrowOrAlignedDraw(bits, tape);
    assert Pow2(bits) <= 2 * rangeSize by {
      BitsNeededBounds(rangeSize);
    }
  }

  /** A draw of at most 8 bits, or of whole bytes, is below 2^bits. */
  lemma NarrowOrAlignedDraw(bits: nat, tape: Tape)
    requires bits >= 1 && (bits <= 8 || bits % 8 == 0)
    ensures var d := IntelSeed.GetExactBits(bits, tape);
      d.result.Ok? ==> BigEndian(d.result.value) < Pow2(bits)
  {
    var d := IntelSeed.GetExactBits(bits, tape);
    if d.result.Ok? {
      var v := d.result.value;
      if bits % 8 == 0 {
        BytesForSplit(bits);
      } else {
        NarrowBits(bits);
        assert |v| == 1 && v[0] < Pow2(bits);
        assert v[..0] == [];
      }
    }
  }

  /** A bit count of at most 8 that is not a multiple of 8 is its own
      remainder modulo 8. */
  lemma NarrowBits(bits: nat)
    requires 1 <= bits <= 8 && bits % 8 != 0
    ensures bits < 8 && bits % 8 == bits
  {
    ModUnique(bits, 8, 0, bits);
  }

  /** With at most 8 bits, or a whole number of bytes, a read that spells
      an offset below the range is accepted at once. */
  lemma NarrowOrAlignedAccepts(rangeSize: nat, bits: nat, w: nat)
    requires bits >= 1 && (bits <= 8 || bits % 8 == 0)
    requires w < rangeSize <= Pow2(bits)
    ensures w < Pow2(8 * BytesFor(bits))
    ensures Rejection(rangeSize, bits, [ToBigEndian(w, BytesFor(bits))]) == Drawn(Ok(w), [])
  {
    var m := BytesFor(bits);
    Pow2Monotone(bits, 8 * m);
    var raw := ToBigEndian(w, m);
    FromToBigEndian(w, m);
    ExactBitsOfRead(bits, raw);
    if bits % 8 != 0 {
      assert BigEndian(raw) == w;
      NarrowMaskKeepsValue(bits, raw);
    }
  }

  /** A draw of fewer than 8 bits that fits keeps its value under the mask. */
  lemma NarrowMaskKeepsValue(bits: nat, raw: seq<byte>)
    requires 1 <= bits < 8 && |raw| == 1 && BigEndian(raw) < Pow2(bits)
    ensures BigEndian(MaskLastByte(bits, raw)) == BigEndian(raw)
  {
    var v := MaskLastByte(bits, raw);
    assert raw[..0] == [] && v[..0] == [];
    var w, K := raw[0], Pow2(bits);
    ModUnique(bits, 8, 0, bits);
    assert w < K;
    ModUnique(w, K, 0, w);
  }

  /** In those cases every value of the range is returned for some entropy:
      the one whose bytes spell value - min_val. */
  lemma NarrowOrAlignedRangeReachesAll(minVal: int, maxVal: int, n: int)
    requires minVal <= n < maxVal
    requires BitsNeeded(maxVal - minVal) <= 8 || BitsNeeded(maxVal - minVal) % 8 == 0
    ensures var bits := BitsNeeded(maxVal - minVal);
      n - minVal < Pow2(8 * BytesFor(bits))
      && RangeDraw(minVal, maxVal, bits, [ToBigEndian(n - minVal, BytesFor(bits))]).result == Ok(n)
  {
    var bits := BitsNeeded(maxVal - minVal);
    assert maxVal - minVal <= Pow2(bits) by {
      BitsNeededBounds(maxVal - minVal);
    }
    NarrowOrAlignedRangeAccepts(minVal, maxVal, bits, n);
  }

  /** min_val plus an accepted offset is what the bounded `random_int`
      returns. */
  lemma NarrowOrAlignedRangeAccepts(minVal: int, maxVal: int, bits: nat, n: int)
    requires bits >= 1 && (bits <= 8 || bits % 8 == 0)
    requires minVal <= n < maxVal && maxVal - minVal <= Pow2(bits)
    ensures n - minVal < Pow2(8 * BytesFor(bits))
    ensures RangeDraw(minVal, maxVal, bits, [ToBigEndian(n - minVal, BytesFor(bits))]).result == Ok(n)
  {
    var w := n - minVal;
    NarrowOrAlignedAccepts(maxVal - minVal, bits, w);
    var d := Rejection(maxVal - minVal, bits, [ToBigEndian(w, BytesFor(bits))]);
    assert d.result == Ok(w);
  }

  /** `get_exact_bits` on a read that delivers exactly the bytes asked for. */
  lemma ExactBitsOfRead(nBits: int, raw: seq<byte>)
    requires nBits > 0 && |raw| == BytesFor(nBits)
    ensures nBits % 8 == 0 ==> IntelSeed.GetExactBits(nBits, [raw]) == Drawn(Ok(raw), [])
    ensures nBits % 8 != 0 ==> IntelSeed.GetExactBits(nBits, [raw]) == Drawn(Ok(MaskLastByte(nBits, raw)), [])
  {
    assert [raw][0][..|raw|] == raw;
  }

  /** A raw read whose first byte is 255 and the rest zero. */
  function WideRaw(nBits: int): (s: seq<byte>)
    requires nBits > 0
    ensures |s| == BytesFor(nBits) && s[0] == 255
  {
    [255] + Zeros(BytesFor(nBits) - 1)
  }

  /** For a bit count above 8 that is not a whole number of bytes, the draw
      `get_exact_bits` returns is not bounded by 2^nBits: the mask clears
      high bits of the least significant byte, not of the most significant. */
  lemma WideDrawExceedsBound(nBits: int)
    requires nBits > 8 && nBits % 8 != 0
    ensures var d := IntelSeed.GetExactBits(nBits, [WideRaw(nBits)]);
      d.result.Ok? && BigEndian(d.result.value) >= Pow2(nBits)
  {
    var m := BytesFor(nBits);
    var raw := WideRaw(nBits);
    ExactBitsOfRead(nBits, raw);
    var v := MaskLastByte(nBits, raw);
    assert v[0] == 255 by {
      assert v[..m - 1][0] == raw[..m - 1][0];
    }
    HeadByteExceedsBound(nBits, v);
  }

  /** Bytes for nBits whose most significant byte is 255 spell a value of at
      least 2^nBits, when nBits leaves spare bits in that byte. */
  lemma HeadByteExceedsBound(nBits: int, v: seq<byte>)
    requires nBits > 8 && nBits % 8 != 0
    requires |v| == BytesFor(nBits) && v[0] == 255
    ensures BigEndian(v) >= Pow2(nBits)
  {
    var m, k := BytesFor(nBits), nBits % 8;
    var P := Pow2(8 * (m - 1));
    assert BigEndian(v) >= 255 * P by {
      BigEndianHead(v);
    }
    assert Pow2(nBits) == Pow2(k) * P by {
      BytesForSplit(nBits);
      Pow2Add(k, 8 * (m - 1));
    }
    assert Pow2(k) * P <= 255 * P by {
      Pow2Monotone(k, 7);
      Pow2Small();
      MulMonotone(Pow2(k), 255, P);
    }
  }

  /** For a bit count that is not a whole number of bytes, the low byte of
      every draw is below 2^(nBits % 8). */
  lemma ExactDrawLowByte(nBits: int, tape: Tape)
    requires nBits > 0 && nBits % 8 != 0
    ensures var d := IntelSeed.GetExactBits(nBits, tape);
      d.result.Ok? ==> BigEndian(d.result.value) % 256 < Pow2(nBits % 8)
  {
    var d := IntelSeed.GetExactBits(nBits, tape);
    if d.result.Ok? {
      BigEndianLowByte(d.result.value);
    }
  }

  /** Hence every value the rejection loop accepts has that low byte too. */
  lemma {:induction false} RejectionLowByte(rangeSize: nat, bitsNeeded: nat, tape: Tape)
    requires bitsNeeded >= 1 && bitsNeeded % 8 != 0
    ensures var d := Rejection(rangeSize, bitsNeeded, tape);
      d.result.Ok? ==> d.result.value % 256 < Pow2(bitsNeeded % 8)
    decreases |tape|
  {
    var draw := IntelSeed.GetExactBits(bitsNeeded, tape);
    if draw.result.Ok? {
      ExactDrawLowByte(bitsNeeded, tape);
      if BigEndian(draw.result.value) >= rangeSize {
        RejectionLowByte(rangeSize, bitsNeeded, draw.rest);
      }
    }
  }

  /** When the range needs more than 8 bits and not a whole number of bytes,
      min_val + 2^(bitsNeeded % 8) lies in the range but is never returned,
      whatever the entropy. */
  lemma WideRangeMissesValue(minVal: int, maxVal: int, tape: Tape)
    requires minVal < maxVal
    requires BitsNeeded(maxVal - minVal) > 8 && BitsNeeded(maxVal - minVal) % 8 != 0
    ensures var k := BitsNeeded(maxVal - minVal) % 8;
      && minVal < minVal + Pow2(k) < maxVal
      && RandomIntOutcome(minVal, Some(maxVal), tape).result != Ok(minVal + Pow2(k))
  {
    var rangeSize, bits := maxVal - minVal, BitsNeeded(maxVal - minVal);
    BitsNeededBounds(maxVal - minVal);
    var k := bits % 8;
    assert Pow2(k) < 256 by {
      Pow2Monotone(k, 7);
    }
    assert 256 < rangeSize by {
      Pow2Monotone(8, bits - 1);
      Pow2Small();
    }
    RejectionLowByte(rangeSize, bits, tape);
    ModUnique(Pow2(k), 256, 0, Pow2(k));
  }

  /** `random_int(0, 300)` needs 9 bits and never returns 2. */
  lemma Range300MissesTwo(tape: Tape)
    ensures BitsNeeded(300) == 9
    ensures RandomIntOutcome(0, Some(300), tape).result != Ok(2)
  {
    Range300Bits();
    WideRangeMissesValue(0, 300, tape);
  }

  /** A range of 300 needs 9 bits: 2^8 < 300 <= 2^9. */
  lemma Range300Bits()
    ensures BitsNeeded(300) == 9
  {
    var b := BitsNeeded(300);
    BitsNeededBounds(300);
    Pow2Small();
    BitsNeededIsLeast(300, 9);
    if b < 9 {
      Pow2Monotone(b, 8);
    }
  }

  // ------------------------------------------------------------------------
  // The sampler as intended

  /** `random_int`'s draw, corrected: the bytes it fetches, with the spare
      bits cleared in the byte that `int.from_bytes(..., "big")` makes most
      significant, so that the draw is the low nBits bits of the raw read.
      `get_exact_bits` itself stays as written. */
  function CorrectedExactBits(nBits: int, tape: Tape): (d: Drawn<seq<byte>>)
    requires nBits > 0
    ensures d.rest == Rest(tape)
    ensures d.result.Ok? <==> tape != [] && |tape[0]| >= BytesFor(nBits)
    ensures d.result.Ok? ==>
      && |d.result.value| == BytesFor(nBits)
      && BigEndian(d.result.value) == BigEndian(tape[0][..BytesFor(nBits)]) % Pow2(nBits)
      && BigEndian(d.result.value) < Pow2(nBits)
  {
    var data := IntelSeed.GetBytes(BytesFor(nBits), tape);
    if data.result.Err? then data
    else
      HeadMaskedValue(nBits, data.result.value);
      Drawn(Ok(MaskHeadByte(nBits, data.result.value)), data.rest)
  }

  /** The rejection loop over the corrected draw. */
  function CorrectedRejection(rangeSize: nat, bitsNeeded: nat, tape: Tape): (d: Drawn<int>)
    requires bitsNeeded >= 1
    ensures d.result.Ok? ==> 0 <= d.result.value < rangeSize
    decreases |tape|
  {
    var draw := CorrectedExactBits(bitsNeeded, tape);
    if draw.result.Err? then Drawn(Err(draw.result.error), draw.rest)
    else
      var value := BigEndian(draw.result.value);
      if value < rangeSize then Drawn(Ok(value), draw.rest)
      else CorrectedRejection(rangeSize, bitsNeeded, draw.rest)
  }

  /** With the corrected draw, every value of every range is returned for
      some entropy. */
  lemma CorrectedRejectionReachesAll(rangeSize: nat, v: nat)
    requires v < rangeSize
    ensures var bits := BitsNeeded(rangeSize);
      v < Pow2(8 * BytesFor(bits))
      && CorrectedRejection(rangeSize, bits, [ToBigEndian(v, BytesFor(bits))]).result == Ok(v)
  {
    var bits := BitsNeeded(rangeSize);
    BitsNeededBounds(rangeSize);
    HeadMaskedReachesAll(bits, v);
    var raw := ToBigEndian(v, BytesFor(bits));
    assert [raw][0][..BytesFor(bits)] == raw;
  }

  /** Whatever bit count the corrected loop is given, every value it accepts
      stays below 2^bits. */
  lemma {:induction false} CorrectedRejectionBelowPow2(rangeSize: nat, bits: nat, tape: Tape)
    requires bits >= 1
    ensures var d := CorrectedRejection(rangeSize, bits, tape);
      d.result.Ok? ==> d.result.value < Pow2(bits)
    decreases |tape|
  {
    var draw := CorrectedExactBits(bits, tape);
    if draw.result.Ok? && BigEndian(draw.result.value) >= rangeSize {
      CorrectedRejectionBelowPow2(rangeSize, bits, draw.rest);
    }
  }

  /** A range of 2^k + 1 needs k + 1 bits, but the source computes the bit
      count in floating point, where `math.log2(2**k + 1)` rounds to k for
      k from 49 up. With k bits, even the corrected loop never returns the
      offset 2^k, which lies in the range. */
  lemma FloatBitsMissTop(rangeSize: nat, k: nat, tape: Tape)
    requires k >= 1 && rangeSize == Pow2(k) + 1
    ensures BitsNeeded(rangeSize) == k + 1
    ensures Pow2(k) < rangeSize && CorrectedRejection(rangeSize, k, tape).result != Ok(Pow2(k))
  {
    PowPlusOneBits(k, rangeSize);
    CorrectedRejectionBelowPow2(rangeSize, k, tape);
  }

  // ------------------------------------------------------------------------
  // The module-level shared instance

  /** What a module-level call finds after `get_rdseed()`: the shared
      instance already there, or the outcome of constructing one. */
  function Obtain(hadInstance: bool, host: Host, tape: Tape): Drawn<()>
  {
    if hadInstance then Drawn(Ok(()), tape) else Construct(None, host, tape)
  }

  /** The module's global `_rdseed` and the functions that use it. */
  class Lifecycle {
    /** `_rdseed`: the shared instance, or None. */
    var rdseed: IntelSeed?
    /** What constructing with the default library path finds. */
    const host: Host

    constructor (host: Host)
      ensures rdseed == null && this.host == host
    {
      rdseed := null;
      this.host := host;
    }

    /** `get_rdseed()`: construct the shared instance on first use, return
        the same instance afterwards; a construction that raises caches
        nothing. */
    method GetRdseed(tape: Tape) returns (r: Result<IntelSeed>, rest: Tape)
      modifies this
      ensures old(rdseed) != null ==> r.Ok? && r.value == old(rdseed) && rdseed == old(rdseed) && rest == tape
      ensures old(rdseed) == null ==>
        var c := Construct(None, host, tape);
        && rest == c.rest
        && (r.Ok? <==> c.result.Ok?)
        && (r.Ok? ==> fresh(r.value) && rdseed == r.value && r.value.libraryPath == ResolvedPath(None, host))
        && (r.Err? ==> rdseed == null && r.error == c.result.error)
    {
      if rdseed == null {
        var made;
        made, rest := IntelSeed.Open(None, host, tape);
        if made.Err? {
          return Err(made.error), rest;
        }
        rdseed := made.value;
      } else {
        rest := tape;
      }
      r := Ok(rdseed);
    }

    /** `close()`: drop the shared instance so that the next call builds a new
        one; on an already closed module it changes nothing. */
    method Close()
      modifies this
      ensures rdseed == null
      ensures old(rdseed) == null ==> unchanged(this)
    {
      if rdseed != null {
        rdseed := null;
      }
    }

    /** Module-level `get_bytes(n_bytes)`. */
    method GetBytes(nBytes: int, tape: Tape) returns (r: Result<seq<byte>>, rest: Tape)
      modifies this
      ensures var g := Obtain(old(rdseed) != null, host, tape);
        && (g.result.Err? ==> r == Err(g.result.error) && rest == g.rest && rdseed == null)
        && (g.result.Ok? ==> rdseed != null && Drawn(r, rest) == IntelSeed.GetBytes(nBytes, g.rest))
        && (old(rdseed) != null ==> rdseed == old(rdseed))
        && (old(rdseed) == null && g.result.Ok? ==>
              rdseed != null && fresh(rdseed) && rdseed.libraryPath == ResolvedPath(None, host))
    {
      var seed;
      seed, rest := GetRdseed(tape);
      if seed.Err? {
        return Err(seed.error), rest;
      }
      var d := IntelSeed.GetBytes(nBytes, rest);
      r, rest := d.result, d.rest;
    }

    /** Module-level `get_bits(n_bits)`. */
    method GetBits(nBits: int, tape: Tape) returns (r: Result<seq<byte>>, rest: Tape)
      modifies this
      ensures var g := Obtain(old(rdseed) != null, host, tape);
        && (g.result.Err? ==> r == Err(g.result.error) && rest == g.rest && rdseed == null)
        && (g.result.Ok? ==> rdseed != null && Drawn(r, rest) == IntelSeed.GetBits(nBits, g.rest))
        && (old(rdseed) != null ==> rdseed == old(rdseed))
        && (old(rdseed) == null && g.result.Ok? ==>
              rdseed != null && fresh(rdseed) && rdseed.libraryPath == ResolvedPath(None, host))
    {
      var seed;
      seed, rest := GetRdseed(tape);
      if seed.Err? {
        return Err(seed.error), rest;
      }
      var d := IntelSeed.GetBits(nBits, rest);
      r, rest := d.result, d.rest;
    }

    /** Module-level `get_exact_bits(n_bits)`. */
    method GetExactBits(nBits: int, tape: Tape) returns (r: Result<seq<byte>>, rest: Tape)
      modifies this
      ensures var g := Obtain(old(rdseed) != null, host, tape);
        && (g.result.Err? ==> r == Err(g.result.error) && rest == g.rest && rdseed == null)
        && (g.result.Ok? ==> rdseed != null && Drawn(r, rest) == IntelSeed.GetExactBits(nBits, g.rest))
        && (old(rdseed) != null ==> rdseed == old(rdseed))
        && (old(rdseed) == null && g.result.Ok? ==>
              rdseed != null && fresh(rdseed) && rdseed.libraryPath == ResolvedPath(None, host))
    {
      var seed;
      seed, rest := GetRdseed(tape);
      if seed.Err? {
        return Err(seed.error), rest;
      }
      var d := IntelSeed.GetExactBits(nBits, rest);
      r, rest := d.result, d.rest;
    }

    /** Module-level `random_int(min_val, max_val)`. */
    method RandomInt(minVal: int, maxVal: Option<int>, tape: Tape) returns (r: Result<int>, rest: Tape)
      modifies this
      ensures var g := Obtain(old(rdseed) != null, host, tape);
        && (g.result.Err? ==> r == Err(g.result.error) && rest == g.rest && rdseed == null)
        && (g.result.Ok? ==> rdseed != null && Drawn(r, rest) == RandomIntOutcome(minVal, maxVal, g.rest))
        && (old(rdseed) != null ==> rdseed == old(rdseed))
        && (old(rdseed) == null && g.result.Ok? ==>
              rdseed != null && fresh(rdseed) && rdseed.libraryPath == ResolvedPath(None, host))
    {
      var seed;
      seed, rest := GetRdseed(tape);
      if seed.Err? {
        return Err(seed.error), rest;
      }
      r, rest := seed.value.RandomInt(minVal, maxVal, rest);
    }
  }
}
