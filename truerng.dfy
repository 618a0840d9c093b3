/** The TrueRNG backend: a USB device that shows up as a serial port. The
    serial-port enumeration is a given sequence of port descriptors, searched
    afresh by every call that needs the device, and each read of the device
    is one read of the tape. */
module TrueRng {
  import opened Bytes
  import opened Failures
  import opened Text
  import opened RawRead
  import opened Sampling

  // ------------------------------------------------------------------------
  // Finding the device

  /** One entry of the serial-port enumeration. A `PortInfo` carries the
      descriptive attributes, each possibly absent, and can also be indexed
      like a tuple through `fields`; a `PortTuple` is a plain tuple
      (device, description, ...) without any attributes. */
  datatype Port =
    | PortInfo(device: Option<string>, description: Option<string>,
               manufacturer: Option<string>, product: Option<string>,
               fields: seq<string>)
    | PortTuple(fields: seq<string>)

  /** The name the port descriptors are searched for, in lower case. */
  const Marker := "truerng"

  /** `getattr(port, name, None) or ""`: an absent or empty attribute reads
      as the empty string. */
  function Attribute(a: Option<string>): string
  {
    if a.Some? then a.value else ""
  }

  /** The three descriptive attributes joined by spaces, before lower-casing;
      a plain tuple has none of them, which leaves the two spaces. */
  function Joined(port: Port): string
  {
    match port
    case PortInfo(_, description, manufacturer, product, _) =>
      Attribute(description) + " " + Attribute(manufacturer) + " " + Attribute(product)
    case PortTuple(_) => "  "
  }

  /** `_is_trng_port(port)`: the marker inside the lower-cased joined
      attributes, or else the second tuple entry, lower-cased, starting with
      it. A plain tuple has no attributes, and indexing a missing second
      entry raises IndexError, which reads as no match: so a tuple without a
      second entry never matches. */
  predicate IsTrngPort(port: Port): (b: bool)
    ensures port.PortTuple? && |port.fields| < 2 ==> !b
  {
    assert port.PortTuple? ==> |Lower(Joined(port))| < |Marker|;
    || Contains(Lower(Joined(port)), Marker)
    || (|port.fields| >= 2 && StartsWith(Lower(port.fields[1]), Marker))
  }

  /** The marker has no space in it, so it never straddles two attributes. */
  lemma MarkerHasNoSpace()
    ensures forall k | 0 <= k < |Marker| :: Marker[k] != ' '
  {
    assert Marker == ['t', 'r', 'u', 'e', 'r', 'n', 'g'];
  }

  /** A port object matches exactly when one of its three attributes names
      the device, in any letter case, or its second entry starts with the
      name. */
  lemma PortInfoMatches(port: Port)
    requires port.PortInfo?
    ensures IsTrngPort(port) <==>
      || Contains(Lower(Attribute(port.description)), Marker)
      || Contains(Lower(Attribute(port.manufacturer)), Marker)
      || Contains(Lower(Attribute(port.product)), Marker)
      || (|port.fields| >= 2 && StartsWith(Lower(port.fields[1]), Marker))
  {
    var d, m, p := Attribute(port.description), Attribute(port.manufacturer), Attribute(port.product);
    LowerJoin(d, m);
    LowerJoin(d + " " + m, p);
    MarkerHasNoSpace();
    ContainsJoin(Lower(d), Lower(m), Marker);
    ContainsJoin(Lower(d) + " " + Lower(m), Lower(p), Marker);
  }

  /** A plain tuple matches exactly when its second entry starts with the
      name, in any letter case. */
  lemma PortTupleMatches(fields: seq<string>)
    ensures IsTrngPort(PortTuple(fields)) <==> |fields| >= 2 && StartsWith(Lower(fields[1]), Marker)
  {
    assert |Lower(Joined(PortTuple(fields)))| < |Marker|;
  }

  /** `getattr(port, "device", None) or str(port[0])`: the device attribute
      when it is present and not empty, else the first tuple entry; a port
      with neither raises IndexError, which the `except` branch raises again. */
  function DeviceOf(port: Port): (r: Result<string>)
    ensures r.Err? <==> |port.fields| == 0 && (port.PortTuple? || Attribute(port.device) == "")
    ensures r.Err? ==> r.error.IndexError?
    ensures r.Ok? && port.PortInfo? && Attribute(port.device) != "" ==> r.value == port.device.value
    ensures r.Ok? && (port.PortTuple? || Attribute(port.device) == "") ==> r.value == port.fields[0]
  {
    if port.PortInfo? && Attribute(port.device) != "" then Ok(port.device.value)
    else if |port.fields| >= 1 then Ok(port.fields[0])
    else Err(IndexError("tuple index out of range"))
  }

  /** A matched device, as `_find_port` returns it. */
  function AsFound(device: Result<string>): Search
  {
    if device.Ok? then Ok(Some(device.value)) else Err(device.error)
  }

  /** Port k is the first one in enumeration order that matches. */
  predicate FirstMatch(ports: seq<Port>, k: int)
  {
    && 0 <= k < |ports|
    && IsTrngPort(ports[k])
    && forall j | 0 <= j < k :: !IsTrngPort(ports[j])
  }

  /** `_find_port`'s search: the device of the first matching port in
      enumeration order, or None. The only exception it raises is the
      IndexError of a matching port without a device. */
  function FirstTrngPort(ports: seq<Port>): (r: Search)
    ensures r.Err? ==> r.error.IndexError?
    decreases |ports|
  {
    if ports == [] then Ok(None)
    else if IsTrngPort(ports[0]) then AsFound(DeviceOf(ports[0]))
    else FirstTrngPort(ports[1..])
  }

  /** The search yields None exactly when no port matches. */
  lemma {:induction false} FirstTrngPortNone(ports: seq<Port>)
    ensures FirstTrngPort(ports) == Ok(None) <==> forall i | 0 <= i < |ports| :: !IsTrngPort(ports[i])
    decreases |ports|
  {
    if ports != [] && !IsTrngPort(ports[0]) {
      FirstTrngPortNone(ports[1..]);
      assert forall i | 1 <= i < |ports| :: ports[i] == ports[1..][i - 1];
    }
  }

  /** The search yields the device of the first matching port. */
  lemma {:induction false} FirstTrngPortFirst(ports: seq<Port>, k: int)
    requires FirstMatch(ports, k)
    ensures FirstTrngPort(ports) == AsFound(DeviceOf(ports[k]))
    decreases |ports|
  {
    if k > 0 {
      var tail := ports[1..];
      assert !IsTrngPort(ports[0]);
      assert tail[k - 1] == ports[k];
      forall j | 0 <= j < k - 1
        ensures !IsTrngPort(tail[j])
      {
        assert tail[j] == ports[j + 1];
      }
      FirstTrngPortFirst(tail, k - 1);
    }
  }

  /** What `_find_port()` returns: a device, None, or the exception the
      search raised. The enumeration is the same on every search, so every
      call that searches gets FirstTrngPort(ports). */
  type Search = Result<Option<string>>

  /** The search located a TrueRNG device. */
  predicate Located(search: Search)
  {
    search.Ok? && search.value.Some?
  }

  /** `_find_port()`: the `for` loop over the enumeration that returns at the
      first matching port. */
  method FindPort(ports: seq<Port>) returns (r: Search)
    ensures r == FirstTrngPort(ports)
  {
    for i := 0 to |ports|
      invariant FirstTrngPort(ports[i..]) == FirstTrngPort(ports)
    {
      assert ports[i..][1..] == ports[i + 1..];
      if IsTrngPort(ports[i]) {
        return AsFound(DeviceOf(ports[i]));
      }
    }
    assert ports[|ports|..] == [];
    r := Ok(None);
  }

  /** `is_device_available()`: whether some port matches. A port search that
      raises makes this raise too. */
  method IsDeviceAvailable(ports: seq<Port>) returns (r: Result<bool>)
    ensures r.Err? <==> FirstTrngPort(ports).Err?
    ensures r.Ok? ==> (r.value <==> exists i | 0 <= i < |ports| :: IsTrngPort(ports[i]))
  {
    var port := FindPort(ports);
    FirstTrngPortNone(ports);
    if port.Err? {
      return Err(port.error);
    }
    r := Ok(port.value.Some?);
  }

  // ------------------------------------------------------------------------
  // Reading bytes

  function PositiveMessage(n: int): string
  {
    "n must be positive, got " + IntToString(n)
  }

  function DivisibleMessage(n: int): string
  {
    "n must be divisible by 8, got " + IntToString(n)
  }

  function TimeoutMessage(n: int, got: nat): string
  {
    "Read timeout: expected " + IntToString(n) + " bytes, got " + NatToString(got)
  }

  const NotFoundMessage := "TrueRNG device not found"

  /** What `get_bytes(n)` does: a non-positive count is refused before the
      port search; no matching port is a RuntimeError; otherwise one read of
      the device, and a read shorter than n is a RuntimeError. */
  function ReadBytes(n: int, search: Search, tape: Tape): (d: Drawn<seq<byte>>)
    ensures n <= 0 ==> d == Drawn(Err(ValueError(PositiveMessage(n))), tape)
    ensures n > 0 && search == Ok(None) ==> d == Drawn(Err(RuntimeError(NotFoundMessage)), tape)
    ensures n > 0 && search.Err? ==> d == Drawn(Err(search.error), tape)
    ensures n > 0 && Located(search) ==> d.rest == Rest(tape)
    ensures n > 0 && Located(search) && d.result.Err? ==> d.result.error.RuntimeError?
    ensures d.result.Ok? <==> n > 0 && Located(search) && tape != [] && |tape[0]| >= n
    ensures d.result.Ok? ==> |d.result.value| == n && d.result.value == tape[0][..n]
  {
    if n <= 0 then Drawn(Err(ValueError(PositiveMessage(n))), tape)
    else
      if search.Err? then Drawn(Err(search.error), tape)
      else if search.value.None? then Drawn(Err(RuntimeError(NotFoundMessage)), tape)
      else
        var data := Delivered(tape, n);
        if |data| < n then Drawn(Err(RuntimeError(TimeoutMessage(n, |data|))), Rest(tape))
        else Drawn(Ok(data), Rest(tape))
  }

  /** `get_bytes(n)`: the checks, the port search, then the open / read /
      close sequence on the serial port, of which only the read is kept. */
  method GetBytes(n: int, ports: seq<Port>, tape: Tape) returns (r: Result<seq<byte>>, rest: Tape)
    ensures Drawn(r, rest) == ReadBytes(n, FirstTrngPort(ports), tape)
  {
    if n <= 0 {
      return Err(ValueError(PositiveMessage(n))), tape;
    }
    var port := FindPort(ports);
    if port.Err? {
      return Err(port.error), tape;
    }
    if port.value.None? {
      return Err(RuntimeError(NotFoundMessage)), tape;
    }
    var data := Delivered(tape, n);
    rest := Rest(tape);
    if |data| < n {
      r := Err(RuntimeError(TimeoutMessage(n, |data|)));
    } else {
      r := Ok(data);
    }
  }

  /** `get_bits(n)`: (n + 7) // 8 bytes exactly as read, nothing masked. */
  function GetBits(n: int, search: Search, tape: Tape): (d: Drawn<seq<byte>>)
    ensures n <= 0 ==> d == Drawn(Err(ValueError(PositiveMessage(n))), tape)
    ensures n > 0 && Located(search) ==> d.rest == Rest(tape)
    ensures d.result.Ok? <==> n > 0 && Located(search) && tape != [] && |tape[0]| >= BytesFor(n)
    ensures d.result.Ok? ==> |d.result.value| == BytesFor(n) && d.result.value == tape[0][..BytesFor(n)]
  {
    if n <= 0 then Drawn(Err(ValueError(PositiveMessage(n))), tape)
    else ReadBytes((n + 7) / 8, search, tape)
  }

  /** `get_exact_bits(n)`: a bit count that is not positive, or not a
      multiple of 8, is refused before the port search; otherwise n / 8
      bytes exactly as read. */
  function GetExactBits(n: int, search: Search, tape: Tape): (d: Drawn<seq<byte>>)
    ensures n <= 0 ==> d == Drawn(Err(ValueError(PositiveMessage(n))), tape)
    ensures n > 0 && n % 8 != 0 ==> d == Drawn(Err(ValueError(DivisibleMessage(n))), tape)
    ensures n > 0 && n % 8 == 0 && Located(search) ==> d.rest == Rest(tape)
    ensures d.result.Ok? <==> n > 0 && n % 8 == 0 && Located(search) && tape != [] && |tape[0]| >= n / 8
    ensures d.result.Ok? ==> |d.result.value| == n / 8 && d.result.value == tape[0][..n / 8]
  {
    if n <= 0 then Drawn(Err(ValueError(PositiveMessage(n))), tape)
    else if n % 8 != 0 then Drawn(Err(ValueError(DivisibleMessage(n))), tape)
    else ReadBytes(n / 8, search, tape)
  }

  // ------------------------------------------------------------------------
  // random_int as written

  function RangeMessage(minVal: int, maxVal: int): string
  {
    "min must be less than max, got min=" + IntToString(minVal) + ", max=" + IntToString(maxVal)
  }

  /** What calling the integer parameter `max` as a function raises. */
  const NotCallableMessage := "'int' object is not callable"

  /** `random_int` without max: the big-endian value of four bytes read. */
  function WordDraw(search: Search, tape: Tape): (d: Drawn<int>)
    ensures Located(search) ==> d.rest == Rest(tape)
    ensures d.result.Ok? <==> Located(search) && tape != [] && |tape[0]| >= 4
    ensures d.result.Ok? ==> d.result.value == BigEndian(tape[0][..4]) && 0 <= d.result.value < Pow2(32)
  {
    var data := ReadBytes(4, search, tape);
    if data.result.Err? then Drawn(Err(data.result.error), data.rest)
    else Drawn(Ok(BigEndian(data.result.value)), data.rest)
  }

  /** With a device present, the unbounded draw spans the full unsigned
      32-bit range: every w below 2^32 is returned for the read that spells
      it in four bytes. */
  lemma WordDrawReachesAll(w: nat, search: Search)
    requires w < Pow2(32) && Located(search)
    ensures WordDraw(search, [ToBigEndian(w, 4)]) == Drawn(Ok(w), [])
  {
    var raw := ToBigEndian(w, 4);
    assert [raw][0][..4] == raw;
    FromToBigEndian(w, 4);
  }

  /** `random_int(min, max)` as the source stands: the parameter `max`
      shadows the builtin, so with a valid range the call `max(1, ...)`
      raises TypeError before any read. Without max, min is not looked at. */
  function RandomIntAsWritten(minVal: int, maxVal: Option<int>, search: Search, tape: Tape): (d: Drawn<int>)
    ensures maxVal.None? ==> d == WordDraw(search, tape)
    ensures maxVal.Some? && minVal >= maxVal.value ==>
      d == Drawn(Err(ValueError(RangeMessage(minVal, maxVal.value))), tape)
    ensures maxVal.Some? && minVal < maxVal.value ==>
      d == Drawn(Err(TypeError(NotCallableMessage)), tape)
  {
    match maxVal
    case None => WordDraw(search, tape)
    case Some(hi) =>
      if minVal >= hi then Drawn(Err(ValueError(RangeMessage(minVal, hi))), tape)
      else Drawn(Err(TypeError(NotCallableMessage)), tape)
  }

  /** The bounded `random_int` with the builtin `max` restored: the
      `while True` loop over `get_exact_bits(bits_needed)`. */
  function ExactRejection(rangeSize: nat, bitsNeeded: nat, search: Search, tape: Tape): (d: Drawn<int>)
    requires bitsNeeded >= 1
    ensures d.result.Ok? ==> 0 <= d.result.value < rangeSize
    decreases |tape|
  {
    var draw := GetExactBits(bitsNeeded, search, tape);
    if draw.result.Err? then Drawn(Err(draw.result.error), draw.rest)
    else
      var value := BigEndian(draw.result.value);
      if value < rangeSize then Drawn(Ok(value), draw.rest)
      else ExactRejection(rangeSize, bitsNeeded, search, draw.rest)
  }

  /** With the builtin restored, a range whose bit count is not a multiple
      of 8 is refused by `get_exact_bits` on the first draw. */
  lemma UnalignedRangeRaises(rangeSize: nat, bitsNeeded: nat, search: Search, tape: Tape)
    requires bitsNeeded >= 1 && bitsNeeded % 8 != 0
    ensures ExactRejection(rangeSize, bitsNeeded, search, tape)
      == Drawn(Err(ValueError(DivisibleMessage(bitsNeeded))), tape)
  {
  }

  /** `random_int(0, 10)` needs 4 bits, which `get_exact_bits` refuses, even
      with the builtin `max` restored. */
  lemma Range10Raises(search: Search, tape: Tape)
    ensures BitsNeeded(10) == 4
    ensures ExactRejection(10, BitsNeeded(10), search, tape)
      == Drawn(Err(ValueError(DivisibleMessage(4))), tape)
  {
    assert CeilLog2(2) == 1;
    assert CeilLog2(3) == 2;
    assert CeilLog2(5) == 3;
    assert CeilLog2(10) == 4;
  }

  // ------------------------------------------------------------------------
  // random_int as intended

  /** The corrected draw: `get_bits(n)` with the spare high bits of the most
      significant byte cleared, i.e. the low n bits of the bytes read. */
  function MaskedBits(n: int, search: Search, tape: Tape): (d: Drawn<seq<byte>>)
    requires n > 0
    ensures Located(search) ==> d.rest == Rest(tape)
    ensures d.result.Ok? <==> Located(search) && tape != [] && |tape[0]| >= BytesFor(n)
    ensures d.result.Ok? ==> |d.result.value| == BytesFor(n)
  {
    var raw := ReadBytes((n + 7) / 8, search, tape);
    if raw.result.Err? then raw
    else Drawn(Ok(MaskHeadByte(n, raw.result.value)), raw.rest)
  }

  /** The corrected draw is the low n bits of the bytes read, so it is
      always below 2^n. */
  lemma MaskedBitsValue(n: int, search: Search, tape: Tape)
    requires n > 0
    ensures var d := MaskedBits(n, search, tape);
      d.result.Ok? ==>
        && BigEndian(d.result.value) == BigEndian(tape[0][..BytesFor(n)]) % Pow2(n)
        && BigEndian(d.result.value) < Pow2(n)
  {
    var raw := ReadBytes((n + 7) / 8, search, tape);
    if raw.result.Ok? {
      HeadMaskedValue(n, raw.result.value);
    }
  }

  /** The rejection loop over the corrected draw. */
  function Rejection(rangeSize: nat, bitsNeeded: nat, search: Search, tape: Tape): (d: Drawn<int>)
    requires bitsNeeded >= 1
    ensures d.result.Ok? ==> 0 <= d.result.value < rangeSize
    decreases |tape|
  {
    var draw := MaskedBits(bitsNeeded, search, tape);
    if draw.result.Err? then Drawn(Err(draw.result.error), draw.rest)
    else
      var value := BigEndian(draw.result.value);
      if value < rangeSize then Drawn(Ok(value), draw.rest)
      else Rejection(rangeSize, bitsNeeded, search, draw.rest)
  }

  /** A bounded `random_int`: min plus an offset the rejection loop draws
      with bitsNeeded bits. */
  function RangeDraw(minVal: int, maxVal: int, bitsNeeded: nat, search: Search, tape: Tape): (d: Drawn<int>)
    requires minVal < maxVal && bitsNeeded >= 1
    ensures d.result.Ok? ==> minVal <= d.result.value < maxVal
  {
    Offset(minVal, Rejection(maxVal - minVal, bitsNeeded, search, tape))
  }

  /** An outcome of the rejection loop shifted by min. */
  function Offset(minVal: int, drawn: Drawn<int>): Drawn<int>
  {
    if drawn.result.Err? then drawn
    else Drawn(Ok(minVal + drawn.result.value), drawn.rest)
  }

  /** `random_int(min, max)` with the builtin `max` in the bit count and
      the corrected draw in the loop. */
  function RandomIntOutcome(minVal: int, maxVal: Option<int>, search: Search, tape: Tape): (d: Drawn<int>)
    ensures maxVal.None? ==> d == WordDraw(search, tape)
    ensures maxVal.Some? && minVal >= maxVal.value ==>
      d == Drawn(Err(ValueError(RangeMessage(minVal, maxVal.value))), tape)
    ensures maxVal.Some? && d.result.Ok? ==> minVal <= d.result.value < maxVal.value
  {
    match maxVal
    case None => WordDraw(search, tape)
    case Some(hi) =>
      if minVal >= hi then Drawn(Err(ValueError(RangeMessage(minVal, hi))), tape)
      else RangeDraw(minVal, hi, BitsNeeded(hi - minVal), search, tape)
  }

  /** `random_int(min, max)`, corrected. */
  method RandomInt(minVal: int, maxVal: Option<int>, ports: seq<Port>, tape: Tape) returns (r: Result<int>, rest: Tape)
    ensures Drawn(r, rest) == RandomIntOutcome(minVal, maxVal, FirstTrngPort(ports), tape)
  {
    match maxVal
    case None =>
      r, rest := RandomWord(ports, tape);
    case Some(hi) =>
      if minVal >= hi {
        r, rest := Err(ValueError(RangeMessage(minVal, hi))), tape;
      } else {
        r, rest := RandomBelow(minVal, hi, BitsNeeded(hi - minVal), ports, tape);
      }
  }

  /** The unbounded case of `random_int`: one read of four bytes. */
  method RandomWord(ports: seq<Port>, tape: Tape) returns (r: Result<int>, rest: Tape)
    ensures Drawn(r, rest) == WordDraw(FirstTrngPort(ports), tape)
  {
    var data;
    data, rest := GetBytes(4, ports, tape);
    if data.Err? {
      r := Err(data.error);
    } else {
      r := Ok(BigEndian(data.value));
    }
  }

  /** The bounded case of `random_int`: the rejection loop over the range
      size, offset by min. */
  method RandomBelow(minVal: int, maxVal: int, bitsNeeded: nat, ports: seq<Port>, tape: Tape)
    returns (r: Result<int>, rest: Tape)
    requires minVal < maxVal && bitsNeeded >= 1
    ensures Drawn(r, rest) == RangeDraw(minVal, maxVal, bitsNeeded, FirstTrngPort(ports), tape)
  {
    var value;
    value, rest := Sample(maxVal - minVal, bitsNeeded, ports, tape);
    ghost var drawn := Drawn(value, rest);
    assert RangeDraw(minVal, maxVal, bitsNeeded, FirstTrngPort(ports), tape) == Offset(minVal, drawn);
    if value.Err? {
      r := value;
    } else {
      r := Ok(minVal + value.value);
    }
  }

  /** A bounded draw is the rejection loop's outcome shifted by min. */
  lemma RangeDrawOfRejection(minVal: int, maxVal: int, bitsNeeded: nat, search: Search, tape: Tape, drawn: Drawn<int>)
    requires minVal < maxVal && bitsNeeded >= 1
    requires drawn == Rejection(maxVal - minVal, bitsNeeded, search, tape)
    ensures RangeDraw(minVal, maxVal, bitsNeeded, search, tape) == Offset(minVal, drawn)
  {
  }

  /** The `while True` loop: draw bitsNeeded masked bits until their value
      falls below rangeSize. */
  method Sample(rangeSize: nat, bitsNeeded: nat, ports: seq<Port>, tape: Tape) returns (r: Result<int>, rest: Tape)
    requires bitsNeeded >= 1
    ensures Drawn(r, rest) == Rejection(rangeSize, bitsNeeded, FirstTrngPort(ports), tape)
  {
    rest := tape;
    while true
      invariant Rejection(rangeSize, bitsNeeded, FirstTrngPort(ports), rest) == Rejection(rangeSize, bitsNeeded, FirstTrngPort(ports), tape)
      decreases |rest|
    {
      var data, next := DrawMasked(bitsNeeded, ports, rest);
      if data.Err? {
        return Err(data.error), next;
      }
      var value := BigEndian(data.value);
      if value < rangeSize {
        return Ok(value), next;
      }
      rest := next;
    }
  }

  /** One draw of the corrected loop: `get_bytes((n + 7) // 8)`, then the
      spare bits of the most significant byte cleared. */
  method DrawMasked(n: int, ports: seq<Port>, tape: Tape) returns (r: Result<seq<byte>>, rest: Tape)
    requires n > 0
    ensures Drawn(r, rest) == MaskedBits(n, FirstTrngPort(ports), tape)
  {
    r, rest := GetBytes((n + 7) / 8, ports, tape);
    if r.Ok? {
      r := Ok(MaskHeadByte(n, r.value));
    }
  }

  // ------------------------------------------------------------------------
  // What the corrected sampler returns

  /** With the bit count a multiple of 8, the restored-builtin loop over
      `get_exact_bits` and the corrected loop draw the same values. */
  lemma {:induction false} AlignedRejectionAgrees(rangeSize: nat, bitsNeeded: nat, search: Search, tape: Tape)
    requires bitsNeeded >= 1 && bitsNeeded % 8 == 0
    ensures ExactRejection(rangeSize, bitsNeeded, search, tape) == Rejection(rangeSize, bitsNeeded, search, tape)
    decreases |tape|
  {
    assert (bitsNeeded + 7) / 8 == bitsNeeded / 8;
    var exact := GetExactBits(bitsNeeded, search, tape);
    if exact.result.Ok? && BigEndian(exact.result.value) >= rangeSize {
      AlignedRejectionAgrees(rangeSize, bitsNeeded, search, exact.rest);
    }
  }

  /** Each corrected draw is below 2^bits_needed, which is at most twice the
      range, so it is accepted with odds of at least one half. */
  lemma DrawBelowTwiceRange(rangeSize: nat, search: Search, tape: Tape)
    requires rangeSize >= 1
    ensures var d := MaskedBits(BitsNeeded(rangeSize), search, tape);
      d.result.Ok? ==> BigEndian(d.result.value) < 2 * rangeSize
  {
    BitsNeededBounds(rangeSize);
    MaskedBitsValue(BitsNeeded(rangeSize), search, tape);
  }

  /** A read that spells an offset below both the range and 2^bits is
      accepted at once. */
  lemma RejectionAccepts(rangeSize: nat, bits: nat, w: nat, search: Search)
    requires bits >= 1 && w < rangeSize && w < Pow2(bits) && Located(search)
    ensures w < Pow2(8 * BytesFor(bits))
    ensures Rejection(rangeSize, bits, search, [ToBigEndian(w, BytesFor(bits))]) == Drawn(Ok(w), [])
  {
    HeadMaskedReachesAll(bits, w);
    var raw := ToBigEndian(w, BytesFor(bits));
    assert [raw][0][..BytesFor(bits)] == raw;
  }

  /** Hence min plus that offset is what the bounded `random_int` returns. */
  lemma RangeDrawAccepts(minVal: int, maxVal: int, bits: nat, n: int, search: Search)
    requires bits >= 1 && minVal <= n < maxVal && n - minVal < Pow2(bits) && Located(search)
    ensures n - minVal < Pow2(8 * BytesFor(bits))
    ensures RangeDraw(minVal, maxVal, bits, search, [ToBigEndian(n - minVal, BytesFor(bits))]).result == Ok(n)
  {
    var w := n - minVal;
    RejectionAccepts(maxVal - minVal, bits, w, search);
    var d := Rejection(maxVal - minVal, bits, search, [ToBigEndian(w, BytesFor(bits))]);
    assert d.result == Ok(w);
  }

  /** Every value of [min, max) is returned for some entropy: the one whose
      bytes spell value - min. */
  lemma RandomIntReachesAll(minVal: int, maxVal: int, n: int, search: Search)
    requires minVal <= n < maxVal && Located(search)
    ensures var bits := BitsNeeded(maxVal - minVal);
      n - minVal < Pow2(8 * BytesFor(bits))
      && RangeDraw(minVal, maxVal, bits, search, [ToBigEndian(n - minVal, BytesFor(bits))]).result == Ok(n)
  {
    var bits := BitsNeeded(maxVal - minVal);
    assert n - minVal < Pow2(bits) by {
      BitsNeededBounds(maxVal - minVal);
    }
    RangeDrawAccepts(minVal, maxVal, bits, n, search);
  }

  // ------------------------------------------------------------------------
  // The bit count in floating point

  /** Whatever bit count the loop is given, the corrected draw stays below
      2^bits, and so does every value the loop accepts. */
  lemma {:induction false} RejectionBelowPow2(rangeSize: nat, bits: nat, search: Search, tape: Tape)
    requires bits >= 1
    ensures var d := Rejection(rangeSize, bits, search, tape);
      d.result.Ok? ==> d.result.value < Pow2(bits)
    decreases |tape|
  {
    var draw := MaskedBits(bits, search, tape);
    MaskedBitsValue(bits, search, tape);
    if draw.result.Ok? && BigEndian(draw.result.value) >= rangeSize {
      RejectionBelowPow2(rangeSize, bits, search, draw.rest);
    }
  }

  /** A range of 2^k + 1 needs k + 1 bits, but the source computes the bit
      count in floating point, where `math.log2(2**k + 1)` rounds to k for
      k from 49 up. With k bits, even the corrected draw never returns
      min + 2^k, which lies in the range. */
  lemma FloatBitsMissTop(minVal: int, maxVal: int, k: nat, search: Search, tape: Tape)
    requires k >= 1 && maxVal - minVal == Pow2(k) + 1
    ensures BitsNeeded(maxVal - minVal) == k + 1
    ensures minVal <= minVal + Pow2(k) < maxVal
    ensures RangeDraw(minVal, maxVal, k, search, tape).result != Ok(minVal + Pow2(k))
  {
    PowPlusOneBits(k, maxVal - minVal);
    RangeDrawBelowPow2(minVal, maxVal, k, Pow2(k), search, tape);
  }

  /** Hence a bounded draw with k bits returns less than min + 2^k (the
      power passed as P). */
  lemma RangeDrawBelowPow2(minVal: int, maxVal: int, k: nat, P: nat, search: Search, tape: Tape)
    requires minVal < maxVal && k >= 1 && P == Pow2(k)
    ensures var d := RangeDraw(minVal, maxVal, k, search, tape);
      d.result.Ok? ==> d.result.value < minVal + P
  {
    var d := Rejection(maxVal - minVal, k, search, tape);
    RejectionBelowPow2(maxVal - minVal, k, search, tape);
    assert RangeDraw(minVal, maxVal, k, search, tape) == Offset(minVal, d);
  }
}
