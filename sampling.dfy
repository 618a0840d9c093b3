/** The arithmetic of the rejection sampler that both backends' `random_int`
    share: how many bits a range needs, and a draw of that many bits whose
    spare high bits are cleared in the most significant byte. */
module Sampling {
  import opened Bytes

  /** ceil(log2(r)) computed on integers: the least c with 2^c >= r. */
  function CeilLog2(r: nat): (c: nat)
    requires r >= 1
    ensures Pow2(c) >= r
    ensures c > 0 ==> Pow2(c - 1) < r
    decreases r
  {
    if r == 1 then 0 else 1 + CeilLog2((r + 1) / 2)
  }

  /** `max(1, ceil(log2(range_size)))`. */
  function BitsNeeded(rangeSize: nat): (b: nat)
    requires rangeSize >= 1
    ensures b >= 1
  {
    var c := CeilLog2(rangeSize);
    if c < 1 then 1 else c
  }

  /** BitsNeeded is the least b >= 1 with 2^b >= rangeSize, so that 2^b never
      exceeds twice the range. */
  lemma BitsNeededBounds(rangeSize: nat)
    requires rangeSize >= 1
    ensures Pow2(BitsNeeded(rangeSize)) >= rangeSize
    ensures BitsNeeded(rangeSize) > 1 ==> Pow2(BitsNeeded(rangeSize) - 1) < rangeSize
    ensures Pow2(BitsNeeded(rangeSize)) <= 2 * rangeSize
  {
    var c := CeilLog2(rangeSize);
    if c >= 1 {
      assert Pow2(c) == 2 * Pow2(c - 1);
    }
  }

  /** No smaller positive bit count covers the range. */
  lemma BitsNeededIsLeast(rangeSize: nat, b: nat)
    requires rangeSize >= 1 && b >= 1 && Pow2(b) >= rangeSize
    ensures BitsNeeded(rangeSize) <= b
  {
    var n := BitsNeeded(rangeSize);
    BitsNeededBounds(rangeSize);
    if n > b {
      Pow2Monotone(b, n - 1);
    }
  }

  /** The draw `random_int` needs: clear the spare high bits of the FIRST
      byte, the one `int.from_bytes(..., "big")` makes most significant,
      keeping exactly the low nBits bits of the value. (`get_exact_bits`
      masks the last byte, as it documents; the mismatch is in `random_int`
      reading that buffer big-endian.) */
  function MaskHeadByte(nBits: int, data: seq<byte>): (r: seq<byte>)
    requires nBits > 0 && |data| == BytesFor(nBits)
    ensures |r| == |data| && r[1..] == data[1..]
    ensures nBits % 8 != 0 ==> r[0] < Pow2(nBits % 8) && r[0] == data[0] % Pow2(nBits % 8)
    ensures nBits % 8 == 0 ==> r == data
  {
    if nBits % 8 == 0 then data
    else [MaskLow(data[0], nBits % 8)] + data[1..]
  }

  lemma HeadSplitMod(h: nat, t: nat, P: nat, K: nat)
    requires P > 0 && K > 0 && t < P
    ensures (h * P + t) % (K * P) == (h % K) * P + t
    ensures (h % K) * P + t < K * P
  {
    var q, r := h / K, h % K;
    assert h == q * K + r;
    assert h * P + t == q * (K * P) + (r * P + t) by {
      assert h * P == (q * K) * P + r * P;
      MulAssoc(q, K, P);
    }
    assert r * P + t < K * P by {
      assert r <= K - 1;
      assert r * P <= (K - 1) * P;
    }
    ModUnique(h * P + t, K * P, q, r * P + t);
  }

  lemma HeadMaskedValueUnaligned(nBits: int, data: seq<byte>)
    requires nBits > 0 && nBits % 8 != 0 && |data| == BytesFor(nBits)
    ensures BigEndian(MaskHeadByte(nBits, data)) == BigEndian(data) % Pow2(nBits)
    ensures BigEndian(MaskHeadByte(nBits, data)) < Pow2(nBits)
  {
    var r := MaskHeadByte(nBits, data);
    var P, K := Pow2(8 * (|data| - 1)), Pow2(nBits % 8);
    UnalignedPow2Split(nBits);
    BigEndianHead(data);
    assert BigEndian(r) == (data[0] % K) * P + BigEndian(data[1..]) by {
      BigEndianHead(r);
    }
    SplitModLink(BigEndian(data), Pow2(nBits), BigEndian(r), data[0], BigEndian(data[1..]), P, K);
  }

  /** HeadSplitMod with every quantity named, so that its use needs no
      arithmetic. */
  lemma SplitModLink(X: nat, N: nat, R: nat, h: nat, t: nat, P: nat, K: nat)
    requires P > 0 && K > 0 && t < P
    requires X == h * P + t && N == K * P && R == (h % K) * P + t
    ensures R == X % N && R < N
  {
    HeadSplitMod(h, t, P, K);
  }

  /** 2^nBits splits into the spare-bit part of the head byte and the
      whole bytes after it. */
  lemma UnalignedPow2Split(nBits: int)
    requires nBits > 0 && nBits % 8 != 0
    ensures Pow2(nBits) == Pow2(nBits % 8) * Pow2(8 * (BytesFor(nBits) - 1))
  {
    BytesForSplit(nBits);
    Pow2Add(nBits % 8, 8 * (BytesFor(nBits) - 1));
  }

  lemma MulMonotone(a: nat, b: nat, c: nat)
    requires a <= b
    ensures a * c <= b * c
  {
  }

  /** The corrected draw reads as the low nBits bits of the raw value, so it
      is always below 2^nBits. */
  lemma HeadMaskedValue(nBits: int, data: seq<byte>)
    requires nBits > 0 && |data| == BytesFor(nBits)
    ensures BigEndian(MaskHeadByte(nBits, data)) == BigEndian(data) % Pow2(nBits)
    ensures BigEndian(MaskHeadByte(nBits, data)) < Pow2(nBits)
  {
    if nBits % 8 == 0 {
      BytesForSplit(nBits);
      ModUnique(BigEndian(data), Pow2(nBits), 0, BigEndian(data));
    } else {
      HeadMaskedValueUnaligned(nBits, data);
    }
  }

  /** Every value below 2^nBits is the corrected draw of some raw read: the
      value itself written big-endian. */
  lemma HeadMaskedReachesAll(nBits: int, v: nat)
    requires nBits > 0 && v < Pow2(nBits)
    ensures v < Pow2(8 * BytesFor(nBits))
    ensures BigEndian(MaskHeadByte(nBits, ToBigEndian(v, BytesFor(nBits)))) == v
  {
    var m := BytesFor(nBits);
    Pow2Monotone(nBits, 8 * m);
    var raw := ToBigEndian(v, m);
    HeadMaskedValue(nBits, raw);
    FromToBigEndian(v, m);
    ModUnique(v, Pow2(nBits), 0, v);
  }

  /** BitsNeeded is the bit count b whose power of two covers the range
      while the one below does not. */
  lemma BitsNeededExact(rangeSize: nat, b: nat)
    requires rangeSize >= 1 && b >= 1
    requires Pow2(b) >= rangeSize && Pow2(b - 1) < rangeSize
    ensures BitsNeeded(rangeSize) == b
  {
    var n := BitsNeeded(rangeSize);
    BitsNeededBounds(rangeSize);
    BitsNeededIsLeast(rangeSize, b);
    if n < b {
      Pow2Monotone(n, b - 1);
    }
  }

  /** A range of 2^k + 1 needs k + 1 bits: 2^k falls short by one. */
  lemma PowPlusOneBits(k: nat, rangeSize: nat)
    requires rangeSize == Pow2(k) + 1
    ensures BitsNeeded(rangeSize) == k + 1
  {
    assert Pow2(k + 1) == 2 * Pow2(k);
    BitsNeededExact(rangeSize, k + 1);
  }
}
