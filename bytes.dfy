/** Byte strings and the integer arithmetic both backends share: powers of two,
    the number of bytes that holds a bit count, Python's `&` on non-negative
    integers, and `int.from_bytes(data, "big")` with its inverse. */
module Bytes {

  /** One element of a Python `bytes` value. */
  type byte = x: int | 0 <= x < 256

  /** 2^k, Python's `1 << k`. */
  function Pow2(k: nat): (r: nat)
    ensures r >= 1
  {
    if k == 0 then 1 else 2 * Pow2(k - 1)
  }

  lemma {:induction false} Pow2Add(a: nat, b: nat)
    ensures Pow2(a + b) == Pow2(a) * Pow2(b)
  {
    if a > 0 {
      Pow2Add(a - 1, b);
      calc {
        Pow2(a + b);
        2 * Pow2(a - 1 + b);
        2 * (Pow2(a - 1) * Pow2(b));
        (2 * Pow2(a - 1)) * Pow2(b);
      }
    }
  }

  lemma {:induction false} Pow2Monotone(a: nat, b: nat)
    requires a <= b
    ensures Pow2(a) <= Pow2(b)
  {
    if a < b {
      Pow2Monotone(a, b - 1);
    }
  }

  /** The number of bytes holding nBits bits, ceil(nBits / 8): the least count
      of whole bytes that has room for every requested bit. */
  function BytesFor(nBits: int): (r: nat)
    requires nBits > 0
    ensures r >= 1 && 8 * r >= nBits && 8 * (r - 1) < nBits
  {
    (nBits + 7) / 8
  }

  /** nBits fills BytesFor(nBits) - 1 whole bytes and nBits % 8 bits of one
      more, or exactly BytesFor(nBits) whole bytes. */
  lemma BytesForSplit(nBits: int)
    requires nBits > 0
    ensures nBits % 8 != 0 ==> nBits == 8 * (BytesFor(nBits) - 1) + nBits % 8
    ensures nBits % 8 == 0 ==> nBits == 8 * BytesFor(nBits)
  {
  }

  /** Python's `x & y` on non-negative integers, bit by bit from the least
      significant end. */
  function BitAnd(x: nat, y: nat): (r: nat)
    ensures r <= x && r <= y
  {
    if x == 0 || y == 0 then 0
    else 2 * BitAnd(x / 2, y / 2) + (if x % 2 == 1 && y % 2 == 1 then 1 else 0)
  }

  lemma MulAtLeast(a: int, d: int)
    requires a >= 1 && d > 0
    ensures a * d >= d
  {
    assert a * d == d + (a - 1) * d;
  }

  lemma MulAssoc(x: int, y: int, z: int)
    ensures (x * y) * z == x * (y * z)
  {
  }

  /** Euclidean division is determined by quotient and remainder. */
  lemma ModUnique(x: int, d: int, q: int, r: int)
    requires d > 0 && 0 <= r < d && x == q * d + r
    ensures x % d == r && x / d == q
  {
    var q', r' := x / d, x % d;
    assert x == q' * d + r';
    assert (q - q') * d == r' - r;
    if q > q' {
      MulAtLeast(q - q', d);
    } else if q < q' {
      MulAtLeast(q' - q, d);
    }
  }

  /** Splitting off the lowest bit commutes with reduction modulo 2^(k+1). */
  lemma ModPow2Step(x: nat, k: nat)
    ensures x % Pow2(k + 1) == 2 * ((x / 2) % Pow2(k)) + x % 2
  {
    var p := Pow2(k);
    var q, t := (x / 2) / p, (x / 2) % p;
    assert x / 2 == q * p + t;
    assert x == q * (2 * p) + (2 * t + x % 2);
    ModUnique(x, 2 * p, q, 2 * t + x % 2);
  }

  /** `x & ((1 << k) - 1)` keeps exactly the k low bits of x. */
  lemma {:induction false} BitAndLowMask(x: nat, k: nat)
    ensures BitAnd(x, Pow2(k) - 1) == x % Pow2(k)
  {
    if k == 0 {
      assert Pow2(k) == 1;
      ModUnique(x, 1, x, 0);
    } else if x == 0 {
      assert BitAnd(x, Pow2(k) - 1) == 0;
      ModUnique(0, Pow2(k), 0, 0);
    } else {
      BitAndLowMask(x / 2, k - 1);
      BitAndLowMaskStep(x, k);
    }
  }

  /** The inductive step: if the k - 1 low bits of x / 2 survive the mask
      2^(k-1) - 1, then the k low bits of x survive 2^k - 1. */
  lemma BitAndLowMaskStep(x: nat, k: nat)
    requires x > 0 && k >= 1
    requires BitAnd(x / 2, Pow2(k - 1) - 1) == (x / 2) % Pow2(k - 1)
    ensures BitAnd(x, Pow2(k) - 1) == x % Pow2(k)
  {
    LowMaskHalves(k);
    BitAndOddStep(x, Pow2(k) - 1);
    ModPow2Step(x, k - 1);
    assert Pow2(k - 1 + 1) == Pow2(k);
    assert BitAnd(x, Pow2(k) - 1) == 2 * BitAnd(x / 2, Pow2(k - 1) - 1) + x % 2;
    assert x % Pow2(k) == 2 * ((x / 2) % Pow2(k - 1)) + x % 2;
    DoubleLink(BitAnd(x, Pow2(k) - 1), BitAnd(x / 2, Pow2(k - 1) - 1), (x / 2) % Pow2(k - 1), x % Pow2(k), x % 2);
  }

  /** a = 2b + c and d = 2b' + c with b = b' give a = d. */
  lemma DoubleLink(a: int, b: int, b': int, d: int, c: int)
    requires a == 2 * b + c && b == b' && d == 2 * b' + c
    ensures a == d
  {
  }

  /** 2^k - 1 is odd for k >= 1, and halving it gives 2^(k-1) - 1. */
  lemma LowMaskHalves(k: nat)
    requires k >= 1
    ensures (Pow2(k) - 1) % 2 == 1 && (Pow2(k) - 1) / 2 == Pow2(k - 1) - 1
  {
    ModUnique(Pow2(k) - 1, 2, Pow2(k - 1) - 1, 1);
  }

  /** Against an odd mask, the lowest bit of x survives and the rest is the
      conjunction of the halves. */
  lemma BitAndOddStep(x: nat, m: nat)
    requires x > 0 && m % 2 == 1
    ensures BitAnd(x, m) == 2 * BitAnd(x / 2, m / 2) + x % 2
  {
  }

  /** `b & ((1 << k) - 1)` for a byte: its k low bits, the others cleared. */
  function MaskLow(b: byte, k: nat): (r: byte)
    requires k <= 8
    ensures r == b % Pow2(k) && r < Pow2(k)
  {
    BitAndLowMask(b, k);
    BitAnd(b, Pow2(k) - 1)
  }

  /** `int.from_bytes(data, "big")`: the first byte is the most significant. */
  function BigEndian(s: seq<byte>): (r: nat)
    ensures r < Pow2(8 * |s|)
  {
    if s == [] then 0
    else
      Pow2Add(8 * (|s| - 1), 8);
      BigEndian(s[..|s| - 1]) * 256 + s[|s| - 1]
  }

  /** The inverse of `BigEndian`: v written on exactly len bytes, most
      significant first (`v.to_bytes(len, "big")`). */
  function ToBigEndian(v: nat, len: nat): (s: seq<byte>)
    requires v < Pow2(8 * len)
    ensures |s| == len
  {
    if len == 0 then []
    else
      Pow2Add(8 * (len - 1), 8);
      ToBigEndian(v / 256, len - 1) + [v % 256]
  }

  /** The last byte of a big-endian string is its value modulo 256. */
  lemma BigEndianLowByte(s: seq<byte>)
    requires |s| > 0
    ensures BigEndian(s) % 256 == s[|s| - 1]
    ensures BigEndian(s) / 256 == BigEndian(s[..|s| - 1])
  {
    ModUnique(BigEndian(s), 256, BigEndian(s[..|s| - 1]), s[|s| - 1]);
  }

  /** The powers of two the byte arithmetic needs by value. */
  lemma Pow2Small()
    ensures Pow2(7) == 128 && Pow2(8) == 256 && Pow2(9) == 512
  {
  }

  /** Regrouping one more byte appended under a prefix. */
  lemma ShiftByte(A: int, B: int, P: int, c: int)
    ensures (A * P + B) * 256 + c == A * (P * 256) + (B * 256 + c)
  {
  }

  /** Dropping the last byte of a + b, b non-empty, leaves a + b[..|b| - 1]. */
  lemma BigEndianAppendStep(a: seq<byte>, b: seq<byte>)
    requires b != []
    ensures BigEndian(a + b) == BigEndian(a + b[..|b| - 1]) * 256 + b[|b| - 1]
  {
    assert (a + b)[..|a + b| - 1] == a + b[..|b| - 1];
  }

  /** A big-endian string read in two parts. */
  lemma {:induction false} BigEndianAppend(a: seq<byte>, b: seq<byte>)
    ensures BigEndian(a + b) == BigEndian(a) * Pow2(8 * |b|) + BigEndian(b)
  {
    if b == [] {
      assert a + b == a;
    } else {
      var b' := b[..|b| - 1];
      var A, B, P, c := BigEndian(a), BigEndian(b'), Pow2(8 * |b'|), b[|b| - 1];
      BigEndianAppendStep(a, b);
      BigEndianAppend(a, b');
      assert Pow2(8 * |b|) == P * 256 by {
        Pow2Add(8 * |b'|, 8);
        Pow2Small();
      }
      ShiftByte(A, B, P, c);
    }
  }

  /** A byte string read as its first byte above the rest. */
  lemma BigEndianHead(data: seq<byte>)
    requires |data| > 0
    ensures BigEndian(data) == data[0] * Pow2(8 * (|data| - 1)) + BigEndian(data[1..])
  {
    var head, tail := [data[0]], data[1..];
    assert data == head + tail;
    assert BigEndian(head) == data[0] by {
      assert head[..0] == [];
    }
    BigEndianAppend(head, tail);
  }

  /** Decoding what was encoded gives the value back. */
  lemma {:induction false} FromToBigEndian(v: nat, len: nat)
    requires v < Pow2(8 * len)
    ensures BigEndian(ToBigEndian(v, len)) == v
  {
    if len > 0 {
      Pow2Add(8 * (len - 1), 8);
      var s := ToBigEndian(v, len);
      assert s[..len - 1] == ToBigEndian(v / 256, len - 1);
      FromToBigEndian(v / 256, len - 1);
    }
  }

  /** Encoding a decoded string on its own length gives the string back. */
  lemma {:induction false} ToFromBigEndian(s: seq<byte>)
    ensures ToBigEndian(BigEndian(s), |s|) == s
  {
    if s != [] {
      var init := s[..|s| - 1];
      BigEndianLowByte(s);
      ToFromBigEndian(init);
      assert s == init + [s[|s| - 1]];
    }
  }

  /** n zero bytes. */
  function Zeros(n: nat): (s: seq<byte>)
    ensures |s| == n && BigEndian(s) == 0
  {
    if n == 0 then [] else
      var s := Zeros(n - 1) + [0];
      assert s[..n - 1] == Zeros(n - 1);
      s
  }
}
