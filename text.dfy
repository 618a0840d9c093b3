/** The string operations the availability checks use: ASCII `str.lower()`,
    the `in` substring test, `str.startswith`, and the decimal rendering of
    integers inside f-strings. */
module Text {

  function LowerChar(c: char): char
  {
    if 'A' <= c <= 'Z' then (c as int + 32) as char else c
  }

  /** `s.lower()` on ASCII text. */
  function Lower(s: string): (r: string)
    ensures |r| == |s|
    ensures forall i | 0 <= i < |s| :: r[i] == LowerChar(s[i])
  {
    seq(|s|, i requires 0 <= i < |s| => LowerChar(s[i]))
  }

  lemma LowerAppend(a: string, b: string)
    ensures Lower(a + b) == Lower(a) + Lower(b)
  {
    assert forall i | 0 <= i < |a + b| :: Lower(a + b)[i] == (Lower(a) + Lower(b))[i];
  }

  /** p occurs in s starting at index i. */
  predicate OccursAt(s: string, p: string, i: int)
  {
    0 <= i && i + |p| <= |s| && s[i..i + |p|] == p
  }

  /** Python's `p in s` for strings. */
  predicate Contains(s: string, p: string)
  {
    exists i | 0 <= i <= |s| :: OccursAt(s, p, i)
  }

  /** `s.startswith(p)`. */
  predicate StartsWith(s: string, p: string)
  {
    |p| <= |s| && s[..|p|] == p
  }

  /** Starting at index i, s and p disagree on some character while both last. */
  predicate MismatchAt(s: string, p: string, i: int)
  {
    exists j :: 0 <= j < |p| && 0 <= i + j < |s| && s[i + j] != p[j]
  }

  /** An occurrence of p in a + b that is neither inside a nor inside b must
      start in a at a position where a agrees with p up to a's end; when every
      start position in a disagrees with p before a ends, p occurs in a + b
      only if it occurs in b. */
  lemma NotContainsAppend(a: string, b: string, p: string)
    requires forall i | 0 <= i < |a| :: MismatchAt(a, p, i)
    requires !Contains(b, p)
    ensures !Contains(a + b, p)
  {
    forall i | 0 <= i <= |a + b|
      ensures !OccursAt(a + b, p, i)
    {
      if i < |a| {
        assert MismatchAt(a, p, i);
        var j :| 0 <= j < |p| && 0 <= i + j < |a| && a[i + j] != p[j];
        if i + |p| <= |a + b| {
          assert (a + b)[i..i + |p|][j] != p[j];
        }
      } else if i + |p| <= |a + b| {
        assert (a + b)[i..i + |p|] == b[i - |a|..i - |a| + |p|];
        assert !OccursAt(b, p, i - |a|);
      }
    }
  }

  /** Lower-casing keeps the spaces of a joined string where they are. */
  lemma LowerJoin(a: string, b: string)
    ensures Lower(a + " " + b) == Lower(a) + " " + Lower(b)
  {
    LowerAppend(a + " ", b);
    LowerAppend(a, " ");
    assert Lower(" ") == " " by {
      assert Lower(" ")[0] == LowerChar(' ');
    }
  }

  /** A pattern without spaces occurs in a + " " + b exactly when it occurs
      in a or in b: no occurrence can straddle the space. */
  lemma ContainsJoin(a: string, b: string, p: string)
    requires forall k | 0 <= k < |p| :: p[k] != ' '
    ensures Contains(a + " " + b, p) <==> Contains(a, p) || Contains(b, p)
  {
    var s := a + " " + b;
    if Contains(a, p) {
      var i :| 0 <= i <= |a| && OccursAt(a, p, i);
      assert s[i..i + |p|] == a[i..i + |p|];
      assert OccursAt(s, p, i);
    }
    if Contains(b, p) {
      var j :| 0 <= j <= |b| && OccursAt(b, p, j);
      var i := |a| + 1 + j;
      assert s[i..i + |p|] == b[j..j + |p|];
      assert OccursAt(s, p, i);
    }
    if Contains(s, p) {
      var i :| 0 <= i <= |s| && OccursAt(s, p, i);
      assert s[|a|] == ' ';
      if i + |p| <= |a| {
        assert a[i..i + |p|] == s[i..i + |p|];
        assert OccursAt(a, p, i);
      } else if i <= |a| {
        assert false;
      } else {
        var j := i - |a| - 1;
        assert s[i..i + |p|] == b[j..j + |p|] by {
          assert s[|a| + 1..] == b;
        }
        assert OccursAt(b, p, j);
      }
    }
  }

  function DigitChar(d: nat): char
    requires d < 10
  {
    ('0' as int + d) as char
  }

  /** `str(n)` for a natural number. */
  function NatToString(n: nat): string
  {
    if n < 10 then [DigitChar(n)] else NatToString(n / 10) + [DigitChar(n % 10)]
  }

  /** `str(i)` for any integer. */
  function IntToString(i: int): string
  {
    if i < 0 then "-" + NatToString(-i) else NatToString(i)
  }
}
