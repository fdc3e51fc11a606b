/**
 Sequence-of-character helpers the renamer's name pipeline is built from:
 subsequences, filtering, occurrences of a pattern, the ordinal
 `string.Replace(pattern, "")` of .NET (here `Erase`), and the decimal
 rendering of a non-negative integer used by the collision suffix.
 */
module Text {

  /* ---------------------------------------------------------------------- */
  /* Subsequences                                                            */
  /* ---------------------------------------------------------------------- */

  /**
   True iff `a` can be obtained from `b` by deleting characters. The
   definition matches greedily: the first character of `a` is matched with
   the first equal character of `b`.
   */
  predicate IsSubsequence(a: string, b: string)
    decreases |b|
  {
    if |a| == 0 then true
    else if |b| == 0 then false
    else if a[0] == b[0] then IsSubsequence(a[1..], b[1..])
    else IsSubsequence(a, b[1..])
  }

  lemma {:induction false} SubsequenceReflexive(s: string)
    ensures IsSubsequence(s, s)
    decreases |s|
  {
    if |s| > 0 {
      SubsequenceReflexive(s[1..]);
    }
  }

  /** Dropping the first character of the smaller sequence keeps the relation. */
  lemma {:induction false} SubsequenceDropFirst(a: string, b: string)
    requires |a| > 0 && IsSubsequence(a, b)
    ensures IsSubsequence(a[1..], b)
    decreases |b|, 1
  {
    if a[0] == b[0] {
      SubsequenceSkipFirst(a[1..], b);
    } else {
      SubsequenceDropFirst(a, b[1..]);
      SubsequenceSkipFirst(a[1..], b);
    }
  }

  /** A subsequence of the tail is a subsequence of the whole. */
  lemma {:induction false} SubsequenceSkipFirst(a: string, b: string)
    requires |b| > 0 && IsSubsequence(a, b[1..])
    ensures IsSubsequence(a, b)
    decreases |b|, 0
  {
    if |a| > 0 && a[0] == b[0] {
      SubsequenceDropFirst(a, b[1..]);
    }
  }

  /** Deleting a prefix of the larger sequence keeps the relation. */
  lemma {:induction false} SubsequenceOfSuffix(a: string, b: string, n: nat)
    requires n <= |b|
    requires IsSubsequence(a, b[n..])
    ensures IsSubsequence(a, b)
    decreases n
  {
    if n > 0 {
      assert b[1..][n - 1..] == b[n..];
      SubsequenceOfSuffix(a, b[1..], n - 1);
      SubsequenceSkipFirst(a, b);
    }
  }

  lemma {:induction false} SubsequenceTransitive(a: string, b: string, c: string)
    requires IsSubsequence(a, b) && IsSubsequence(b, c)
    ensures IsSubsequence(a, c)
    decreases |c|
  {
    if |a| > 0 {
      if b[0] == c[0] {
        if a[0] == b[0] {
          SubsequenceTransitive(a[1..], b[1..], c[1..]);
        } else {
          SubsequenceTransitive(a, b[1..], c[1..]);
        }
      } else {
        SubsequenceTransitive(a, b, c[1..]);
        SubsequenceSkipFirst(a, c);
      }
    }
  }

  lemma {:induction false} SubsequenceLength(a: string, b: string)
    requires IsSubsequence(a, b)
    ensures |a| <= |b|
    decreases |b|
  {
    if |a| > 0 {
      if a[0] == b[0] {
        SubsequenceLength(a[1..], b[1..]);
      } else {
        SubsequenceLength(a, b[1..]);
      }
    }
  }

  /** Every character of a subsequence occurs in the larger sequence. */
  lemma {:induction false} SubsequenceChars(a: string, b: string)
    requires IsSubsequence(a, b)
    ensures forall x :: x in a ==> x in b
    decreases |b|
  {
    if |a| > 0 {
      if a[0] == b[0] {
        SubsequenceChars(a[1..], b[1..]);
        forall x | x in a
          ensures x in b
        {
          if x != a[0] {
            assert x in a[1..];
          }
        }
      } else {
        SubsequenceChars(a, b[1..]);
      }
    }
  }

  /** A subsequence of the same length is the sequence itself. */
  lemma {:induction false} SubsequenceSameLength(a: string, b: string)
    requires IsSubsequence(a, b) && |a| == |b|
    ensures a == b
    decreases |b|
  {
    if |a| > 0 {
      if a[0] == b[0] {
        SubsequenceSameLength(a[1..], b[1..]);
        assert a == [a[0]] + a[1..];
        assert b == [b[0]] + b[1..];
      } else {
        SubsequenceLength(a, b[1..]);
        assert false;
      }
    }
  }

  /** A subsequence of a prefix is a subsequence of the whole. */
  lemma {:induction false} SubsequenceOfPrefix(a: string, b: string, c: string)
    requires IsSubsequence(a, b) && b <= c
    ensures IsSubsequence(a, c)
    decreases |c|
  {
    if |a| > 0 {
      assert b[1..] <= c[1..] by {
        assert c[1..][..|b| - 1] == b[1..];
      }
      if a[0] == b[0] {
        SubsequenceOfPrefix(a[1..], b[1..], c[1..]);
      } else {
        SubsequenceOfPrefix(a, b[1..], c[1..]);
      }
    }
  }

  /* ---------------------------------------------------------------------- */
  /* Filtering                                                               */
  /* ---------------------------------------------------------------------- */

  /** The characters of `s` that are not in `drop`, in their original order. */
  function Without(s: string, drop: set<char>): (r: string)
    ensures forall x :: x in r ==> x in s && x !in drop
    decreases |s|
  {
    if |s| == 0 then []
    else if s[0] in drop then Without(s[1..], drop)
    else [s[0]] + Without(s[1..], drop)
  }

  lemma {:induction false} WithoutConcat(a: string, b: string, drop: set<char>)
    ensures Without(a + b, drop) == Without(a, drop) + Without(b, drop)
    decreases |a|
  {
    if |a| > 0 {
      assert (a + b)[1..] == a[1..] + b;
      WithoutConcat(a[1..], b, drop);
    } else {
      assert a + b == b;
    }
  }

  lemma {:induction false} WithoutAllDropped(s: string, drop: set<char>)
    requires forall x :: x in s ==> x in drop
    ensures Without(s, drop) == []
    decreases |s|
  {
    if |s| > 0 {
      assert forall x :: x in s[1..] ==> x in s;
      WithoutAllDropped(s[1..], drop);
    }
  }

  /* ---------------------------------------------------------------------- */
  /* Occurrences and ordinal erasure                                         */
  /* ---------------------------------------------------------------------- */

  /** `p` occurs in `s` starting at index `k`. */
  predicate OccursAt(s: string, p: string, k: int) {
    0 <= k && k + |p| <= |s| && s[k..k + |p|] == p
  }

  predicate Occurs(s: string, p: string) {
    exists k :: 0 <= k <= |s| && OccursAt(s, p, k)
  }

  /**
   The ordinal `s.Replace(p, "")` of .NET: scanning left to right, each
   occurrence of `p` that does not overlap an occurrence already removed is
   deleted; the text produced by a deletion is not scanned again.
   */
  function Erase(s: string, p: string): (r: string)
    requires |p| > 0
    ensures IsSubsequence(r, s)
    decreases |s|
  {
    if |s| == 0 then []
    else if p <= s then
      var r := Erase(s[|p|..], p);
      SubsequenceOfSuffix(r, s, |p|);
      r
    else
      var t := Erase(s[1..], p);
      assert ([s[0]] + t)[1..] == t;
      [s[0]] + t
  }

  /** Erasing a one-character pattern removes every copy of that character. */
  lemma {:induction false} EraseCharRemovesIt(s: string, c: char)
    ensures c !in Erase(s, [c])
    decreases |s|
  {
    if |s| > 0 {
      if [c] <= s {
        EraseCharRemovesIt(s[1..], c);
      } else {
        EraseCharRemovesIt(s[1..], c);
        assert s[0] != c;
      }
    }
  }

  /** Erasure removes only characters of the pattern. */
  lemma {:induction false} EraseKeepsOthers(s: string, p: string, drop: set<char>)
    requires |p| > 0
    requires forall x :: x in p ==> x in drop
    ensures Without(Erase(s, p), drop) == Without(s, drop)
    decreases |s|
  {
    if |s| > 0 {
      if p <= s {
        EraseKeepsOthers(s[|p|..], p, drop);
        assert s == s[..|p|] + s[|p|..];
        assert s[..|p|] == p;
        WithoutConcat(s[..|p|], s[|p|..], drop);
        WithoutAllDropped(p, drop);
      } else {
        EraseKeepsOthers(s[1..], p, drop);
        var t := Erase(s[1..], p);
        assert ([s[0]] + t)[1..] == t;
      }
    }
  }

  /** Without an occurrence of the pattern, erasure changes nothing. */
  lemma {:induction false} EraseAbsent(s: string, p: string)
    requires |p| > 0
    requires !Occurs(s, p)
    ensures Erase(s, p) == s
    decreases |s|
  {
    if |s| > 0 {
      assert !(p <= s) by {
        if p <= s {
          assert OccursAt(s, p, 0);
        }
      }
      forall k | 0 <= k <= |s[1..]| && OccursAt(s[1..], p, k)
        ensures false
      {
        assert s[1..][k..k + |p|] == s[k + 1..k + 1 + |p|];
        assert OccursAt(s, p, k + 1);
      }
      EraseAbsent(s[1..], p);
      assert s == [s[0]] + s[1..];
    }
  }

  /** With an occurrence of the pattern, erasure makes the text strictly shorter. */
  lemma {:induction false} EraseShrinks(s: string, p: string)
    requires |p| > 0
    requires Occurs(s, p)
    ensures |Erase(s, p)| < |s|
    decreases |s|
  {
    var k :| 0 <= k <= |s| && OccursAt(s, p, k);
    assert 0 <= k && k + |p| <= |s| && s[k..k + |p|] == p;
    if p <= s {
      SubsequenceLength(Erase(s[|p|..], p), s[|p|..]);
    } else {
      assert k != 0;
      assert s[1..][k - 1..k - 1 + |p|] == s[k..k + |p|];
      assert OccursAt(s[1..], p, k - 1);
      EraseShrinks(s[1..], p);
    }
  }

  /* ---------------------------------------------------------------------- */
  /* Decimal rendering of non-negative integers                              */
  /* ---------------------------------------------------------------------- */

  const Digits: string := "0123456789"

  predicate IsDigit(c: char) {
    '0' <= c <= '9'
  }

  function DigitValue(c: char): (d: nat)
    requires IsDigit(c)
    ensures d < 10
  {
    (c - '0') as nat
  }

  predicate AllDigits(s: string) {
    forall k :: 0 <= k < |s| ==> IsDigit(s[k])
  }

  /** The invariant-culture rendering of `n`: most significant digit first, no sign, no grouping. */
  function Decimal(n: nat): (r: string)
    ensures |r| > 0
    ensures AllDigits(r)
    ensures r[0] == '0' <==> n == 0
    decreases n
  {
    if n < 10 then [Digits[n]]
    else Decimal(n / 10) + [Digits[n % 10]]
  }

  /** The number a string of decimal digits denotes. */
  function ValueOf(s: string): nat
    requires AllDigits(s)
    decreases |s|
  {
    if |s| == 0 then 0
    else ValueOf(s[..|s| - 1]) * 10 + DigitValue(s[|s| - 1])
  }

  lemma {:induction false} DecimalRoundTrip(n: nat)
    ensures ValueOf(Decimal(n)) == n
    decreases n
  {
    if n >= 10 {
      DecimalRoundTrip(n / 10);
      var r := Decimal(n);
      assert r[..|r| - 1] == Decimal(n / 10);
    }
  }

  lemma DecimalInjective(a: nat, b: nat)
    requires Decimal(a) == Decimal(b)
    ensures a == b
  {
    DecimalRoundTrip(a);
    DecimalRoundTrip(b);
  }
}
