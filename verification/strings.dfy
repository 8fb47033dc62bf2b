/**
  Ordering and affix predicates on strings. Rust compares `str` values byte by
  byte on their UTF-8 encoding, which orders them exactly as their code-point
  sequences are ordered lexicographically; Dafny's `char` comparison is
  code-point comparison, so `LexLess` below is that order.
 */
module Strings {

  /** Rust's `std::cmp::Ordering`. */
  datatype Ordering = Less | Equal | Greater

  /** Strict lexicographic order: the first differing character decides, and a proper prefix sorts first. */
  predicate LexLess(a: string, b: string)
  {
    if |a| == 0 then |b| > 0
    else if |b| == 0 then false
    else a[0] < b[0] || (a[0] == b[0] && LexLess(a[1..], b[1..]))
  }

  /** Independent description of the same order: `a` is a proper prefix of `b`, or
      the two agree up to some position where `a` has the smaller character. */
  ghost predicate LexLessSpec(a: string, b: string)
  {
    (|a| < |b| && a == b[..|a|])
    || (exists k :: 0 <= k < |a| && k < |b| && a[..k] == b[..k] && a[k] < b[k])
  }

  /** `a.cmp(b)` on `str`: a three-way comparison consistent with `LexLess` and equality. */
  function Cmp(a: string, b: string): (o: Ordering)
    ensures o == Equal <==> a == b
    ensures o == Less <==> LexLess(a, b)
    ensures o == Greater <==> LexLess(b, a)
  {
    if |a| == 0 then (if |b| == 0 then Equal else Less)
    else if |b| == 0 then Greater
    else if a[0] < b[0] then Less
    else if b[0] < a[0] then Greater
    else
      assert a == [a[0]] + a[1..] && b == [b[0]] + b[1..];
      Cmp(a[1..], b[1..])
  }

  predicate IsPrefix(p: string, s: string)
  {
    |p| <= |s| && s[..|p|] == p
  }

  predicate EndsWith(s: string, suffix: string)
  {
    |suffix| <= |s| && s[|s| - |suffix|..] == suffix
  }

  lemma ConcatAssoc(a: string, b: string, c: string)
    ensures a + b + c == a + (b + c)
  {
  }

  lemma EndsWithAppend(a: string, b: string)
    ensures EndsWith(a + b, b)
  {
    assert (a + b)[|a + b| - |b|..] == b;
  }

  lemma EndsWithTransitive(s: string, t: string, u: string)
    requires EndsWith(s, t) && EndsWith(t, u)
    ensures EndsWith(s, u)
  {
    assert s[|s| - |u|..] == s[|s| - |t|..][|t| - |u|..];
  }

  lemma {:induction false} LexLessMatchesSpec(a: string, b: string)
    ensures LexLess(a, b) <==> LexLessSpec(a, b)
    decreases |a|
  {
    if |a| == 0 {
      if |b| > 0 {
        assert a == b[..|a|];
      }
    } else if |b| == 0 {
    } else if a[0] < b[0] {
      assert a[..0] == b[..0];
    } else if b[0] < a[0] {
    } else {
      var a', b' := a[1..], b[1..];
      LexLessMatchesSpec(a', b');
      if LexLessSpec(a', b') {
        if |a'| < |b'| && a' == b'[..|a'|] {
          assert a == [a[0]] + a' && b[..|a|] == [b[0]] + b'[..|a'|];
        } else {
          var k :| 0 <= k < |a'| && k < |b'| && a'[..k] == b'[..k] && a'[k] < b'[k];
          assert a[..k + 1] == [a[0]] + a'[..k] && b[..k + 1] == [b[0]] + b'[..k];
          assert a[k + 1] == a'[k] && b[k + 1] == b'[k];
        }
      }
      if LexLessSpec(a, b) {
        if |a| < |b| && a == b[..|a|] {
          assert a' == a[1..] == b[..|a|][1..] == b'[..|a'|];
        } else {
          var k :| 0 <= k < |a| && k < |b| && a[..k] == b[..k] && a[k] < b[k];
          assert k != 0;
          assert a'[..k - 1] == a[..k][1..] && b'[..k - 1] == b[..k][1..];
          assert a'[k - 1] == a[k] && b'[k - 1] == b[k];
        }
      }
    }
  }

  lemma {:induction false} LexLessIrreflexive(a: string)
    ensures !LexLess(a, a)
    decreases |a|
  {
    if |a| > 0 {
      LexLessIrreflexive(a[1..]);
    }
  }

  lemma {:induction false} LexLessTransitive(a: string, b: string, c: string)
    requires LexLess(a, b) && LexLess(b, c)
    ensures LexLess(a, c)
    decreases |a|
  {
    if |a| > 0 && a[0] == b[0] && b[0] == c[0] {
      LexLessTransitive(a[1..], b[1..], c[1..]);
    }
  }

  /** Exactly one of `a < b`, `a == b`, `b < a` holds. */
  lemma LexTrichotomy(a: string, b: string)
    ensures LexLess(a, b) || a == b || LexLess(b, a)
    ensures !(LexLess(a, b) && LexLess(b, a))
    ensures LexLess(a, b) ==> a != b
  {
    var _ := Cmp(a, b);
  }
}
