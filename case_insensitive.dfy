/**
 * `strcmpci`, the case-insensitive string comparison used for extensions,
 * paths and command words: a less-than for ordered containers and two
 * equality tests, one against a string and one against a NUL-terminated
 * character array.  Characters are lowered with the "C" locale `tolower`.
 */
module CaseInsensitive {
  import opened Types

  /** `tolower` in the "C" locale: only 'A' to 'Z' change. */
  function ToLower(c: char): (r: char)
    ensures 'A' <= c <= 'Z' ==> r as int == c as int + 32
    ensures !('A' <= c <= 'Z') ==> r == c
  {
    if 'A' <= c <= 'Z' then (c as int + 32) as char else c
  }

  /** The string with every character lowered. */
  function Lowered(s: string): (r: string)
    ensures |r| == |s| && forall i | 0 <= i < |s| :: r[i] == ToLower(s[i])
  {
    seq(|s|, i requires 0 <= i < |s| => ToLower(s[i]))
  }

  /** Lexicographic order: the first differing character decides, else the shorter is less. */
  predicate LexLess(a: string, b: string)
  {
    if a == [] then b != []
    else if b == [] then false
    else a[0] < b[0] || (a[0] == b[0] && LexLess(a[1..], b[1..]))
  }

  /** The comparison loop of `operator()` from index `i` on. */
  function LessFrom(a: string, b: string, i: nat): bool
    requires i <= |a| && i <= |b|
    decreases Min(|a|, |b|) - i
  {
    if i == Min(|a|, |b|) then |a| < |b|
    else
      var ac := ToLower(a[i]);
      var bc := ToLower(b[i]);
      if ac < bc then true
      else if ac > bc then false
      else LessFrom(a, b, i + 1)
  }

  lemma {:induction false} LessFromIsLex(a: string, b: string, i: nat)
    requires i <= |a| && i <= |b|
    ensures LessFrom(a, b, i) == LexLess(Lowered(a)[i..], Lowered(b)[i..])
    decreases Min(|a|, |b|) - i
  {
    var la, lb := Lowered(a)[i..], Lowered(b)[i..];
    if i < Min(|a|, |b|) {
      LessFromIsLex(a, b, i + 1);
      assert la[1..] == Lowered(a)[i + 1..] && lb[1..] == Lowered(b)[i + 1..];
    }
  }

  /** `operator()(a, b)`: case-insensitive lexicographic less-than. */
  function Less(a: string, b: string): (r: bool)
    ensures r == LexLess(Lowered(a), Lowered(b))
  {
    LessFromIsLex(a, b, 0);
    assert Lowered(a)[0..] == Lowered(a) && Lowered(b)[0..] == Lowered(b);
    LessFrom(a, b, 0)
  }

  /** The backward loop of `equal`: indices below `i` still to be compared. */
  function EqualBelow(a: string, b: string, i: nat): (r: bool)
    requires i <= |a| == |b|
    ensures r <==> Lowered(a)[..i] == Lowered(b)[..i]
  {
    if i == 0 then true
    else
      assert Lowered(a)[..i] == Lowered(a)[..i - 1] + [ToLower(a[i - 1])];
      assert Lowered(b)[..i] == Lowered(b)[..i - 1] + [ToLower(b[i - 1])];
      ToLower(a[i - 1]) == ToLower(b[i - 1]) && EqualBelow(a, b, i - 1)
  }

  /** `equal(a, b)`: same length and the same character at every index once lowered. */
  function Equal(a: string, b: string): (r: bool)
    ensures r <==> |a| == |b| && forall i | 0 <= i < |a| :: ToLower(a[i]) == ToLower(b[i])
    ensures r <==> Lowered(a) == Lowered(b)
  {
    if |a| != |b| then false
    else
      var r := EqualBelow(a, b, |a|);
      assert Lowered(a)[..|a|] == Lowered(a) && Lowered(b)[..|b|] == Lowered(b);
      assert r <==> forall i | 0 <= i < |a| :: Lowered(a)[i] == Lowered(b)[i];
      r
  }

  /** The length of a NUL-terminated array: the index of its first NUL. */
  function CStrLen(b: seq<char>, from: nat): (n: nat)
    requires from <= |b| && exists k | from <= k < |b| :: b[k] == '\0'
    ensures from <= n < |b| && b[n] == '\0' && forall k | from <= k < n :: b[k] != '\0'
    decreases |b| - from
  {
    if b[from] == '\0' then from else CStrLen(b, from + 1)
  }

  /** The static `equal(a, b)` against the characters of `b` before its first NUL. */
  function EqualCStr(a: string, b: seq<char>): (r: bool)
    requires '\0' in b
    ensures r <==> Lowered(a) == Lowered(b[..CStrLen(b, 0)])
  {
    var bn := CStrLen(b, 0);
    if |a| != bn then false
    else Equal(a, b[..bn])
  }

  /** For a string without NUL, the two overloads of `equal` agree. */
  lemma EqualCStrAgrees(a: string, s: string)
    requires forall k | 0 <= k < |s| :: s[k] != '\0'
    ensures EqualCStr(a, s + ['\0']) == Equal(a, s)
  {
    var b := s + ['\0'];
    assert b[|s|] == '\0';
    assert CStrLen(b, 0) == |s|;
    assert b[..|s|] == s;
  }

  lemma {:induction false} LexLessIrreflexive(s: string)
    ensures !LexLess(s, s)
  {
    if s != [] {
      LexLessIrreflexive(s[1..]);
    }
  }

  lemma {:induction false} LexLessTransitive(a: string, b: string, c: string)
    requires LexLess(a, b) && LexLess(b, c)
    ensures LexLess(a, c)
  {
    if a != [] && b != [] && c != [] && a[0] == b[0] == c[0] {
      LexLessTransitive(a[1..], b[1..], c[1..]);
    }
  }

  /** Two different strings are ordered one way or the other. */
  lemma {:induction false} LexLessTotal(a: string, b: string)
    requires a != b
    ensures LexLess(a, b) || LexLess(b, a)
  {
    if a != [] && b != [] && a[0] == b[0] {
      assert a == [a[0]] + a[1..] && b == [b[0]] + b[1..];
      LexLessTotal(a[1..], b[1..]);
    }
  }

  /**
   * Equivalence under `operator()`, which is how an ordered set with this
   * comparator finds a key, is exactly `equal`.
   */
  lemma EquivalentIsEqual(a: string, b: string)
    ensures !Less(a, b) && !Less(b, a) <==> Equal(a, b)
  {
    if Lowered(a) != Lowered(b) {
      LexLessTotal(Lowered(a), Lowered(b));
    } else {
      LexLessIrreflexive(Lowered(a));
    }
  }

  /** No string is less than itself, whatever its case. */
  lemma LessIrreflexive(a: string)
    ensures !Less(a, a)
  {
    LexLessIrreflexive(Lowered(a));
  }

  lemma LessTransitive(a: string, b: string, c: string)
    requires Less(a, b) && Less(b, c)
    ensures Less(a, c)
  {
    LexLessTransitive(Lowered(a), Lowered(b), Lowered(c));
  }

  /** Strings that are equal ignoring case are not ordered either way. */
  lemma EqualNotLess(a: string, b: string)
    requires Equal(a, b)
    ensures !Less(a, b) && !Less(b, a)
  {
    LexLessIrreflexive(Lowered(a));
  }

  lemma EqualReflexiveSymmetric(a: string, b: string)
    ensures Equal(a, a)
    ensures Equal(a, b) == Equal(b, a)
  {
  }

  /**
   * The order decides by the first index where the lowered strings differ;
   * with no such index the shorter string is less.
   */
  lemma {:induction false} LexLessFirstDifference(a: string, b: string, k: nat)
    requires k <= |a| && k <= |b| && a[..k] == b[..k]
    ensures k < |a| && k < |b| && a[k] != b[k] ==> (LexLess(a, b) <==> a[k] < b[k])
    ensures k == |a| || k == |b| ==> (LexLess(a, b) <==> |a| < |b|)
    decreases k
  {
    if k > 0 {
      assert a[0] == a[..k][0] == b[..k][0] == b[0];
      assert a[1..][..k - 1] == a[1..k] == a[..k][1..];
      assert b[1..][..k - 1] == b[1..k] == b[..k][1..];
      LexLessFirstDifference(a[1..], b[1..], k - 1);
    }
  }
}
