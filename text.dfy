/** String comparisons used by the bootstrap: ordinal ordering (StringComparer.Ordinal)
    and case-insensitive equality and suffix tests (StringComparison.OrdinalIgnoreCase),
    the latter restricted to ASCII letters. */
module Text {

  /** Upper-cases an ASCII letter and leaves every other character alone. */
  function ToUpper(c: char): (u: char)
    ensures 'a' <= c <= 'z' ==> u as int == c as int - 32
    ensures !('a' <= c <= 'z') ==> u == c
  {
    if 'a' <= c <= 'z' then (c as int - 32) as char else c
  }

  /** The case-folded form of a string: the key under which a case-insensitive
      dictionary or set files it. */
  function Fold(s: string): (r: string)
    ensures |r| == |s|
    ensures forall i :: 0 <= i < |s| ==> r[i] == ToUpper(s[i])
  {
    if s == [] then [] else [ToUpper(s[0])] + Fold(s[1..])
  }

  lemma {:induction false} FoldIdempotent(s: string)
    ensures Fold(Fold(s)) == Fold(s)
  {
    if s != [] {
      FoldIdempotent(s[1..]);
      assert Fold(s)[1..] == Fold(s[1..]);
    }
  }

  /** String.Equals(a, b, StringComparison.OrdinalIgnoreCase), character by character. */
  predicate EqualsIgnoreCase(a: string, b: string) {
    |a| == |b| && forall i :: 0 <= i < |a| ==> ToUpper(a[i]) == ToUpper(b[i])
  }

  /** Two strings are equal ignoring case exactly when they fold to the same key. */
  lemma EqualsIgnoreCaseIsSameFold(a: string, b: string)
    ensures EqualsIgnoreCase(a, b) <==> Fold(a) == Fold(b)
  {
    if Fold(a) == Fold(b) {
      assert forall i :: 0 <= i < |a| ==> Fold(a)[i] == Fold(b)[i];
    }
  }

  /** String.EndsWith(suffix, StringComparison.OrdinalIgnoreCase). */
  predicate EndsWithIgnoreCase(s: string, suffix: string) {
    |suffix| <= |s| && EqualsIgnoreCase(s[|s| - |suffix|..], suffix)
  }

  /** Ordinal "strictly less than" on strings, comparing `char` by `char`; a proper
      prefix sorts first. */
  predicate OrdinalLess(a: string, b: string) {
    if a == [] then b != []
    else if b == [] then false
    else a[0] < b[0] || (a[0] == b[0] && OrdinalLess(a[1..], b[1..]))
  }

  lemma {:induction false} OrdinalLessIrreflexive(a: string)
    ensures !OrdinalLess(a, a)
  {
    if a != [] {
      OrdinalLessIrreflexive(a[1..]);
    }
  }

  lemma {:induction false} OrdinalLessTransitive(a: string, b: string, c: string)
    requires OrdinalLess(a, b) && OrdinalLess(b, c)
    ensures OrdinalLess(a, c)
  {
    if a != [] && b != [] && c != [] && a[0] == b[0] && b[0] == c[0] {
      OrdinalLessTransitive(a[1..], b[1..], c[1..]);
    }
  }

  /** A shared prefix does not change the order. */
  lemma {:induction false} OrdinalLessCommonPrefix(p: string, a: string, b: string)
    requires OrdinalLess(a, b)
    ensures OrdinalLess(p + a, p + b)
  {
    if p != [] {
      assert (p + a)[1..] == p[1..] + a && (p + b)[1..] == p[1..] + b;
      OrdinalLessCommonPrefix(p[1..], a, b);
    } else {
      assert p + a == a && p + b == b;
    }
  }

  /** Any two distinct strings are ordered one way or the other, and never both ways. */
  lemma {:induction false} OrdinalLessTotal(a: string, b: string)
    ensures a == b <==> !OrdinalLess(a, b) && !OrdinalLess(b, a)
    ensures !(OrdinalLess(a, b) && OrdinalLess(b, a))
  {
    if a != [] && b != [] {
      OrdinalLessTotal(a[1..], b[1..]);
      if a[0] == b[0] && a[1..] == b[1..] {
        assert a == [a[0]] + a[1..] && b == [b[0]] + b[1..];
      }
    }
  }
}
