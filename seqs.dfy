/** Small facts about sequences used by several proofs. */
module Seqs {

  /** Appending one element after a concatenation. */
  lemma AppendSnoc<T>(a: seq<T>, b: seq<T>, x: T)
    ensures a + (b + [x]) == (a + b) + [x]
  {
  }

  lemma AppendAssociates<T>(a: seq<T>, b: seq<T>, c: seq<T>)
    ensures a + b + c == a + (b + c)
  {
  }

  /** The third of four concatenated pieces, cut out again. */
  lemma SliceOfConcat<T>(w: seq<T>, x: seq<T>, y: seq<T>, z: seq<T>)
    ensures |w| + |x| + |y| <= |w + x + y + z|
    ensures (w + x + y + z)[|w| + |x|..|w| + |x| + |y|] == y
  {
  }

  /** A prefix one longer is the prefix with the next element appended. */
  lemma TakeSnoc<T>(s: seq<T>, i: nat)
    requires i < |s|
    ensures s[..i + 1] == s[..i] + [s[i]]
  {
  }

  /** A slice past a new head element. */
  lemma SliceAfterHead<T>(x: T, w: seq<T>, lo: nat, hi: nat, piece: seq<T>)
    requires lo <= hi <= |w| && w[lo..hi] == piece
    ensures 1 + hi <= |[x] + w| && ([x] + w)[1 + lo..1 + hi] == piece
  {
  }

  /** No element occurs twice. */
  ghost predicate NoDuplicates<T>(s: seq<T>) {
    forall i, j :: 0 <= i < j < |s| ==> s[i] != s[j]
  }

  lemma NoDuplicatesAppend<T>(a: seq<T>, b: seq<T>)
    requires NoDuplicates(a) && NoDuplicates(b)
    requires forall x :: x in a ==> x !in b
    ensures NoDuplicates(a + b)
  {
    forall i, j | 0 <= i < j < |a + b| ensures (a + b)[i] != (a + b)[j] {
      if j >= |a| && i < |a| {
        assert (a + b)[i] in a && (a + b)[j] in b;
      }
    }
  }

  /** Both halves of a sequence without repeats are without repeats, and share nothing. */
  lemma NoDuplicatesSplit<T>(a: seq<T>, b: seq<T>)
    requires NoDuplicates(a + b)
    ensures NoDuplicates(a) && NoDuplicates(b)
    ensures forall x :: x in a ==> x !in b
  {
    forall i, j | 0 <= i < j < |a| ensures a[i] != a[j] {
      assert a[i] == (a + b)[i] && a[j] == (a + b)[j];
    }
    forall i, j | 0 <= i < j < |b| ensures b[i] != b[j] {
      assert b[i] == (a + b)[|a| + i] && b[j] == (a + b)[|a| + j];
    }
    forall i, j | 0 <= i < |a| && 0 <= j < |b| ensures a[i] != b[j] {
      assert a[i] == (a + b)[i] && b[j] == (a + b)[|a| + j];
    }
  }

  /** The elements of a sequence, as a set. */
  ghost function Elems<T>(s: seq<T>): set<T> {
    set x | x in s
  }

  lemma ElemsAppend<T>(a: seq<T>, b: seq<T>)
    ensures Elems(a + b) == Elems(a) + Elems(b)
  {
  }

  /** Without repeats, a sequence has as many elements as its set. */
  lemma {:induction false} ElemsSize<T>(xs: seq<T>)
    requires NoDuplicates(xs)
    ensures |Elems(xs)| == |xs|
    decreases |xs|
  {
    if xs != [] {
      var rest := xs[1..];
      forall i, j | 0 <= i < j < |rest| ensures rest[i] != rest[j] {
        assert rest[i] == xs[i + 1] && rest[j] == xs[j + 1];
      }
      ElemsSize(rest);
      assert xs == [xs[0]] + rest;
      assert Elems(xs) == {xs[0]} + Elems(rest);
      forall k | 0 <= k < |rest| ensures rest[k] != xs[0] {
        assert rest[k] == xs[k + 1];
      }
    }
  }
}
