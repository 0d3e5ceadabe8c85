/** AssemblyPartDiscoveryProvider: flattens the discovery tree into the order in which parts
    are configured, and drives the configure operations over that order.

    The walk is a pre-order over a snapshot of the tree: a node, then each of its additional
    parts' subtrees, siblings taken by descending score (the size of their subtree) and then
    by ordinal name, ties kept in insertion order; repeats of an assembly are then dropped,
    the first occurrence kept. */
module DiscoveryProvider {
  import opened Outcomes
  import opened Text
  import opened Seqs
  import opened ConfigureAttribute
  import opened Assemblies
  import opened PartManager
  import opened DiscoveryModel
  import opened ConfigureOperations
  import opened MvcSandbox

  // ---------------------------------------------------------------------------------------
  // Scores and the sibling order.

  /** GetScore: one for the node plus the scores of its additional parts; a part listed by
      two parents counts under each. */
  function Score(s: Shape): (r: nat)
    ensures r >= 1
    decreases s
  {
    1 + ForestScore(s.parts)
  }

  function ForestScore(parts: seq<Shape>): (r: nat)
    ensures r >= |parts|
    decreases parts
  {
    if parts == [] then 0 else Score(parts[0]) + ForestScore(parts[1..])
  }

  /** The comparer followed by ThenBy: `a` goes strictly before `b` when its score is higher,
      or the scores tie and its name is ordinally smaller. */
  predicate Before(a: Shape, b: Shape) {
    Score(a) > Score(b) || (Score(a) == Score(b) && OrdinalLess(a.model.name, b.model.name))
  }

  /** Neither goes before the other: same score, same name. */
  predicate SameKey(a: Shape, b: Shape) {
    Score(a) == Score(b) && a.model.name == b.model.name
  }

  /** Before is a strict order, and any two siblings are ordered or share a key. */
  lemma BeforeIsStrictTotal(a: Shape, b: Shape, c: Shape)
    ensures !Before(a, a)
    ensures Before(a, b) ==> !Before(b, a) && !SameKey(a, b)
    ensures Before(a, b) && Before(b, c) ==> Before(a, c)
    ensures Before(a, b) || Before(b, a) || SameKey(a, b)
  {
    OrdinalLessIrreflexive(a.model.name);
    OrdinalLessTotal(a.model.name, b.model.name);
    if Before(a, b) && Before(b, c) && Score(a) == Score(c) {
      OrdinalLessTransitive(a.model.name, b.model.name, c.model.name);
    }
  }

  /** "Not strictly before" chains: the order is a total preorder. */
  lemma NotBeforeTransitive(a: Shape, b: Shape, c: Shape)
    requires !Before(a, b) && !Before(b, c)
    ensures !Before(a, c)
  {
    var x, y, z := a.model.name, b.model.name, c.model.name;
    if Score(a) == Score(b) && Score(b) == Score(c) {
      OrdinalLessTotal(x, y);
      OrdinalLessTotal(y, z);
      OrdinalLessTotal(x, z);
      if OrdinalLess(y, x) && OrdinalLess(z, y) {
        OrdinalLessTransitive(z, y, x);
      }
    }
  }

  /** Inserts `x` ahead of the first element that does not go strictly before it. */
  function Insert(x: Shape, ys: seq<Shape>): (r: seq<Shape>)
    ensures |r| == |ys| + 1
  {
    if ys == [] then [x]
    else if Before(ys[0], x) then [ys[0]] + Insert(x, ys[1..])
    else [x] + ys
  }

  /** OrderByDescending(score).ThenBy(name): a stable insertion sort. */
  function SortParts(parts: seq<Shape>): (r: seq<Shape>)
    ensures |r| == |parts|
  {
    if parts == [] then [] else Insert(parts[0], SortParts(parts[1..]))
  }

  /** No element goes strictly before an earlier one. */
  ghost predicate Ordered(parts: seq<Shape>) {
    forall i, j :: 0 <= i < j < |parts| ==> !Before(parts[j], parts[i])
  }

  lemma {:induction false} InsertMultiset(x: Shape, ys: seq<Shape>)
    ensures multiset(Insert(x, ys)) == multiset(ys) + multiset{x}
  {
    if ys != [] && Before(ys[0], x) {
      InsertMultiset(x, ys[1..]);
      assert ys == [ys[0]] + ys[1..];
    }
  }

  lemma {:induction false} InsertOrdered(x: Shape, ys: seq<Shape>)
    requires Ordered(ys)
    ensures Ordered(Insert(x, ys))
  {
    var r := Insert(x, ys);
    if ys == [] {
    } else if Before(ys[0], x) {
      InsertOrdered(x, ys[1..]);
      InsertMultiset(x, ys[1..]);
      forall j | 0 < j < |r| ensures !Before(r[j], r[0]) {
        var e := r[j];
        assert e in multiset(Insert(x, ys[1..]));
        if e == x {
          BeforeIsStrictTotal(ys[0], x, x);
        } else {
          assert e in ys[1..];
          var k :| 0 <= k < |ys[1..]| && ys[1..][k] == e;
          assert ys[k + 1] == e;
        }
      }
    } else {
      forall j | 0 < j < |r| ensures !Before(r[j], x) {
        var e := ys[j - 1];
        assert r[j] == e;
        if j - 1 > 0 {
          NotBeforeTransitive(e, ys[0], x);
        }
      }
    }
  }

  /** The sort orders siblings by descending score, then ordinal name. */
  lemma {:induction false} SortPartsOrdered(parts: seq<Shape>)
    ensures Ordered(SortParts(parts))
  {
    if parts != [] {
      SortPartsOrdered(parts[1..]);
      InsertOrdered(parts[0], SortParts(parts[1..]));
    }
  }

  /** The sort is a permutation of the siblings. */
  lemma {:induction false} SortPartsPermutes(parts: seq<Shape>)
    ensures multiset(SortParts(parts)) == multiset(parts)
  {
    if parts != [] {
      SortPartsPermutes(parts[1..]);
      InsertMultiset(parts[0], SortParts(parts[1..]));
      assert parts == [parts[0]] + parts[1..];
    }
  }

  /** The siblings sharing a sort key `(score, name)`, in order. */
  function WithKey(parts: seq<Shape>, score: nat, name: string): (r: seq<Shape>)
    ensures |r| <= |parts|
  {
    if parts == [] then []
    else
      var rest := WithKey(parts[1..], score, name);
      if Score(parts[0]) == score && parts[0].model.name == name then [parts[0]] + rest else rest
  }

  lemma {:induction false} InsertWithKey(x: Shape, ys: seq<Shape>, score: nat, name: string)
    ensures WithKey(Insert(x, ys), score, name)
         == (if Score(x) == score && x.model.name == name then [x] else []) + WithKey(ys, score, name)
  {
    if ys != [] && Before(ys[0], x) {
      InsertWithKey(x, ys[1..], score, name);
      BeforeIsStrictTotal(ys[0], x, x);
      assert [ys[0]] + Insert(x, ys[1..]) == Insert(x, ys);
      assert ([ys[0]] + Insert(x, ys[1..]))[1..] == Insert(x, ys[1..]);
    } else if ys != [] {
      assert ([x] + ys)[1..] == ys;
    }
  }

  /** The sort is stable: siblings with the same score and name keep their insertion
      order. */
  lemma {:induction false} SortPartsStable(parts: seq<Shape>, score: nat, name: string)
    ensures WithKey(SortParts(parts), score, name) == WithKey(parts, score, name)
  {
    if parts != [] {
      SortPartsStable(parts[1..], score, name);
      InsertWithKey(parts[0], SortParts(parts[1..]), score, name);
    }
  }

  lemma {:induction false} InsertScore(x: Shape, ys: seq<Shape>)
    ensures ForestScore(Insert(x, ys)) == Score(x) + ForestScore(ys)
  {
    if ys != [] && Before(ys[0], x) {
      InsertScore(x, ys[1..]);
      assert (Insert(x, ys))[1..] == Insert(x, ys[1..]);
    } else if ys != [] {
      assert ([x] + ys)[1..] == ys;
    }
  }

  lemma {:induction false} SortPartsScore(parts: seq<Shape>)
    ensures ForestScore(SortParts(parts)) == ForestScore(parts)
  {
    if parts != [] {
      SortPartsScore(parts[1..]);
      InsertScore(parts[0], SortParts(parts[1..]));
    }
  }

  // ---------------------------------------------------------------------------------------
  // The walk.

  /** EnumerateModel: the node, then the subtree of each additional part in sibling order.
      Each node of the snapshot is emitted once, so the walk is as long as the score. */
  function Enumerate(s: Shape): (r: seq<PartModel>)
    ensures |r| == Score(s) && r[0] == s.model
    decreases Score(s), 1
  {
    SortPartsScore(s.parts);
    [s.model] + EnumerateAll(SortParts(s.parts))
  }

  function EnumerateAll(parts: seq<Shape>): (r: seq<PartModel>)
    ensures |r| == ForestScore(parts)
    decreases ForestScore(parts), 2
  {
    if parts == [] then [] else Enumerate(parts[0]) + EnumerateAll(parts[1..])
  }

  /** The assemblies of some nodes, in order. `ChildAssemblies` and `Roots` are the same
      projection over snapshots and outlines, which share no common type with nodes. */
  function AssembliesOf(models: seq<PartModel>): (r: seq<AssemblyId>)
    ensures |r| == |models|
    ensures forall i :: 0 <= i < |models| ==> r[i] == models[i].assembly
  {
    seq(|models|, i requires 0 <= i < |models| => models[i].assembly)
  }

  lemma AssembliesOfAppend(a: seq<PartModel>, b: seq<PartModel>)
    ensures AssembliesOf(a + b) == AssembliesOf(a) + AssembliesOf(b)
  {
  }

  lemma {:induction false} InsertForestOrder(x: Shape, ys: seq<Shape>)
    ensures multiset(ForestOrder(Insert(x, ys))) == multiset(PreOrder(x)) + multiset(ForestOrder(ys))
  {
    if ys != [] && Before(ys[0], x) {
      InsertForestOrder(x, ys[1..]);
      assert (Insert(x, ys))[1..] == Insert(x, ys[1..]);
    } else if ys != [] {
      assert ([x] + ys)[1..] == ys;
    }
  }

  lemma {:induction false} SortPartsForestOrder(parts: seq<Shape>)
    ensures multiset(ForestOrder(SortParts(parts))) == multiset(ForestOrder(parts))
  {
    if parts != [] {
      SortPartsForestOrder(parts[1..]);
      InsertForestOrder(parts[0], SortParts(parts[1..]));
    }
  }

  /** Sorting siblings only permutes: the walk emits the assemblies of the snapshot's
      pre-order, each as often as it occurs there. */
  lemma {:induction false} EnumeratePermutesPreOrder(s: Shape)
    ensures multiset(AssembliesOf(Enumerate(s))) == multiset(PreOrder(s))
    decreases Score(s), 1
  {
    var sorted := SortParts(s.parts);
    SortPartsScore(s.parts);
    EnumerateAllPermutesForestOrder(sorted);
    SortPartsForestOrder(s.parts);
    var rest := EnumerateAll(sorted);
    assert Enumerate(s) == [s.model] + rest;
    AssembliesOfAppend([s.model], rest);
    assert AssembliesOf([s.model]) == [s.model.assembly];
    assert PreOrder(s) == [s.model.assembly] + ForestOrder(s.parts);
  }

  lemma {:induction false} EnumerateAllPermutesForestOrder(parts: seq<Shape>)
    ensures multiset(AssembliesOf(EnumerateAll(parts))) == multiset(ForestOrder(parts))
    decreases ForestScore(parts), 2
  {
    if parts != [] {
      EnumeratePermutesPreOrder(parts[0]);
      EnumerateAllPermutesForestOrder(parts[1..]);
      AssembliesOfAppend(Enumerate(parts[0]), EnumerateAll(parts[1..]));
    }
  }

  lemma {:induction false} EnumerateAllAppend(a: seq<Shape>, b: seq<Shape>)
    ensures EnumerateAll(a + b) == EnumerateAll(a) + EnumerateAll(b)
  {
    if a == [] {
      assert a + b == b;
    } else {
      assert (a + b)[1..] == a[1..] + b;
      EnumerateAllAppend(a[1..], b);
    }
  }

  lemma {:induction false} ForestSubtreeContiguous(parts: seq<Shape>, i: nat)
    requires i < |parts|
    ensures var start := ForestScore(parts[..i]);
      && start + Score(parts[i]) <= |EnumerateAll(parts)|
      && EnumerateAll(parts)[start..start + Score(parts[i])] == Enumerate(parts[i])
  {
    assert parts == parts[..i] + [parts[i]] + parts[i + 1..];
    EnumerateAllAppend(parts[..i] + [parts[i]], parts[i + 1..]);
    EnumerateAllAppend(parts[..i], [parts[i]]);
    assert [parts[i]][1..] == [];
    SliceOfConcat([], EnumerateAll(parts[..i]), Enumerate(parts[i]), EnumerateAll(parts[i + 1..]));
  }

  /** Before duplicates are dropped, the subtree of the `i`-th sibling in sibling order is
      emitted in one piece, right after the node and the subtrees of the siblings before
      it. */
  lemma {:induction false} SubtreeContiguous(s: Shape, i: nat)
    requires i < |s.parts|
    ensures var sorted := SortParts(s.parts);
      var start := 1 + ForestScore(sorted[..i]);
      && start + Score(sorted[i]) <= |Enumerate(s)|
      && Enumerate(s)[start..start + Score(sorted[i])] == Enumerate(sorted[i])
  {
    var sorted := SortParts(s.parts);
    var start, len := ForestScore(sorted[..i]), Score(sorted[i]);
    var rest := EnumerateAll(sorted);
    ForestSubtreeContiguous(sorted, i);
    assert Enumerate(s) == [s.model] + rest;
    SliceAfterHead(s.model, rest, start, start + len, Enumerate(sorted[i]));
  }

  // ---------------------------------------------------------------------------------------
  // Distinct.

  /** Distinct with the assemblies already seen: keeps a node when its assembly has not been
      seen, the node equality being assembly identity. */
  function DistinctFrom(models: seq<PartModel>, seen: set<AssemblyId>): (r: seq<PartModel>)
    ensures NoDuplicates(AssembliesOf(r))
    ensures forall a :: a in AssembliesOf(r) <==> a in AssembliesOf(models) && a !in seen
  {
    if models == [] then []
    else if models[0].assembly in seen then
      assert AssembliesOf(models[1..]) == AssembliesOf(models)[1..];
      DistinctFrom(models[1..], seen)
    else
      var rest := DistinctFrom(models[1..], seen + {models[0].assembly});
      assert AssembliesOf(models) == [models[0].assembly] + AssembliesOf(models[1..]);
      AssembliesOfAppend([models[0]], rest);
      assert AssembliesOf([models[0]]) == [models[0].assembly];
      NoDuplicatesAppend([models[0].assembly], AssembliesOf(rest));
      [models[0]] + rest
  }

  /** Enumerable.Distinct over nodes. */
  function Distinct(models: seq<PartModel>): (r: seq<PartModel>)
    ensures NoDuplicates(AssembliesOf(r))
    ensures forall a :: a in AssembliesOf(r) <==> a in AssembliesOf(models)
  {
    DistinctFrom(models, {})
  }

  /** The reference definition: a node survives exactly when no earlier node has its
      assembly. */
  function FirstOccurrences(models: seq<PartModel>): (r: seq<PartModel>)
    ensures |r| <= |models|
  {
    if models == [] then []
    else
      var init, last := models[..|models| - 1], models[|models| - 1];
      FirstOccurrences(init) + (if last.assembly in AssembliesOf(init) then [] else [last])
  }

  lemma {:induction false} DistinctFromSnoc(models: seq<PartModel>, x: PartModel, seen: set<AssemblyId>)
    ensures DistinctFrom(models + [x], seen)
         == DistinctFrom(models, seen) + (if x.assembly in seen || x.assembly in AssembliesOf(models) then [] else [x])
  {
    if models == [] {
      assert models + [x] == [x];
      assert [x][1..] == [];
    } else {
      assert (models + [x])[1..] == models[1..] + [x];
      assert AssembliesOf(models) == [models[0].assembly] + AssembliesOf(models[1..]);
      if models[0].assembly in seen {
        DistinctFromSnoc(models[1..], x, seen);
      } else {
        DistinctFromSnoc(models[1..], x, seen + {models[0].assembly});
      }
    }
  }

  /** Distinct keeps the first node of each assembly, in walk order, and nothing else. */
  lemma {:induction false} DistinctKeepsFirstOccurrences(models: seq<PartModel>)
    ensures Distinct(models) == FirstOccurrences(models)
    decreases |models|
  {
    if models != [] {
      var init, last := models[..|models| - 1], models[|models| - 1];
      assert models == init + [last];
      DistinctKeepsFirstOccurrences(init);
      DistinctFromSnoc(init, last, {});
    }
  }

  /** GetPartsInOrder on a snapshot: the walk without repeated assemblies. */
  function PartsInOrder(s: Shape): (r: seq<PartModel>)
    ensures r != [] && r[0] == s.model
    ensures NoDuplicates(AssembliesOf(r))
  {
    var walk := Enumerate(s);
    assert walk == [walk[0]] + walk[1..];
    Distinct(walk)
  }

  /** Every assembly of the tree is configured, and no other. */
  lemma {:induction false} PartsInOrderCovers(s: Shape)
    ensures forall a :: a in AssembliesOf(PartsInOrder(s)) <==> a in PreOrder(s)
  {
    EnumeratePermutesPreOrder(s);
    var walk := AssembliesOf(Enumerate(s));
    forall a ensures a in walk <==> a in PreOrder(s) {
      assert a in walk <==> a in multiset(walk);
      assert a in PreOrder(s) <==> a in multiset(PreOrder(s));
    }
  }

  /** GetPartsInOrder(entryModel): reads the live tree and changes no node. */
  method GetPartsInOrder(entryModel: PartModel, ghost s: Shape) returns (parts: seq<PartModel>)
    requires Describes(s) && s.model == entryModel
    ensures parts == PartsInOrder(s)
  {
    var t := Snapshot(entryModel, s);
    parts := PartsInOrder(t);
  }

  // ---------------------------------------------------------------------------------------
  // The provider's documented scenarios, on snapshots.

  lemma LeafWalk(m: PartModel)
    ensures Score(Shape(m, [])) == 1 && Enumerate(Shape(m, [])) == [m]
  {
  }

  lemma EnumerateAllCons(x: Shape, xs: seq<Shape>)
    ensures EnumerateAll([x] + xs) == Enumerate(x) + EnumerateAll(xs)
  {
    assert ([x] + xs)[1..] == xs;
  }

  /** Nodes whose assemblies were all seen are all dropped. */
  lemma {:induction false} DistinctFromAllSeen(models: seq<PartModel>, seen: set<AssemblyId>)
    requires forall i :: 0 <= i < |models| ==> models[i].assembly in seen
    ensures DistinctFrom(models, seen) == []
  {
    if models != [] {
      DistinctFromAllSeen(models[1..], seen);
    }
  }

  /** A walk that repeats nothing until it only repeats is cut back to its first part. */
  lemma {:induction false} DistinctFromKeepsFirstRun(first: seq<PartModel>, repeats: seq<PartModel>, seen: set<AssemblyId>)
    requires NoDuplicates(AssembliesOf(first))
    requires forall i :: 0 <= i < |first| ==> first[i].assembly !in seen
    requires forall i :: 0 <= i < |repeats| ==> repeats[i].assembly in seen || repeats[i].assembly in AssembliesOf(first)
    ensures DistinctFrom(first + repeats, seen) == first
  {
    if first == [] {
      assert first + repeats == repeats;
      DistinctFromAllSeen(repeats, seen);
    } else {
      var m := first[0];
      var seen' := seen + {m.assembly};
      assert AssembliesOf(first) == [m.assembly] + AssembliesOf(first[1..]);
      forall i | 0 <= i < |first[1..]|
        ensures first[1..][i].assembly !in seen'
      {
        assert AssembliesOf(first)[0] != AssembliesOf(first)[i + 1];
      }
      assert NoDuplicates(AssembliesOf(first[1..])) by {
        assert AssembliesOf(first[1..]) == AssembliesOf(first)[1..];
      }
      assert (first + repeats)[1..] == first[1..] + repeats;
      DistinctFromKeepsFirstRun(first[1..], repeats, seen');
    }
  }

  /** A node with no additional parts is configured alone. */
  lemma EntryPartAlone(root: PartModel)
    ensures PartsInOrder(Shape(root, [])) == [root]
  {
    LeafWalk(root);
    DistinctFromKeepsFirstRun([root], [], {});
    assert [root] + [] == [root];
  }

  /** Siblings of equal score are taken by name, not by the order they were added in. */
  lemma AdditionalPartsOrderedByName(root: PartModel, part1: PartModel, part2: PartModel)
    requires part1.name == "ClassLibrary1" && part2.name == "ClassLibrary2"
    requires root.assembly != part1.assembly && root.assembly != part2.assembly && part1.assembly != part2.assembly
    ensures PartsInOrder(Shape(root, [Shape(part2, []), Shape(part1, [])])) == [root, part1, part2]
  {
    var s1, s2 := Shape(part1, []), Shape(part2, []);
    LeafWalk(part1);
    LeafWalk(part2);
    assert OrdinalLess(part1.name, part2.name) by {
      assert part1.name == "ClassLibrary" + "1" && part2.name == "ClassLibrary" + "2";
      OrdinalLessCommonPrefix("ClassLibrary", "1", "2");
    }
    assert SortParts([s2, s1]) == [s1, s2] by {
      assert [s2, s1][1..] == [s1];
      assert [s1][1..] == [];
      assert Insert(s2, [s1]) == [s1] + Insert(s2, []);
    }
    EnumerateAllCons(s1, [s2]);
    EnumerateAllCons(s2, []);
    var walk := [root, part1, part2];
    assert Enumerate(Shape(root, [s2, s1])) == walk;
    DistinctFromKeepsFirstRun(walk, [], {});
    assert walk + [] == walk;
  }

  lemma SortOne(x: Shape)
    ensures SortParts([x]) == [x]
  {
    assert [x][1..] == [];
  }

  /** A node's additional parts follow it immediately, before its later siblings, and a
      part listed under two parents is configured once, where it is first reached. */
  lemma AdditionalPartsFollowTheirPart(root: PartModel, part1: PartModel, part2: PartModel, part3: PartModel)
    requires part1.name == "Library" && part2.name == "Library.EmbeddedFiles" && part3.name == "Library.Views"
    requires root.assembly != part1.assembly && root.assembly != part2.assembly && root.assembly != part3.assembly
    requires part1.assembly != part2.assembly && part1.assembly != part3.assembly && part2.assembly != part3.assembly
    ensures var s2, s3 := Shape(part2, []), Shape(part3, []);
      PartsInOrder(Shape(root, [s3, s2, Shape(part1, [s3, s2])])) == [root, part1, part2, part3]
  {
    var s2, s3 := Shape(part2, []), Shape(part3, []);
    var s := Shape(root, [s3, s2, Shape(part1, [s3, s2])]);
    var walk := [root, part1, part2, part3];
    FollowTheirPartWalk(root, part1, part2, part3);
    assert Enumerate(s) == walk + [part2, part3];
    assert AssembliesOf(walk) == [root.assembly, part1.assembly, part2.assembly, part3.assembly];
    DistinctFromKeepsFirstRun(walk, [part2, part3], {});
  }

  lemma FollowTheirPartWalk(root: PartModel, part1: PartModel, part2: PartModel, part3: PartModel)
    requires part1.name == "Library" && part2.name == "Library.EmbeddedFiles" && part3.name == "Library.Views"
    ensures var s2, s3 := Shape(part2, []), Shape(part3, []);
      Enumerate(Shape(root, [s3, s2, Shape(part1, [s3, s2])])) == [root, part1, part2, part3, part2, part3]
  {
    var s2, s3 := Shape(part2, []), Shape(part3, []);
    var s1 := Shape(part1, [s3, s2]);
    LeafWalk(part2);
    LeafWalk(part3);
    assert Before(s2, s3) by {
      assert part2.name == "Library." + "EmbeddedFiles" && part3.name == "Library." + "Views";
      OrdinalLessCommonPrefix("Library.", "EmbeddedFiles", "Views");
    }
    assert SortParts([s3, s2]) == [s2, s3] by {
      SortOne(s2);
      assert [s3, s2][1..] == [s2];
      assert Insert(s3, [s2]) == [s2] + Insert(s3, []);
    }
    assert EnumerateAll([s2, s3]) == [part2, part3] by {
      EnumerateAllCons(s2, [s3]);
      EnumerateAllCons(s3, []);
    }
    assert Enumerate(s1) == [part1, part2, part3] && Score(s1) == 3;
    assert SortParts([s3, s2, s1]) == [s1, s2, s3] by {
      SortOne(s1);
      assert [s3, s2, s1][1..] == [s2, s1] && [s2, s1][1..] == [s1];
      assert Insert(s2, [s1]) == [s1] + Insert(s2, []);
      assert Insert(s3, [s1, s2]) == [s1] + Insert(s3, [s2]);
      assert [s1, s2][1..] == [s2];
      assert Insert(s3, [s2]) == [s2] + Insert(s3, []);
    }
    EnumerateAllCons(s1, [s2, s3]);
  }

  /** Nesting is followed to any depth. */
  lemma DeeplyNestedParts(root: PartModel, part1: PartModel, part2: PartModel, part3: PartModel)
    requires root.assembly != part1.assembly && root.assembly != part2.assembly && root.assembly != part3.assembly
    requires part1.assembly != part2.assembly && part1.assembly != part3.assembly && part2.assembly != part3.assembly
    ensures PartsInOrder(Shape(root, [Shape(part1, [Shape(part2, [Shape(part3, [])])])])) == [root, part1, part2, part3]
  {
    var s3 := Shape(part3, []);
    var s2 := Shape(part2, [s3]);
    var s1 := Shape(part1, [s2]);
    LeafWalk(part3);
    SortOne(s3);
    SortOne(s2);
    SortOne(s1);
    EnumerateAllCons(s3, []);
    assert Enumerate(s2) == [part2, part3];
    EnumerateAllCons(s2, []);
    assert Enumerate(s1) == [part1, part2, part3];
    EnumerateAllCons(s1, []);
    var walk := [root, part1, part2, part3];
    assert Enumerate(Shape(root, [s1])) == walk;
    DistinctFromKeepsFirstRun(walk, [], {});
    assert walk + [] == walk;
  }

  /** An assembly reached twice is configured once, at its first position. */
  lemma AssemblyDiscoveredTwiceIgnored(root: PartModel, part1: PartModel, part2: PartModel)
    requires root.assembly != part1.assembly && root.assembly != part2.assembly && part1.assembly != part2.assembly
    ensures var s2 := Shape(part2, []);
      PartsInOrder(Shape(root, [Shape(part1, [s2]), s2])) == [root, part1, part2]
  {
    var s2 := Shape(part2, []);
    var s1 := Shape(part1, [s2]);
    LeafWalk(part2);
    assert Enumerate(s1) == [part1, part2] by {
      SortOne(s2);
      EnumerateAllCons(s2, []);
    }
    assert SortParts([s1, s2]) == [s1, s2] by {
      SortOne(s2);
      assert [s1, s2][1..] == [s2];
      assert Insert(s1, [s2]) == [s1] + [s2];
    }
    var walk := [root, part1, part2];
    assert Enumerate(Shape(root, [s1, s2])) == walk + [part2] by {
      EnumerateAllCons(s1, [s2]);
      EnumerateAllCons(s2, []);
    }
    assert AssembliesOf(walk) == [root.assembly, part1.assembly, part2.assembly];
    DistinctFromKeepsFirstRun(walk, [part2], {});
  }

  /** Every additional part is discovered; parts of equal score go by name. */
  lemma AllAdditionalPartsDiscovered(root: PartModel, part1: PartModel, part2: PartModel, part3: PartModel, part4: PartModel)
    requires part1.name == "Library1" && part3.name == "Library2"
    requires root.assembly != part1.assembly && root.assembly != part2.assembly && root.assembly != part3.assembly && root.assembly != part4.assembly
    requires part1.assembly != part2.assembly && part1.assembly != part3.assembly && part1.assembly != part4.assembly
    requires part2.assembly != part3.assembly && part2.assembly != part4.assembly && part3.assembly != part4.assembly
    ensures var s2, s4 := Shape(part2, []), Shape(part4, []);
      PartsInOrder(Shape(root, [s4, Shape(part3, [s4]), Shape(part1, [s2])])) == [root, part1, part2, part3, part4]
  {
    var s2, s4 := Shape(part2, []), Shape(part4, []);
    var s := Shape(root, [s4, Shape(part3, [s4]), Shape(part1, [s2])]);
    var walk := [root, part1, part2, part3, part4];
    AllAdditionalPartsWalk(root, part1, part2, part3, part4);
    assert Enumerate(s) == walk + [part4];
    assert AssembliesOf(walk) == [root.assembly, part1.assembly, part2.assembly, part3.assembly, part4.assembly];
    DistinctFromKeepsFirstRun(walk, [part4], {});
  }

  lemma AllAdditionalPartsWalk(root: PartModel, part1: PartModel, part2: PartModel, part3: PartModel, part4: PartModel)
    requires part1.name == "Library1" && part3.name == "Library2"
    ensures var s2, s4 := Shape(part2, []), Shape(part4, []);
      Enumerate(Shape(root, [s4, Shape(part3, [s4]), Shape(part1, [s2])])) == [root, part1, part2, part3, part4, part4]
  {
    var s2, s4 := Shape(part2, []), Shape(part4, []);
    var s1, s3 := Shape(part1, [s2]), Shape(part3, [s4]);
    LeafWalk(part2);
    LeafWalk(part4);
    assert Enumerate(s1) == [part1, part2] && Score(s1) == 2 by {
      SortOne(s2);
      EnumerateAllCons(s2, []);
    }
    assert Enumerate(s3) == [part3, part4] && Score(s3) == 2 by {
      SortOne(s4);
      EnumerateAllCons(s4, []);
    }
    assert Before(s1, s3) by {
      assert part1.name == "Library" + "1" && part3.name == "Library" + "2";
      OrdinalLessCommonPrefix("Library", "1", "2");
    }
    assert SortParts([s4, s3, s1]) == [s1, s3, s4] by {
      SortOne(s1);
      assert [s4, s3, s1][1..] == [s3, s1] && [s3, s1][1..] == [s1];
      assert Insert(s3, [s1]) == [s1] + Insert(s3, []);
      assert Insert(s4, [s1, s3]) == [s1] + Insert(s4, [s3]);
      assert [s1, s3][1..] == [s3];
      assert Insert(s4, [s3]) == [s3] + Insert(s4, []);
    }
    EnumerateAllCons(s1, [s3, s4]);
    EnumerateAllCons(s3, [s4]);
    EnumerateAllCons(s4, []);
  }

  // ---------------------------------------------------------------------------------------
  // Running the configure operations.

  /** What one configure operation appends to the part manager for a node. */
  function Contribution(op: OperationType, model: PartModel): (r: seq<ApplicationPart>)
    requires op.IsConfigureOperation()
    reads model`additionalParts
    ensures op.NullOperation? <==> r == []
  {
    if op.DefaultOperation? then [ApplicationPartFor(model.assembly, model.name)]
    else if op.NullOperation? then []
    else LightsOnParts(model)
  }

  /** operation.Configure(partManager, part), dispatched on the operation's type. */
  method Configure(op: OperationType, manager: ApplicationPartManager, model: PartModel)
    requires op.IsConfigureOperation()
    modifies manager
    ensures manager.applicationParts == old(manager.applicationParts) + Contribution(op, model)
  {
    if op.DefaultOperation? {
      ConfigureDefault(manager, model);
    } else if op.LightsOnOperation? {
      ConfigureLightsOn(manager, model);
    }
  }

  /** The first node, in configuration order, whose default slot names a type that is not
      an operation; the loop throws there. */
  function FirstFailure(models: seq<PartModel>): (r: Option<Error>)
    ensures r.None? <==> forall i :: 0 <= i < |models| ==> GetDefaultConfigureOperation(models[i]).Success?
    ensures r.Some? ==> r.value.InvalidConfigureType? && r.value.slot == DefaultName
  {
    if models == [] then None
    else
      match GetDefaultConfigureOperation(models[0])
      case Failure(e) => Some(e)
      case Success(_) =>
        var rest := FirstFailure(models[1..]);
        assert forall i :: 1 <= i < |models| ==> models[i] == models[1..][i - 1];
        rest
  }

  /** What the configure loop appends: each node's contribution in turn, up to the first
      node whose operation cannot be created. */
  function Registrations(models: seq<PartModel>): (r: seq<ApplicationPart>)
    reads models
  {
    if models == [] then []
    else
      match GetDefaultConfigureOperation(models[0])
      case Failure(_) => []
      case Success(op) => Contribution(op, models[0]) + Registrations(models[1..])
  }

  lemma {:induction false} FirstFailureSnoc(models: seq<PartModel>, m: PartModel)
    requires FirstFailure(models).None?
    ensures var op := GetDefaultConfigureOperation(m);
      FirstFailure(models + [m]) == if op.Failure? then Some(op.error) else None
  {
    if models == [] {
      assert models + [m] == [m] && [m][1..] == [];
    } else {
      assert (models + [m])[1..] == models[1..] + [m];
      FirstFailureSnoc(models[1..], m);
    }
  }

  lemma {:induction false} RegistrationsSnoc(models: seq<PartModel>, m: PartModel)
    requires FirstFailure(models).None?
    requires GetDefaultConfigureOperation(m).Success?
    ensures Registrations(models + [m]) == Registrations(models) + Contribution(GetDefaultConfigureOperation(m).value, m)
  {
    var last := Contribution(GetDefaultConfigureOperation(m).value, m);
    if models == [] {
      assert models + [m] == [m] && [m][1..] == [];
    } else {
      var first := Contribution(GetDefaultConfigureOperation(models[0]).value, models[0]);
      assert (models + [m])[1..] == models[1..] + [m];
      RegistrationsSnoc(models[1..], m);
      assert Registrations(models + [m]) == first + (Registrations(models[1..]) + last);
      AppendAssociates(first, Registrations(models[1..]), last);
    }
  }

  lemma {:induction false} RegistrationsStop(models: seq<PartModel>, m: PartModel)
    requires FirstFailure(models).None?
    requires GetDefaultConfigureOperation(m).Failure?
    ensures Registrations(models + [m]) == Registrations(models)
  {
    if models == [] {
      assert models + [m] == [m];
    } else {
      assert (models + [m])[1..] == models[1..] + [m];
      RegistrationsStop(models[1..], m);
    }
  }

  /** Nothing after the first failure counts. */
  lemma {:induction false} FailureEndsRun(models: seq<PartModel>, k: nat)
    requires k <= |models| && FirstFailure(models[..k]).Some?
    ensures FirstFailure(models) == FirstFailure(models[..k])
    ensures Registrations(models) == Registrations(models[..k])
  {
    assert models[..k][0] == models[0];
    if GetDefaultConfigureOperation(models[0]).Success? {
      assert models[..k][1..] == models[1..][..k - 1];
      FailureEndsRun(models[1..], k - 1);
    }
  }

  /** Without configure attributes for the default slot, every node is registered once, in
      configuration order, as the part its name calls for. */
  lemma {:induction false} StockRegistrations(models: seq<PartModel>)
    requires forall i :: 0 <= i < |models| ==> GetDefaultConfigureOperation(models[i]) == Success(DefaultOperation)
    ensures |Registrations(models)| == |models|
    ensures forall i :: 0 <= i < |models| ==> Registrations(models)[i] == ApplicationPartFor(models[i].assembly, models[i].name)
  {
    if models != [] {
      StockRegistrations(models[1..]);
    }
  }

  /** With the stock operation everywhere, configuring a tree registers one part per
      assembly of the tree, no assembly twice and none from outside it. */
  lemma StockConfigurationCoversTree(s: Shape)
    requires forall i :: 0 <= i < |PartsInOrder(s)| ==> GetDefaultConfigureOperation(PartsInOrder(s)[i]) == Success(DefaultOperation)
    ensures var r := Registrations(PartsInOrder(s));
      && (forall a :: (exists k :: 0 <= k < |r| && r[k].assembly == a) <==> a in PreOrder(s))
      && (forall j, k :: 0 <= j < k < |r| ==> r[j].assembly != r[k].assembly)
  {
    var ordered := PartsInOrder(s);
    var r := Registrations(ordered);
    StockRegistrations(ordered);
    PartsInOrderCovers(s);
    var assemblies := AssembliesOf(ordered);
    forall k | 0 <= k < |r| ensures r[k].assembly == assemblies[k] {
    }
    forall a ensures (exists k :: 0 <= k < |r| && r[k].assembly == a) <==> a in PreOrder(s) {
      if a in PreOrder(s) {
        var k :| 0 <= k < |assemblies| && assemblies[k] == a;
        assert r[k].assembly == a;
      }
    }
  }

  /** The sample's entry assembly takes the no-op operation in the default slot, so the
      loop registers nothing for it. */
  lemma SandboxEntryRegistersNothing(model: PartModel)
    requires model.attributes == SandboxAttributes
    ensures GetDefaultConfigureOperation(model) == Success(NullOperation)
    ensures Registrations([model]) == []
  {
    SandboxSlots(DefaultName);
    assert [model][1..] == [];
  }

  /** ConfigureApplicationParts: load the entry assembly, resolve its tree (the dependency
      context is a parameter), walk it in configuration order, and run each node's default
      operation against the part manager. */
  method ConfigureApplicationParts(manager: ApplicationPartManager, runtime: Runtime, entryPointAssemblyName: string, dependencyContext: seq<AssemblyId>)
    returns (failure: Option<Error>, ghost tree: Option<Shape>, ghost own: seq<Shape>, ghost dependencies: seq<Shape>, ghost ordered: seq<PartModel>)
    requires runtime.Valid()
    requires forall i :: 0 <= i < |dependencyContext| ==> dependencyContext[i] in runtime.assemblies
    modifies manager
    ensures entryPointAssemblyName !in runtime.byName ==>
      failure == Some(AssemblyLoadFailure(entryPointAssemblyName)) && manager.applicationParts == old(manager.applicationParts)
    ensures failure.Some? && !failure.value.InvalidConfigureType? ==>
      && manager.applicationParts == old(manager.applicationParts)
      && (entryPointAssemblyName in runtime.byName ==>
            var entry := runtime.byName[entryPointAssemblyName];
            && FirstResolutionError(runtime, [entry] + Without(dependencyContext, entry)) == Some(failure.value)
            && EntryPointError(runtime, entry, dependencyContext, failure.value)
            && (OutlinesExist(runtime, entry, dependencyContext) ==> failure.value.Recursion?))
    ensures entryPointAssemblyName in runtime.byName ==>
      var entry := runtime.byName[entryPointAssemblyName];
      ((failure.None? || failure.value.InvalidConfigureType?) <==>
        CanResolve(runtime, entry) && DependenciesResolve(runtime, entry, dependencyContext))
    ensures failure.None? || failure.value.InvalidConfigureType? ==>
      && entryPointAssemblyName in runtime.byName
      && var entry := runtime.byName[entryPointAssemblyName];
      && tree.Some? && tree.value == Shape(tree.value.model, own + dependencies)
      && fresh(tree.value.model) && tree.value.model.assembly == entry
      && Linked(tree.value)
      && Resolved(runtime, Shape(tree.value.model, own))
      && NoDuplicates(PreOrder(Shape(tree.value.model, own)))
      && ResolvedAll(runtime, dependencies)
      && ChildAssemblies(dependencies) == Without(dependencyContext, entry)
      && FirstResolutionError(runtime, [entry] + Without(dependencyContext, entry)) == None
      && ordered == PartsInOrder(tree.value)
      && failure == FirstFailure(ordered)
      && manager.applicationParts == old(manager.applicationParts) + Registrations(ordered)
  {
    ordered, tree, own, dependencies := [], None, [], [];
    var entry := runtime.Load(entryPointAssemblyName);
    if entry.Failure? {
      return Some(entry.error), tree, own, dependencies, ordered;
    }
    var resolved;
    resolved, own, dependencies := ResolveEntryPoint(runtime, entry.value, dependencyContext);
    if resolved.Failure? {
      return Some(resolved.error), tree, own, dependencies, ordered;
    }
    ghost var s := Shape(resolved.value, own + dependencies);
    tree := Some(s);
    ModelsAllocated(s);
    var parts := GetPartsInOrder(resolved.value, s);
    ordered := parts;
    failure := RunOperations(manager, parts);
  }

  /** The foreach over the ordered nodes: create each node's default operation and run it;
      the first invalid configure type throws and ends the loop. */
  method RunOperations(manager: ApplicationPartManager, parts: seq<PartModel>) returns (failure: Option<Error>)
    modifies manager
    ensures failure == FirstFailure(parts)
    ensures manager.applicationParts == old(manager.applicationParts) + Registrations(parts)
  {
    var i := 0;
    while i < |parts|
      invariant i <= |parts|
      invariant FirstFailure(parts[..i]).None?
      invariant manager.applicationParts == old(manager.applicationParts) + Registrations(parts[..i])
    {
      var operation := GetDefaultConfigureOperation(parts[i]);
      if operation.Failure? {
        StopsAt(parts, i);
        return Some(operation.error);
      }
      ConfigureNext(manager, parts, i, operation.value, old(manager.applicationParts));
      i := i + 1;
    }
    assert parts[..i] == parts;
    failure := None;
  }

  /** The node at `i` is the first whose operation cannot be created: the run fails there,
      with what was registered before it. */
  lemma {:induction false} StopsAt(parts: seq<PartModel>, i: nat)
    requires i < |parts| && FirstFailure(parts[..i]).None?
    requires GetDefaultConfigureOperation(parts[i]).Failure?
    ensures FirstFailure(parts) == Some(GetDefaultConfigureOperation(parts[i]).error)
    ensures Registrations(parts) == Registrations(parts[..i])
  {
    TakeSnoc(parts, i);
    FirstFailureSnoc(parts[..i], parts[i]);
    RegistrationsStop(parts[..i], parts[i]);
    FailureEndsRun(parts, i + 1);
  }

  /** The node at `i` has an operation: the run goes on past it, adding its contribution. */
  lemma {:induction false} ContinuesAt(parts: seq<PartModel>, i: nat)
    requires i < |parts| && FirstFailure(parts[..i]).None?
    requires GetDefaultConfigureOperation(parts[i]).Success?
    ensures FirstFailure(parts[..i + 1]).None?
    ensures Registrations(parts[..i + 1]) == Registrations(parts[..i]) + Contribution(GetDefaultConfigureOperation(parts[i]).value, parts[i])
  {
    TakeSnoc(parts, i);
    FirstFailureSnoc(parts[..i], parts[i]);
    RegistrationsSnoc(parts[..i], parts[i]);
  }

  /** One turn of the loop: the node's operation runs, and the registrations so far grow
      by its contribution. */
  method ConfigureNext(manager: ApplicationPartManager, parts: seq<PartModel>, i: nat, op: OperationType, ghost base: seq<ApplicationPart>)
    requires i < |parts| && FirstFailure(parts[..i]).None?
    requires GetDefaultConfigureOperation(parts[i]) == Success(op)
    requires manager.applicationParts == base + Registrations(parts[..i])
    modifies manager
    ensures FirstFailure(parts[..i + 1]).None?
    ensures manager.applicationParts == base + Registrations(parts[..i + 1])
  {
    ghost var done, added := Registrations(parts[..i]), Contribution(op, parts[i]);
    ContinuesAt(parts, i);
    Configure(op, manager, parts[i]);
    AppendAssociates(base, done, added);
  }
}
