/** CompiledViewsFeatureProvider: pairs each compiled-views assembly's compiled items with its
    view attributes by path, and fills the views feature with one descriptor per view path,
    the earliest part winning.

    Dictionaries and sets that compare strings ignoring case are modelled as maps and sets
    keyed by the folded string (see Text.Fold). */
module CompiledViews {
  import opened Outcomes
  import opened Text
  import opened Seqs
  import opened Assemblies
  import opened PartManager

  /** RazorCompiledItem: a compiled view type and the identifier (its path) it was compiled
      from. */
  datatype CompiledItem = CompiledItem(identifier: string, kind: string, itemType: string)

  /** A value of the merge dictionary: the item and the attribute filed under one path; either
      may be missing (null). */
  datatype Entry = Entry(item: Option<CompiledItem>, attribute: Option<ViewAttribute>)

  /** The key an item is filed under. */
  function ItemKey(item: CompiledItem): string {
    Fold(item.identifier)
  }

  /** The key an attribute is filed under. */
  function AttributeKey(attribute: ViewAttribute): string {
    Fold(attribute.path)
  }

  /** `xs[i]` is the first element filed under `key`. */
  ghost predicate FirstFiledAt<T>(xs: seq<T>, keyOf: T -> string, key: string, i: int) {
    && 0 <= i < |xs|
    && keyOf(xs[i]) == key
    && forall j :: 0 <= j < i ==> keyOf(xs[j]) != key
  }

  /** The first element filed under `key`, if any. Written from the back, the way the merge
      loop sees the list grow. */
  function FirstFiled<T>(xs: seq<T>, keyOf: T -> string, key: string): (r: Option<T>)
    ensures r.None? <==> forall i :: 0 <= i < |xs| ==> keyOf(xs[i]) != key
    ensures r.Some? ==> exists i :: FirstFiledAt(xs, keyOf, key, i) && xs[i] == r.value
  {
    if xs == [] then None
    else
      var init, last := xs[..|xs| - 1], xs[|xs| - 1];
      var earlier := FirstFiled(init, keyOf, key);
      assert forall i :: FirstFiledAt(init, keyOf, key, i) ==> FirstFiledAt(xs, keyOf, key, i);
      if earlier.Some? then earlier
      else if keyOf(last) == key then
        assert FirstFiledAt(xs, keyOf, key, |xs| - 1);
        Some(last)
      else None
  }

  /** The first element filed under a key is the one at its first position. */
  lemma FirstFiledIsFirst<T>(xs: seq<T>, keyOf: T -> string, key: string, i: int)
    requires FirstFiledAt(xs, keyOf, key, i)
    ensures FirstFiled(xs, keyOf, key) == Some(xs[i])
  {
    var r := FirstFiled(xs, keyOf, key);
    var k :| FirstFiledAt(xs, keyOf, key, k) && xs[k] == r.value;
    assert k == i;
  }

  /** Every key an item or an attribute is filed under. */
  function MergedKeys(items: seq<CompiledItem>, attributes: seq<ViewAttribute>): (keys: set<string>)
    ensures forall k :: k in keys <==> FirstFiled(items, ItemKey, k).Some? || FirstFiled(attributes, AttributeKey, k).Some?
  {
    (set i | 0 <= i < |items| :: ItemKey(items[i])) + (set i | 0 <= i < |attributes| :: AttributeKey(attributes[i]))
  }

  /** What Merge builds: under each key, the first item and the first attribute filed under
      it. */
  function MergedViews(items: seq<CompiledItem>, attributes: seq<ViewAttribute>): (merged: map<string, Entry>)
  {
    map k | k in MergedKeys(items, attributes) :: Entry(FirstFiled(items, ItemKey, k), FirstFiled(attributes, AttributeKey, k))
  }

  /** Growing the list by one element changes only what is filed under that element's key,
      and only when nothing was filed there. */
  lemma FirstFiledGrows<T>(xs: seq<T>, x: T, keyOf: T -> string, k: string)
    ensures FirstFiled(xs + [x], keyOf, k) ==
      if FirstFiled(xs, keyOf, k).Some? then FirstFiled(xs, keyOf, k)
      else if keyOf(x) == k then Some(x)
      else None
  {
    assert (xs + [x])[..|xs|] == xs;
  }

  /** One more item: filed in a new entry when its key is new, and otherwise dropped, since
      before any attribute is merged every entry already holds an item. */
  lemma {:induction false} ItemFiled(items: seq<CompiledItem>, item: CompiledItem)
    ensures var m, key := MergedViews(items, []), ItemKey(item);
      && (key in m ==> m[key].item.Some?)
      && MergedViews(items + [item], []) == if key in m then m else m[key := Entry(Some(item), None)]
  {
    var m, key := MergedViews(items, []), ItemKey(item);
    var after := if key in m then m else m[key := Entry(Some(item), None)];
    forall k ensures (k in after <==> FirstFiled(items + [item], ItemKey, k).Some? || FirstFiled([], AttributeKey, k).Some?)
      && (k in after ==> after[k] == Entry(FirstFiled(items + [item], ItemKey, k), FirstFiled([], AttributeKey, k)))
    {
      FirstFiledGrows(items, item, ItemKey, k);
    }
    MergedViewsDetermined(items + [item], [], after);
  }

  /** One more attribute: filed in a new entry, or in an entry that has no attribute yet. */
  lemma {:induction false} AttributeFiled(items: seq<CompiledItem>, attributes: seq<ViewAttribute>, attribute: ViewAttribute)
    ensures var m, key := MergedViews(items, attributes), AttributeKey(attribute);
      MergedViews(items, attributes + [attribute]) ==
        if key !in m then m[key := Entry(None, Some(attribute))]
        else if m[key].attribute.None? then m[key := Entry(m[key].item, Some(attribute))]
        else m
  {
    var m, key := MergedViews(items, attributes), AttributeKey(attribute);
    var after := if key !in m then m[key := Entry(None, Some(attribute))]
      else if m[key].attribute.None? then m[key := Entry(m[key].item, Some(attribute))]
      else m;
    forall k ensures (k in after <==> FirstFiled(items, ItemKey, k).Some? || FirstFiled(attributes + [attribute], AttributeKey, k).Some?)
      && (k in after ==> after[k] == Entry(FirstFiled(items, ItemKey, k), FirstFiled(attributes + [attribute], AttributeKey, k)))
    {
      FirstFiledGrows(attributes, attribute, AttributeKey, k);
    }
    MergedViewsDetermined(items, attributes + [attribute], after);
  }

  /** Merge(items, attributes): the items first, then the attributes, each filling the half
      of an entry that is still empty. */
  method Merge(items: seq<CompiledItem>, attributes: seq<ViewAttribute>) returns (merged: map<string, Entry>)
    ensures merged == MergedViews(items, attributes)
  {
    merged := map[];
    assert merged == MergedViews([], []) by {
      MergedViewsDetermined([], [], merged);
    }
    for i := 0 to |items|
      invariant merged == MergedViews(items[..i], [])
    {
      assert items[..i + 1] == items[..i] + [items[i]];
      merged := FileItem(merged, items[..i], items[i]);
    }
    assert items[..|items|] == items;
    for j := 0 to |attributes|
      invariant merged == MergedViews(items, attributes[..j])
    {
      assert attributes[..j + 1] == attributes[..j] + [attributes[j]];
      merged := FileAttribute(merged, items, attributes[..j], attributes[j]);
    }
    assert attributes[..|attributes|] == attributes;
  }

  /** One pass of the items loop: a new key gets an entry holding the item; an entry without
      an item gets this one. */
  method FileItem(merged: map<string, Entry>, items: seq<CompiledItem>, item: CompiledItem) returns (next: map<string, Entry>)
    requires merged == MergedViews(items, [])
    ensures next == MergedViews(items + [item], [])
  {
    ItemFiled(items, item);
    var key := ItemKey(item);
    next := merged;
    if key !in merged {
      next := merged[key := Entry(Some(item), None)];
    } else {
      var entry := merged[key];
      if entry.item.None? {
        next := merged[key := Entry(Some(item), entry.attribute)];
      }
    }
  }

  /** One pass of the attributes loop: a new key gets an entry holding the attribute; an entry
      without an attribute gets this one. */
  method FileAttribute(merged: map<string, Entry>, items: seq<CompiledItem>, attributes: seq<ViewAttribute>, attribute: ViewAttribute)
    returns (next: map<string, Entry>)
    requires merged == MergedViews(items, attributes)
    ensures next == MergedViews(items, attributes + [attribute])
  {
    AttributeFiled(items, attributes, attribute);
    var key := AttributeKey(attribute);
    next := merged;
    if key !in merged {
      next := merged[key := Entry(None, Some(attribute))];
    } else {
      var entry := merged[key];
      if entry.attribute.None? {
        next := merged[key := Entry(entry.item, Some(attribute))];
      }
    }
  }

  /** A dictionary with the merge's keys and entries is the merge. */
  lemma MergedViewsDetermined(items: seq<CompiledItem>, attributes: seq<ViewAttribute>, merged: map<string, Entry>)
    requires forall k :: k in merged <==> FirstFiled(items, ItemKey, k).Some? || FirstFiled(attributes, AttributeKey, k).Some?
    requires forall k :: k in merged ==> merged[k] == Entry(FirstFiled(items, ItemKey, k), FirstFiled(attributes, AttributeKey, k))
    ensures merged == MergedViews(items, attributes)
  {
    var spec := MergedViews(items, attributes);
    assert merged.Keys == spec.Keys;
  }

  /** Every item identifier and every attribute path is a key of the merge, and every key is
      one of them. */
  lemma MergeCoversPaths(items: seq<CompiledItem>, attributes: seq<ViewAttribute>)
    ensures forall i :: 0 <= i < |items| ==> ItemKey(items[i]) in MergedViews(items, attributes)
    ensures forall j :: 0 <= j < |attributes| ==> AttributeKey(attributes[j]) in MergedViews(items, attributes)
    ensures forall k :: k in MergedViews(items, attributes) ==>
      (exists i :: 0 <= i < |items| && ItemKey(items[i]) == k) || (exists j :: 0 <= j < |attributes| && AttributeKey(attributes[j]) == k)
  {
    var merged := MergedViews(items, attributes);
    forall k | k in merged
      ensures (exists i :: 0 <= i < |items| && ItemKey(items[i]) == k) || (exists j :: 0 <= j < |attributes| && AttributeKey(attributes[j]) == k)
    {
      if FirstFiled(items, ItemKey, k).Some? {
        var i :| FirstFiledAt(items, ItemKey, k, i) && items[i] == FirstFiled(items, ItemKey, k).value;
      } else {
        var j :| FirstFiledAt(attributes, AttributeKey, k, j) && attributes[j] == FirstFiled(attributes, AttributeKey, k).value;
      }
    }
  }

  /** No merged entry is empty, and each is filed under its own path: its item's identifier
      when it has an item, else its attribute's path. */
  lemma MergedEntriesAreFiled(items: seq<CompiledItem>, attributes: seq<ViewAttribute>, k: string)
    requires k in MergedViews(items, attributes)
    ensures var e := MergedViews(items, attributes)[k];
      && (e.item.Some? || e.attribute.Some?)
      && (e.item.Some? ==> ItemKey(e.item.value) == k)
      && (e.attribute.Some? ==> AttributeKey(e.attribute.value) == k)
  {
    var e := MergedViews(items, attributes)[k];
    if e.item.Some? {
      var i :| FirstFiledAt(items, ItemKey, k, i) && items[i] == e.item.value;
    }
    if e.attribute.Some? {
      var j :| FirstFiledAt(attributes, AttributeKey, k, j) && attributes[j] == e.attribute.value;
    }
  }

  /** Among items sharing a path the first is kept, among attributes sharing a path the first
      is kept, and a path with both pairs the two. */
  lemma MergeKeepsFirsts(items: seq<CompiledItem>, attributes: seq<ViewAttribute>, i: int, j: int)
    requires 0 <= i < |items| && FirstFiledAt(items, ItemKey, ItemKey(items[i]), i)
    requires FirstFiledAt(attributes, AttributeKey, ItemKey(items[i]), j)
    ensures MergedViews(items, attributes)[ItemKey(items[i])] == Entry(Some(items[i]), Some(attributes[j]))
  {
    FirstFiledIsFirst(items, ItemKey, ItemKey(items[i]), i);
    FirstFiledIsFirst(attributes, AttributeKey, ItemKey(items[i]), j);
  }

  // ---------------------------------------------------------------------------------------
  // The views feature.

  /** CompiledViewDescriptor: the view's relative path with the item and attribute it was
      built from. */
  datatype ViewDescriptor = ViewDescriptor(relativePath: string, item: Option<CompiledItem>, attribute: Option<ViewAttribute>)

  /** The descriptor built from a merged entry; its path is the item's identifier when there
      is an item, else the attribute's path. */
  function DescriptorFor(e: Entry): (d: ViewDescriptor)
    ensures d.item == e.item && d.attribute == e.attribute
    ensures e.item.Some? ==> d.relativePath == e.item.value.identifier
    ensures e.item.None? && e.attribute.Some? ==> d.relativePath == e.attribute.value.path
  {
    var path := if e.item.Some? then e.item.value.identifier else if e.attribute.Some? then e.attribute.value.path else "";
    ViewDescriptor(path, e.item, e.attribute)
  }

  /** A descriptor built from a merged entry is filed under the entry's key. */
  lemma DescriptorFiledUnderKey(items: seq<CompiledItem>, attributes: seq<ViewAttribute>, k: string)
    requires k in MergedViews(items, attributes)
    ensures Fold(DescriptorFor(MergedViews(items, attributes)[k]).relativePath) == k
  {
    MergedEntriesAreFiled(items, attributes, k);
  }

  /** ViewsFeature, holding the ViewDescriptors list the provider appends to. */
  class ViewsFeature {
    var viewDescriptors: seq<ViewDescriptor>

    constructor ()
      ensures viewDescriptors == []
    {
      viewDescriptors := [];
    }
  }

  /** LoadItems(assembly): the compiled items of an assembly, none when it has none. */
  function LoadItems(compiledItems: map<AssemblyId, seq<CompiledItem>>, assembly: AssemblyId): seq<CompiledItem> {
    if assembly in compiledItems then compiledItems[assembly] else []
  }

  /** The merge of one assembly's items and view attributes. */
  function AssemblyViews(runtime: Runtime, compiledItems: map<AssemblyId, seq<CompiledItem>>, assembly: AssemblyId): map<string, Entry>
    requires assembly in runtime.assemblies
  {
    MergedViews(LoadItems(compiledItems, assembly), ViewAttributes(runtime.assemblies[assembly].attributes))
  }

  /** Each assembly's merge; assemblies outside the runtime have none. */
  function ViewsOf(runtime: Runtime, compiledItems: map<AssemblyId, seq<CompiledItem>>): (views: AssemblyId -> map<string, Entry>)
    ensures forall a :: a in runtime.assemblies ==> views(a) == AssemblyViews(runtime, compiledItems, a)
  {
    a => if a in runtime.assemblies then AssemblyViews(runtime, compiledItems, a) else map[]
  }

  /** The merges of the compiled-views parts, in part order; other parts play no part. */
  function ViewMaps(views: AssemblyId -> map<string, Entry>, parts: seq<ApplicationPart>): (maps: seq<map<string, Entry>>)
    ensures |maps| <= |parts|
  {
    if parts == [] then []
    else
      var init, last := parts[..|parts| - 1], parts[|parts| - 1];
      ViewMaps(views, init) + if last.CompiledViewsApplicationPart? then [views(last.assembly)] else []
  }

  /** The descriptors already chosen, and those of a further merge under paths not yet
      chosen. */
  function Extend(winners: map<string, ViewDescriptor>, merged: map<string, Entry>): map<string, ViewDescriptor> {
    winners + map k | k in merged && k !in winners :: DescriptorFor(merged[k])
  }

  /** Under each path, the descriptor of the earliest merge that has the path. */
  function Winners(maps: seq<map<string, Entry>>): map<string, ViewDescriptor> {
    if maps == [] then map[] else Extend(Winners(maps[..|maps| - 1]), maps[|maps| - 1])
  }

  /** The folded paths of some descriptors, in order. */
  function PathKeys(ds: seq<ViewDescriptor>): (keys: seq<string>)
    ensures |keys| == |ds|
    ensures forall i :: 0 <= i < |ds| ==> keys[i] == Fold(ds[i].relativePath)
  {
    seq(|ds|, i requires 0 <= i < |ds| => Fold(ds[i].relativePath))
  }

  /** The descriptors a populate call appended are the winners, one per path. */
  ghost predicate RegistersWinners(added: seq<ViewDescriptor>, winners: map<string, ViewDescriptor>) {
    && NoDuplicates(PathKeys(added))
    && (forall i :: 0 <= i < |added| ==> PathKeys(added)[i] in winners && winners[PathKeys(added)[i]] == added[i])
    && (forall k :: k in winners ==> k in PathKeys(added))
  }

  /** Part way through: the descriptors appended so far are winners, one per path, and the
      known set holds exactly their paths. */
  ghost predicate RegisteredSoFar(added: seq<ViewDescriptor>, known: set<string>, winners: map<string, ViewDescriptor>) {
    && NoDuplicates(PathKeys(added))
    && (forall i :: 0 <= i < |added| ==> PathKeys(added)[i] in winners && winners[PathKeys(added)[i]] == added[i])
    && (forall k :: k in known <==> k in PathKeys(added))
  }

  /** A further part's merge adds descriptors under new paths only. */
  lemma ExtendKeeps(winners: map<string, ViewDescriptor>, merged: map<string, Entry>, k: string)
    ensures k in winners ==> k in Extend(winners, merged) && Extend(winners, merged)[k] == winners[k]
    ensures k in merged && k !in winners ==> k in Extend(winners, merged) && Extend(winners, merged)[k] == DescriptorFor(merged[k])
    ensures k in Extend(winners, merged) ==> k in winners || k in merged
  {
  }

  /** Appending the winner under an unknown path keeps the registration consistent. */
  lemma {:induction false} RegisterOne(added: seq<ViewDescriptor>, known: set<string>, winners: map<string, ViewDescriptor>, d: ViewDescriptor)
    requires RegisteredSoFar(added, known, winners)
    requires Fold(d.relativePath) !in known
    requires Fold(d.relativePath) in winners && winners[Fold(d.relativePath)] == d
    ensures RegisteredSoFar(added + [d], known + {Fold(d.relativePath)}, winners)
  {
    AppendDescriptor(added, d);
    var keys := PathKeys(added + [d]);
    forall i | 0 <= i < |added| + 1
      ensures keys[i] in winners && winners[keys[i]] == (added + [d])[i]
    {
      if i < |added| {
        assert keys[i] == PathKeys(added)[i];
      }
    }
  }

  /** What has been registered for some winners is registered for a further merge of them. */
  lemma RegisteredExtends(added: seq<ViewDescriptor>, known: set<string>, winners: map<string, ViewDescriptor>, merged: map<string, Entry>)
    requires RegistersWinners(added, winners)
    requires forall k :: k in known <==> k in PathKeys(added)
    ensures RegisteredSoFar(added, known, Extend(winners, merged))
  {
    forall i | 0 <= i < |added|
      ensures PathKeys(added)[i] in Extend(winners, merged) && Extend(winners, merged)[PathKeys(added)[i]] == added[i]
    {
      ExtendKeeps(winners, merged, PathKeys(added)[i]);
    }
  }

  /** The winners after one more part: a compiled-views part's merge extends them, any other
      part leaves them as they are. */
  lemma WinnersStep(views: AssemblyId -> map<string, Entry>, parts: seq<ApplicationPart>, i: nat)
    requires i < |parts|
    ensures Winners(ViewMaps(views, parts[..i + 1])) ==
      if parts[i].CompiledViewsApplicationPart? then Extend(Winners(ViewMaps(views, parts[..i])), views(parts[i].assembly))
      else Winners(ViewMaps(views, parts[..i]))
  {
    assert parts[..i + 1][..i] == parts[..i];
    var maps := ViewMaps(views, parts[..i]);
    if parts[i].CompiledViewsApplicationPart? {
      var m := views(parts[i].assembly);
      assert (maps + [m])[..|maps|] == maps;
    } else {
      assert maps + [] == maps;
    }
  }

  /** The winners after the last part, in terms of those before it. */
  lemma WinnersLast(views: AssemblyId -> map<string, Entry>, parts: seq<ApplicationPart>)
    requires parts != []
    ensures Winners(ViewMaps(views, parts)) ==
      if parts[|parts| - 1].CompiledViewsApplicationPart? then
        Extend(Winners(ViewMaps(views, parts[..|parts| - 1])), views(parts[|parts| - 1].assembly))
      else Winners(ViewMaps(views, parts[..|parts| - 1]))
  {
    var n := |parts| - 1;
    var maps := ViewMaps(views, parts[..n]);
    if parts[n].CompiledViewsApplicationPart? {
      var m := views(parts[n].assembly);
      assert (maps + [m])[..|maps|] == maps;
    } else {
      assert maps + [] == maps;
    }
  }

  /** `part` is a compiled-views part whose merge has the view path `k`. */
  ghost predicate ViewIn(views: AssemblyId -> map<string, Entry>, part: ApplicationPart, k: string)
  {
    part.CompiledViewsApplicationPart? && k in views(part.assembly)
  }

  /** Some compiled-views part among `parts` has the view path `k`. */
  ghost predicate HasView(views: AssemblyId -> map<string, Entry>, parts: seq<ApplicationPart>, k: string)
  {
    exists j :: 0 <= j < |parts| && ViewIn(views, parts[j], k)
  }

  /** A view path ends up with a descriptor exactly when some compiled-views part's merge
      has it; parts of other kinds contribute nothing. */
  lemma {:induction false} WinnersKeys(views: AssemblyId -> map<string, Entry>, parts: seq<ApplicationPart>, k: string)
    ensures k in Winners(ViewMaps(views, parts)) <==> HasView(views, parts, k)
  {
    if parts != [] {
      var n := |parts| - 1;
      var init := parts[..n];
      WinnersKeys(views, init, k);
      WinnersLast(views, parts);
      var before := Winners(ViewMaps(views, init));
      var after := Winners(ViewMaps(views, parts));
      if parts[n].CompiledViewsApplicationPart? {
        ExtendKeeps(before, views(parts[n].assembly), k);
      }
      if k in after {
        if k in before {
          var j :| 0 <= j < |init| && ViewIn(views, init[j], k);
          assert init[j] == parts[j];
          assert ViewIn(views, parts[j], k);
        } else {
          assert ViewIn(views, parts[n], k);
        }
      }
      if HasView(views, parts, k) {
        var j :| 0 <= j < |parts| && ViewIn(views, parts[j], k);
        if j < n {
          assert ViewIn(views, init[j], k);
          assert HasView(views, init, k);
        } else {
          assert j == n;
          assert ViewIn(views, parts[n], k);
        }
        assert k in after;
      }
    }
  }

  /** The earliest compiled-views part whose merge has a view path decides that path's
      descriptor: precedence follows part order. */
  lemma {:induction false} WinnersEarliest(views: AssemblyId -> map<string, Entry>, parts: seq<ApplicationPart>, i: nat, k: string)
    requires i < |parts| && ViewIn(views, parts[i], k)
    requires forall j :: 0 <= j < i ==> !ViewIn(views, parts[j], k)
    ensures var winners := Winners(ViewMaps(views, parts));
      k in winners && winners[k] == DescriptorFor(views(parts[i].assembly)[k])
  {
    var n := |parts| - 1;
    var init := parts[..n];
    WinnersLast(views, parts);
    var before := Winners(ViewMaps(views, init));
    var chosen := DescriptorFor(views(parts[i].assembly)[k]);
    if i < n {
      forall j | 0 <= j <= i ensures init[j] == parts[j] {
      }
      WinnersEarliest(views, init, i, k);
      assert k in before && before[k] == chosen;
      if parts[n].CompiledViewsApplicationPart? {
        ExtendKeeps(before, views(parts[n].assembly), k);
      }
    } else {
      assert k !in before by {
        WinnersKeys(views, init, k);
        forall j | 0 <= j < |init| ensures !ViewIn(views, init[j], k) {
          assert init[j] == parts[j];
        }
      }
      ExtendKeeps(before, views(parts[n].assembly), k);
    }
  }


  /** PopulateFeature(parts, feature): only compiled-views parts are read, in part order; each
      view path yields at most one descriptor, taken from the earliest part that has it; the
      descriptors already in the feature stay as they are. */
  method PopulateFeature(parts: seq<ApplicationPart>, feature: ViewsFeature, runtime: Runtime, compiledItems: map<AssemblyId, seq<CompiledItem>>)
    requires forall i :: 0 <= i < |parts| ==> parts[i].assembly in runtime.assemblies
    modifies feature
    ensures |old(feature.viewDescriptors)| <= |feature.viewDescriptors|
    ensures feature.viewDescriptors[..|old(feature.viewDescriptors)|] == old(feature.viewDescriptors)
    ensures RegistersWinners(feature.viewDescriptors[|old(feature.viewDescriptors)|..], Winners(ViewMaps(ViewsOf(runtime, compiledItems), parts)))
  {
    ghost var before := feature.viewDescriptors;
    ghost var added: seq<ViewDescriptor> := [];
    var knownIdentifiers: set<string> := {};
    for i := 0 to |parts|
      invariant feature.viewDescriptors == before + added
      invariant RegistersWinners(added, Winners(ViewMaps(ViewsOf(runtime, compiledItems), parts[..i])))
      invariant forall k :: k in knownIdentifiers <==> k in PathKeys(added)
    {
      WinnersStep(ViewsOf(runtime, compiledItems), parts, i);
      var part := parts[i];
      if part.CompiledViewsApplicationPart? {
        var assembly := part.assembly;
        var attributes := ViewAttributes(runtime.assemblies[assembly].attributes);
        var items := LoadItems(compiledItems, assembly);
        var merged := Merge(items, attributes);
        forall k | k in merged ensures Fold(DescriptorFor(merged[k]).relativePath) == k {
          DescriptorFiledUnderKey(items, attributes, k);
        }
        knownIdentifiers, added := AddDescriptors(feature, merged, knownIdentifiers, before, added, Winners(ViewMaps(ViewsOf(runtime, compiledItems), parts[..i])));
      }
    }
    assert parts[..|parts|] == parts;
    assert feature.viewDescriptors[|before|..] == added;
  }

  /** The inner loop of PopulateFeature over one part's merge: a descriptor is appended when
      its folded path is not yet known. */
  method AddDescriptors(feature: ViewsFeature, merged: map<string, Entry>, known: set<string>,
                        ghost base: seq<ViewDescriptor>, ghost added: seq<ViewDescriptor>, ghost winners: map<string, ViewDescriptor>)
    returns (knownAfter: set<string>, ghost addedAfter: seq<ViewDescriptor>)
    requires feature.viewDescriptors == base + added
    requires RegistersWinners(added, winners)
    requires forall k :: k in known <==> k in PathKeys(added)
    requires forall k :: k in merged ==> Fold(DescriptorFor(merged[k]).relativePath) == k
    modifies feature
    ensures feature.viewDescriptors == base + addedAfter
    ensures added <= addedAfter
    ensures RegistersWinners(addedAfter, Extend(winners, merged))
    ensures forall k :: k in knownAfter <==> k in PathKeys(addedAfter)
  {
    RegisteredExtends(added, known, winners, merged);
    knownAfter, addedAfter := known, added;
    var remaining := merged.Keys;
    while remaining != {}
      invariant remaining <= merged.Keys
      invariant feature.viewDescriptors == base + addedAfter
      invariant added <= addedAfter
      invariant Registering(merged, winners, remaining, addedAfter, knownAfter)
      decreases remaining
    {
      var key :| key in remaining;
      knownAfter, addedAfter := AddDescriptor(feature, merged, key, knownAfter, base, addedAfter, winners, remaining);
      remaining := remaining - {key};
    }
    RegisteringDone(merged, winners, addedAfter, knownAfter);
  }

  /** The state of the inner loop with `remaining` keys of the merge still to visit. */
  ghost predicate Registering(merged: map<string, Entry>, winners: map<string, ViewDescriptor>, remaining: set<string>,
                              added: seq<ViewDescriptor>, known: set<string>) {
    && RegisteredSoFar(added, known, Extend(winners, merged))
    && (forall k :: k in winners ==> k in known)
    && (forall k :: k in merged && k !in remaining ==> k in known)
  }

  lemma RegisteringDone(merged: map<string, Entry>, winners: map<string, ViewDescriptor>, added: seq<ViewDescriptor>, known: set<string>)
    requires Registering(merged, winners, {}, added, known)
    ensures RegistersWinners(added, Extend(winners, merged))
    ensures forall k :: k in known <==> k in PathKeys(added)
  {
    forall k | k in Extend(winners, merged) ensures k in PathKeys(added) {
      ExtendKeeps(winners, merged, k);
    }
  }

  /** One pass of the inner loop: the descriptor of the entry under `key` is appended when its
      folded path is not yet known. */
  method AddDescriptor(feature: ViewsFeature, merged: map<string, Entry>, key: string, known: set<string>,
                       ghost base: seq<ViewDescriptor>, ghost added: seq<ViewDescriptor>, ghost winners: map<string, ViewDescriptor>,
                       ghost remaining: set<string>)
    returns (knownAfter: set<string>, ghost addedAfter: seq<ViewDescriptor>)
    requires key in remaining && remaining <= merged.Keys
    requires feature.viewDescriptors == base + added
    requires Registering(merged, winners, remaining, added, known)
    requires Fold(DescriptorFor(merged[key]).relativePath) == key
    modifies feature
    ensures feature.viewDescriptors == base + addedAfter
    ensures knownAfter == known + {key}
    ensures addedAfter == if key in known then added else added + [DescriptorFor(merged[key])]
    ensures Registering(merged, winners, remaining - {key}, addedAfter, knownAfter)
  {
    RegisteringStep(merged, winners, remaining, added, known, key);
    var descriptor := DescriptorFor(merged[key]);
    var path := Fold(descriptor.relativePath);
    if path !in known {
      feature.viewDescriptors := feature.viewDescriptors + [descriptor];
    }
    knownAfter := known + {path};
    addedAfter := if key in known then added else added + [descriptor];
  }

  /** Visiting `key` keeps the inner loop's state: a known path stays as it is, a new one is registered. */
  lemma RegisteringStep(merged: map<string, Entry>, winners: map<string, ViewDescriptor>, remaining: set<string>,
                        added: seq<ViewDescriptor>, known: set<string>, key: string)
    requires key in remaining && remaining <= merged.Keys
    requires Registering(merged, winners, remaining, added, known)
    requires Fold(DescriptorFor(merged[key]).relativePath) == key
    ensures Registering(merged, winners, remaining - {key},
                        if key in known then added else added + [DescriptorFor(merged[key])], known + {key})
  {
    if key !in known {
      ExtendKeeps(winners, merged, key);
      RegisterOne(added, known, Extend(winners, merged), DescriptorFor(merged[key]));
    } else {
      assert known + {key} == known;
    }
  }

  lemma AppendDescriptor(ds: seq<ViewDescriptor>, d: ViewDescriptor)
    requires NoDuplicates(PathKeys(ds)) && Fold(d.relativePath) !in PathKeys(ds)
    ensures PathKeys(ds + [d]) == PathKeys(ds) + [Fold(d.relativePath)]
    ensures NoDuplicates(PathKeys(ds + [d]))
  {
    assert PathKeys(ds + [d]) == PathKeys(ds) + [Fold(d.relativePath)];
    NoDuplicatesAppend(PathKeys(ds), [Fold(d.relativePath)]);
  }
}
