/** AssemblyPartDiscoveryModel: one node per discovered assembly, holding its name, its
    attributes, its additional parts (in the order they were added) and a back-pointer to the
    node that added it last; plus the resolver that builds these nodes from an assembly's
    declarations and the companion "views" assembly probe. */
module DiscoveryModel {
  import opened Outcomes
  import opened Text
  import opened Seqs
  import opened ConfigureAttribute
  import opened Assemblies
  import opened PartManager

  /** The name suffixes of a companion views assembly, most specific first. */
  const ViewsAssemblySuffixes: seq<string> := [".PrecompiledViews", ".Views"]

  /** A name that marks a compiled-views assembly: it ends, ignoring case, with one of the
      views suffixes. */
  predicate IsViewsAssemblyName(name: string) {
    exists k :: 0 <= k < |ViewsAssemblySuffixes| && EndsWithIgnoreCase(name, ViewsAssemblySuffixes[k])
  }

  /** The part an assembly of this name registers as. */
  function ApplicationPartFor(assembly: AssemblyId, name: string): (p: ApplicationPart) {
    if IsViewsAssemblyName(name) then CompiledViewsApplicationPart(assembly) else AssemblyPart(assembly)
  }

  class PartModel {
    const assembly: AssemblyId
    const name: string
    const attributes: seq<Attribute>
    var parent: PartModel?
    var additionalParts: seq<PartModel>

    /** The three-argument constructor; the one-argument one passes the assembly's own
        simple name and attributes. */
    constructor (assembly: AssemblyId, name: string, attributes: seq<Attribute>)
      ensures this.assembly == assembly && this.name == name && this.attributes == attributes
      ensures parent == null && additionalParts == []
    {
      this.assembly := assembly;
      this.name := name;
      this.attributes := attributes;
      parent := null;
      additionalParts := [];
    }

    /** Appends a child and makes this node its parent; the child's own children stay as
        they are, and a child added by two nodes keeps the later one as its parent. */
    method AddAdditionalPartModel(additionalPart: PartModel)
      modifies this`additionalParts, additionalPart`parent
      ensures additionalParts == old(additionalParts) + [additionalPart]
      ensures additionalPart.parent == this
    {
      additionalParts := additionalParts + [additionalPart];
      additionalPart.parent := this;
    }

    /** Classifies this node by the suffix of its name, trying each views suffix in turn. */
    method ToApplicationPart() returns (part: ApplicationPart)
      ensures part.assembly == assembly
      ensures part.CompiledViewsApplicationPart? <==> IsViewsAssemblyName(name)
      ensures part == ApplicationPartFor(assembly, name)
    {
      for i := 0 to |ViewsAssemblySuffixes|
        invariant forall k :: 0 <= k < i ==> !EndsWithIgnoreCase(name, ViewsAssemblySuffixes[k])
      {
        if EndsWithIgnoreCase(name, ViewsAssemblySuffixes[i]) {
          return CompiledViewsApplicationPart(assembly);
        }
      }
      return AssemblyPart(assembly);
    }

    /** IEquatable: two nodes are equal when they stand for the same assembly. Nothing else,
        and in particular no mutable field, takes part. */
    predicate Equals(other: PartModel?) {
      other != null && assembly == other.assembly
    }
  }

  /** Equals is an equivalence that ignores names, attributes and children. */
  lemma EqualsIsAssemblyIdentity(a: PartModel, b: PartModel, c: PartModel)
    ensures a.Equals(a)
    ensures a.Equals(b) <==> b.Equals(a)
    ensures a.Equals(b) && b.Equals(c) ==> a.Equals(c)
    ensures a.Equals(b) <==> a.assembly == b.assembly
    ensures !a.Equals(null)
  {
  }

  // ---------------------------------------------------------------------------------------
  // The companion views assembly probe.

  /** The file name tried for one suffix: "<name><suffix>.dll". */
  function CandidateFileName(info: AssemblyInfo, suffix: string): string {
    info.name + suffix + ".dll"
  }

  /** The first candidate, in suffix order, whose file exists and loads. */
  function FirstLoadable(runtime: Runtime, info: AssemblyInfo, suffixes: seq<string>): Option<AssemblyId> {
    if suffixes == [] then None
    else match runtime.ProbeFile(info.location, CandidateFileName(info, suffixes[0]))
      case Loaded(a) => Some(a)
      case _ => FirstLoadable(runtime, info, suffixes[1..])
  }

  /** The companion views assembly of `assembly`, if any. */
  function CompanionAssembly(runtime: Runtime, assembly: AssemblyId): Option<AssemblyId>
    requires assembly in runtime.assemblies
  {
    var info := runtime.assemblies[assembly];
    if info.isDynamic || info.location == "" then None
    else FirstLoadable(runtime, info, ViewsAssemblySuffixes)
  }

  /** A companion found by probing is an assembly the runtime can describe. */
  lemma {:induction false} FirstLoadableIsKnown(runtime: Runtime, info: AssemblyInfo, suffixes: seq<string>)
    requires runtime.Valid()
    ensures FirstLoadable(runtime, info, suffixes).Some? ==> FirstLoadable(runtime, info, suffixes).value in runtime.assemblies
  {
    if suffixes != [] && !runtime.ProbeFile(info.location, CandidateFileName(info, suffixes[0])).Loaded? {
      FirstLoadableIsKnown(runtime, info, suffixes[1..]);
    }
  }

  /** The probe, case by case: nothing for a dynamic or location-less assembly; otherwise
      ".PrecompiledViews" wins when it loads, and a missing or unloadable first candidate
      falls through to ".Views". */
  lemma CompanionAssemblyCases(runtime: Runtime, assembly: AssemblyId)
    requires assembly in runtime.assemblies
    ensures var info := runtime.assemblies[assembly];
      var first := runtime.ProbeFile(info.location, CandidateFileName(info, ".PrecompiledViews"));
      var second := runtime.ProbeFile(info.location, CandidateFileName(info, ".Views"));
      && (info.isDynamic || info.location == "" ==> CompanionAssembly(runtime, assembly) == None)
      && (!info.isDynamic && info.location != "" && first.Loaded? ==>
            CompanionAssembly(runtime, assembly) == Some(first.assembly))
      && (!info.isDynamic && info.location != "" && !first.Loaded? ==>
            CompanionAssembly(runtime, assembly) == (if second.Loaded? then Some(second.assembly) else None))
  {
    var info := runtime.assemblies[assembly];
    var rest := ViewsAssemblySuffixes[1..];
    assert rest == [".Views"] && rest[1..] == [];
    assert FirstLoadable(runtime, info, rest) ==
      match runtime.ProbeFile(info.location, CandidateFileName(info, ".Views"))
        case Loaded(a) => Some(a)
        case _ => None;
  }

  /** GetPrecompiledViewsAssembly: tries each suffix in turn and returns on the first
      candidate that exists and loads; a load failure moves on to the next candidate. */
  method GetPrecompiledViewsAssembly(runtime: Runtime, assembly: AssemblyId) returns (found: Option<AssemblyId>)
    requires assembly in runtime.assemblies
    ensures found == CompanionAssembly(runtime, assembly)
    ensures found.Some? ==>
      var info := runtime.assemblies[assembly];
      exists i :: 0 <= i < |ViewsAssemblySuffixes| &&
        runtime.ProbeFile(info.location, CandidateFileName(info, ViewsAssemblySuffixes[i])) == Loaded(found.value)
  {
    var info := runtime.assemblies[assembly];
    if info.isDynamic || info.location == "" {
      return None;
    }
    for i := 0 to |ViewsAssemblySuffixes|
      invariant FirstLoadable(runtime, info, ViewsAssemblySuffixes) == FirstLoadable(runtime, info, ViewsAssemblySuffixes[i..])
    {
      var probe := runtime.ProbeFile(info.location, CandidateFileName(info, ViewsAssemblySuffixes[i]));
      if probe.Loaded? {
        return Some(probe.assembly);
      }
      assert ViewsAssemblySuffixes[i..][1..] == ViewsAssemblySuffixes[i + 1..];
    }
    return None;
  }

  // ---------------------------------------------------------------------------------------
  // Value snapshots of the node graph.

  /** The graph below a node, unfolded into a tree: a node shared by two parents would
      appear once under each. */
  datatype Shape = Shape(model: PartModel, parts: seq<Shape>)

  /** The nodes of a snapshot. */
  ghost function Models(s: Shape): set<PartModel>
    decreases s
  {
    {s.model} + ForestModels(s.parts)
  }

  /** The nodes of some snapshots; for `s.parts`, the nodes below `s.model`. */
  ghost function ForestModels(parts: seq<Shape>): (r: set<PartModel>)
    ensures parts != [] ==> parts[0].model in r
    decreases parts
  {
    if parts == [] then {} else Models(parts[0]) + ForestModels(parts[1..])
  }

  /** The root nodes of some snapshots, in order. */
  function RootModels(parts: seq<Shape>): (r: seq<PartModel>)
    ensures |r| == |parts|
    ensures forall i :: 0 <= i < |parts| ==> r[i] == parts[i].model
  {
    seq(|parts|, i requires 0 <= i < |parts| => parts[i].model)
  }

  /** The live graph below `s.model` is exactly `s`: each node's additional parts are the
      models of its snapshot children, in order. Only `additionalParts` is read, so
      re-parenting a node does not disturb a snapshot. */
  ghost predicate Describes(s: Shape)
    reads Models(s)`additionalParts
    decreases s
  {
    s.model.additionalParts == RootModels(s.parts) && DescribesAll(s.parts)
  }

  ghost predicate DescribesAll(parts: seq<Shape>)
    reads ForestModels(parts)`additionalParts
    decreases parts
  {
    parts != [] ==> Describes(parts[0]) && DescribesAll(parts[1..])
  }

  /** Every node below the root has as its parent the node whose additional part it is. */
  ghost predicate Parented(s: Shape)
    reads ForestModels(s.parts)`parent
    decreases s
  {
    ParentedAll(s.model, s.parts)
  }

  ghost predicate ParentedAll(parent: PartModel, parts: seq<Shape>)
    reads ForestModels(parts)`parent
    decreases parts
  {
    parts != [] ==>
      assert ForestModels(parts[0].parts) <= Models(parts[0]) <= ForestModels(parts);
      parts[0].model.parent == parent && Parented(parts[0]) && ParentedAll(parent, parts[1..])
  }

  /** A node is linked when its snapshot describes and parents the live graph and the node
      is not among its own descendants. */
  ghost predicate Linked(s: Shape)
    reads Models(s)`additionalParts, ForestModels(s.parts)`parent
  {
    Describes(s) && Parented(s) && s.model !in ForestModels(s.parts)
  }

  lemma {:induction false} ModelsAllocated(s: Shape)
    ensures forall o :: o in Models(s) ==> allocated(o)
    decreases s
  {
    ForestAllocated(s.parts);
  }

  lemma {:induction false} ForestAllocated(parts: seq<Shape>)
    ensures forall o :: o in ForestModels(parts) ==> allocated(o)
    decreases parts
  {
    if parts != [] {
      ModelsAllocated(parts[0]);
      ForestAllocated(parts[1..]);
    }
  }

  lemma {:induction false} ForestModelsSnoc(parts: seq<Shape>, c: Shape)
    ensures ForestModels(parts + [c]) == ForestModels(parts) + Models(c)
  {
    if parts == [] {
      assert parts + [c] == [c];
      assert [c][1..] == [];
    } else {
      assert (parts + [c])[1..] == parts[1..] + [c];
      ForestModelsSnoc(parts[1..], c);
    }
  }

  lemma {:induction false} DescribesAllSnoc(parts: seq<Shape>, c: Shape)
    requires DescribesAll(parts) && Describes(c)
    ensures DescribesAll(parts + [c])
  {
    if parts == [] {
      assert parts + [c] == [c];
      assert [c][1..] == [];
    } else {
      assert (parts + [c])[1..] == parts[1..] + [c];
      DescribesAllSnoc(parts[1..], c);
    }
  }

  lemma {:induction false} ParentedAllSnoc(parent: PartModel, parts: seq<Shape>, c: Shape)
    requires ParentedAll(parent, parts) && c.model.parent == parent && Parented(c)
    ensures ParentedAll(parent, parts + [c])
  {
    if parts == [] {
      assert parts + [c] == [c];
      assert [c][1..] == [];
    } else {
      assert (parts + [c])[1..] == parts[1..] + [c];
      ParentedAllSnoc(parent, parts[1..], c);
    }
  }

  /** Each child of a described forest is described, and its nodes belong to the forest. */
  lemma {:induction false} DescribesAllAt(parts: seq<Shape>, i: nat)
    requires DescribesAll(parts) && i < |parts|
    ensures Describes(parts[i]) && Models(parts[i]) <= ForestModels(parts)
  {
    if i > 0 {
      DescribesAllAt(parts[1..], i - 1);
    }
  }

  /** A live graph has at most one snapshot. */
  lemma {:induction false} DescribesUnique(s: Shape, t: Shape)
    requires Describes(s) && Describes(t) && s.model == t.model
    ensures s == t
    decreases s
  {
    assert |s.parts| == |t.parts|;
    forall i | 0 <= i < |s.parts| ensures s.parts[i] == t.parts[i] {
      DescribesAllAt(s.parts, i);
      DescribesAllAt(t.parts, i);
      DescribesUnique(s.parts[i], t.parts[i]);
    }
  }

  /** AddAdditionalPartModel on snapshots: linking a linked subtree under a linked node,
      when neither contains the other's root, keeps the whole linked. */
  method Link(model: PartModel, ghost parts: seq<Shape>, part: PartModel, ghost c: Shape)
    requires c.model == part
    requires Linked(Shape(model, parts)) && Linked(c)
    requires model !in Models(c) && part !in Models(Shape(model, parts))
    modifies model`additionalParts, part`parent
    ensures Linked(Shape(model, parts + [c]))
  {
    ModelsAllocated(Shape(model, parts));
    ModelsAllocated(c);
    model.AddAdditionalPartModel(part);
    assert DescribesAll(parts) && ParentedAll(model, parts);
    assert Describes(c) && Parented(c);
    DescribesAllSnoc(parts, c);
    ParentedAllSnoc(model, parts, c);
    ForestModelsSnoc(parts, c);
  }

  /** Reads the live graph below `m` into a value; the ghost snapshot only bounds the walk. */
  method Snapshot(m: PartModel, ghost s: Shape) returns (t: Shape)
    requires Describes(s) && s.model == m
    ensures t == s
    decreases s
  {
    var parts := m.additionalParts;
    var children: seq<Shape> := [];
    ModelsAllocated(s);
    for i := 0 to |parts|
      invariant children == s.parts[..i]
      invariant Describes(s) && parts == m.additionalParts
    {
      DescribesAllAt(s.parts, i);
      var child := Snapshot(parts[i], s.parts[i]);
      children := children + [child];
    }
    assert s.parts[..|parts|] == s.parts;
    t := Shape(m, children);
  }

  /** The assemblies of a snapshot in pre-order: a node, then each child's subtree in turn. */
  function PreOrder(s: Shape): (r: seq<AssemblyId>)
    ensures |r| >= 1 && r[0] == s.model.assembly
    decreases s
  {
    [s.model.assembly] + ForestOrder(s.parts)
  }

  /** The pre-orders of some snapshots, one after another. */
  function ForestOrder(parts: seq<Shape>): (r: seq<AssemblyId>)
    decreases parts
  {
    if parts == [] then [] else PreOrder(parts[0]) + ForestOrder(parts[1..])
  }

  /** The assemblies of the roots of some snapshots. */
  function ChildAssemblies(parts: seq<Shape>): (r: seq<AssemblyId>)
    ensures |r| == |parts|
    ensures forall i :: 0 <= i < |parts| ==> r[i] == parts[i].model.assembly
  {
    seq(|parts|, i requires 0 <= i < |parts| => parts[i].model.assembly)
  }

  /** The children a node gains past its first `|parts|`. */
  lemma CompanionSlot(parts: seq<Shape>, grown: seq<Shape>)
    requires |parts| <= |grown| <= |parts| + 1 && grown[..|parts|] == parts
    ensures |grown| == |parts| ==> ChildAssemblies(grown)[|parts|..] == []
    ensures |grown| == |parts| + 1 ==> ChildAssemblies(grown)[|parts|..] == [grown[|parts|].model.assembly]
  {
  }

  lemma {:induction false} ForestOrderSnoc(parts: seq<Shape>, s: Shape)
    ensures ForestOrder(parts + [s]) == ForestOrder(parts) + PreOrder(s)
  {
    if parts == [] {
      assert parts + [s] == [s];
    } else {
      assert (parts + [s])[1..] == parts[1..] + [s];
      ForestOrderSnoc(parts[1..], s);
    }
  }

  // ---------------------------------------------------------------------------------------
  // Resolution.

  /** Whether the companion probe runs: no declared additional parts, or a configure
      attribute present. */
  predicate ProbesForCompanion(attributes: seq<Attribute>) {
    |AdditionalPartNames(attributes)| == 0 || ConfigureDeclarations(attributes) != []
  }

  /** The companion views assembly a resolution adds after the declared parts, if any. */
  function CompanionChildren(runtime: Runtime, assembly: AssemblyId): (r: seq<AssemblyId>)
    requires assembly in runtime.assemblies
    ensures |r| <= 1
  {
    var companion := CompanionAssembly(runtime, assembly);
    if ProbesForCompanion(runtime.assemblies[assembly].attributes) && companion.Some? then [companion.value] else []
  }

  /** `ids` are what the assembly names load as, one for one. */
  ghost predicate LoadedAs(runtime: Runtime, names: seq<string>, ids: seq<AssemblyId>) {
    && |names| == |ids|
    && forall i :: 0 <= i < |names| ==> names[i] in runtime.byName && ids[i] == runtime.byName[names[i]]
  }

  /** The children a resolution gives an assembly: its declared additional parts, loaded by
      name, in attribute order, then the companion views assembly when the probe runs and
      finds one. */
  ghost predicate ResolvedChildren(runtime: Runtime, assembly: AssemblyId, children: seq<AssemblyId>)
    requires assembly in runtime.assemblies
  {
    var declared := AdditionalPartNames(runtime.assemblies[assembly].attributes);
    && |declared| <= |children|
    && LoadedAs(runtime, declared, children[..|declared|])
    && children[|declared|..] == CompanionChildren(runtime, assembly)
  }

  /** Every node of the snapshot carries its assembly's name and attributes and has the
      children resolution gives that assembly. */
  ghost predicate Resolved(runtime: Runtime, s: Shape)
    decreases s
  {
    var a := s.model.assembly;
    && a in runtime.assemblies
    && s.model.name == runtime.assemblies[a].name
    && s.model.attributes == runtime.assemblies[a].attributes
    && ResolvedChildren(runtime, a, ChildAssemblies(s.parts))
    && ResolvedAll(runtime, s.parts)
  }

  ghost predicate ResolvedAll(runtime: Runtime, parts: seq<Shape>)
    decreases parts
  {
    parts != [] ==> Resolved(runtime, parts[0]) && ResolvedAll(runtime, parts[1..])
  }

  lemma {:induction false} ResolvedAllSnoc(runtime: Runtime, parts: seq<Shape>, c: Shape)
    requires ResolvedAll(runtime, parts) && Resolved(runtime, c)
    ensures ResolvedAll(runtime, parts + [c])
  {
    if parts == [] {
      assert parts + [c] == [c];
      assert [c][1..] == [];
    } else {
      assert (parts + [c])[1..] == parts[1..] + [c];
      ResolvedAllSnoc(runtime, parts[1..], c);
    }
  }

  lemma {:induction false} ResolvedAllAt(runtime: Runtime, parts: seq<Shape>, i: nat)
    requires ResolvedAll(runtime, parts) && i < |parts|
    ensures Resolved(runtime, parts[i])
  {
    if i > 0 {
      ResolvedAllAt(runtime, parts[1..], i - 1);
    }
  }

  lemma LoadedAsSnoc(runtime: Runtime, names: seq<string>, i: nat, parts: seq<Shape>, grown: seq<Shape>)
    requires i < |names| && names[i] in runtime.byName
    requires LoadedAs(runtime, names[..i], ChildAssemblies(parts))
    requires |grown| == |parts| + 1 && grown == parts + [grown[|parts|]]
    requires grown[|parts|].model.assembly == runtime.byName[names[i]]
    ensures LoadedAs(runtime, names[..i + 1], ChildAssemblies(grown))
  {
    assert names[..i + 1] == names[..i] + [names[i]];
  }

  /** Resolution is deterministic: the assemblies of a resolved tree, in pre-order, depend
      only on the runtime and the root assembly. */
  lemma {:induction false} ResolvedDetermined(runtime: Runtime, s: Shape, t: Shape)
    requires Resolved(runtime, s) && Resolved(runtime, t) && s.model.assembly == t.model.assembly
    ensures PreOrder(s) == PreOrder(t)
  {
    OutlineOfResolved(runtime, s);
    OutlineOfResolved(runtime, t);
    OutlineDetermined(runtime, OutlineOf(s), OutlineOf(t));
  }

  /** Closes a node: its declared children loaded, then its companion, all resolved. */
  lemma ResolvedNode(runtime: Runtime, m: PartModel, declaredParts: seq<Shape>, parts: seq<Shape>)
    requires m.assembly in runtime.assemblies
    requires m.name == runtime.assemblies[m.assembly].name
    requires m.attributes == runtime.assemblies[m.assembly].attributes
    requires LoadedAs(runtime, AdditionalPartNames(m.attributes), ChildAssemblies(declaredParts))
    requires |declaredParts| <= |parts| && parts[..|declaredParts|] == declaredParts
    requires ChildAssemblies(parts)[|declaredParts|..] == CompanionChildren(runtime, m.assembly)
    requires ResolvedAll(runtime, parts)
    ensures Resolved(runtime, Shape(m, parts))
  {
    assert ChildAssemblies(parts)[..|declaredParts|] == ChildAssemblies(declaredParts);
  }

  // ---------------------------------------------------------------------------------------
  // Outlines: what a resolution must build, as a value.

  /** The assemblies of a tree of part models, without the models. Unlike a snapshot, an
      outline is a plain value: it exists whether or not any model has been allocated. */
  datatype Outline = Outline(assembly: AssemblyId, parts: seq<Outline>)

  function OutlineOf(s: Shape): (o: Outline)
    ensures o.assembly == s.model.assembly && |o.parts| == |s.parts|
    decreases s
  {
    Outline(s.model.assembly, OutlinesOf(s.parts))
  }

  function OutlinesOf(parts: seq<Shape>): (r: seq<Outline>)
    ensures |r| == |parts|
    ensures forall i :: 0 <= i < |parts| ==> r[i].assembly == parts[i].model.assembly
    decreases parts
  {
    seq(|parts|, i requires 0 <= i < |parts| => OutlineOf(parts[i]))
  }

  /** The assemblies of an outline in pre-order. */
  function OutlineOrder(o: Outline): (r: seq<AssemblyId>)
    ensures |r| >= 1 && r[0] == o.assembly
    decreases o
  {
    [o.assembly] + OutlinesOrder(o.parts)
  }

  function OutlinesOrder(os: seq<Outline>): (r: seq<AssemblyId>)
    decreases os
  {
    if os == [] then [] else OutlineOrder(os[0]) + OutlinesOrder(os[1..])
  }

  /** The assemblies of the roots of some outlines. */
  function Roots(os: seq<Outline>): (r: seq<AssemblyId>)
    ensures |r| == |os|
    ensures forall i :: 0 <= i < |os| ==> r[i] == os[i].assembly
  {
    seq(|os|, i requires 0 <= i < |os| => os[i].assembly)
  }

  /** Every assembly of the outline has the children resolution gives it. */
  ghost predicate ResolvedOutline(runtime: Runtime, o: Outline)
    decreases o
  {
    && o.assembly in runtime.assemblies
    && ResolvedChildren(runtime, o.assembly, Roots(o.parts))
    && forall i :: 0 <= i < |o.parts| ==> ResolvedOutline(runtime, o.parts[i])
  }

  /** A resolved snapshot has a resolved outline, with the same pre-order. */
  lemma {:induction false} OutlineOfResolved(runtime: Runtime, s: Shape)
    requires Resolved(runtime, s)
    ensures ResolvedOutline(runtime, OutlineOf(s))
    ensures OutlineOrder(OutlineOf(s)) == PreOrder(s)
    decreases s, 0
  {
    OutlinesOfResolved(runtime, s.parts, |s.parts|);
    assert s.parts[..|s.parts|] == s.parts;
    assert OutlinesOf(s.parts)[..|s.parts|] == OutlinesOf(s.parts);
    assert Roots(OutlinesOf(s.parts)) == ChildAssemblies(s.parts);
  }

  /** The first `n` of some resolved snapshots: their outlines are resolved and have the
      snapshots' pre-order. */
  lemma {:induction false} OutlinesOfResolved(runtime: Runtime, parts: seq<Shape>, n: nat)
    requires ResolvedAll(runtime, parts) && n <= |parts|
    ensures forall i :: 0 <= i < n ==> ResolvedOutline(runtime, OutlinesOf(parts)[i])
    ensures OutlinesOrder(OutlinesOf(parts)[..n]) == ForestOrder(parts[..n])
    decreases parts, n
  {
    if n > 0 {
      var os := OutlinesOf(parts);
      OutlinesOfResolved(runtime, parts, n - 1);
      ResolvedAllAt(runtime, parts, n - 1);
      OutlineOfResolved(runtime, parts[n - 1]);
      TakeSnoc(parts, n - 1);
      TakeSnoc(os, n - 1);
      ForestOrderSnoc(parts[..n - 1], parts[n - 1]);
      OutlinesOrderSnoc(os[..n - 1], os[n - 1]);
    }
  }

  lemma {:induction false} OutlinesOrderSnoc(os: seq<Outline>, o: Outline)
    ensures OutlinesOrder(os + [o]) == OutlinesOrder(os) + OutlineOrder(o)
    decreases |os|
  {
    if os == [] {
      assert os + [o] == [o];
    } else {
      assert (os + [o])[1..] == os[1..] + [o];
      OutlinesOrderSnoc(os[1..], o);
    }
  }

  lemma {:induction false} OutlinesOrderAppend(os: seq<Outline>, ps: seq<Outline>)
    ensures OutlinesOrder(os + ps) == OutlinesOrder(os) + OutlinesOrder(ps)
    decreases |os|
  {
    if os == [] {
      assert os + ps == ps;
    } else {
      assert (os + ps)[1..] == os[1..] + ps;
      OutlinesOrderAppend(os[1..], ps);
    }
  }

  /** The pre-order of some outlines around the one at `i`. */
  lemma {:induction false} OutlinesOrderAt(os: seq<Outline>, i: nat)
    requires i < |os|
    ensures OutlinesOrder(os) == OutlinesOrder(os[..i]) + OutlineOrder(os[i]) + OutlinesOrder(os[i + 1..])
  {
    var rest := os[i..];
    assert os == os[..i] + rest;
    OutlinesOrderAppend(os[..i], rest);
    assert rest[0] == os[i] && rest[1..] == os[i + 1..];
  }

  /** Resolution is deterministic on outlines: the pre-order of a resolved outline depends
      only on the runtime and its root assembly. */
  lemma {:induction false} OutlineDetermined(runtime: Runtime, o: Outline, p: Outline)
    requires ResolvedOutline(runtime, o) && ResolvedOutline(runtime, p) && o.assembly == p.assembly
    ensures OutlineOrder(o) == OutlineOrder(p)
    decreases o, 1
  {
    var declared := AdditionalPartNames(runtime.assemblies[o.assembly].attributes);
    var co, cp := Roots(o.parts), Roots(p.parts);
    assert co == co[..|declared|] + co[|declared|..];
    assert cp == cp[..|declared|] + cp[|declared|..];
    assert co[..|declared|] == cp[..|declared|];
    OutlinesDetermined(runtime, o, o.parts, p.parts);
  }

  /** Resolved outlines with the same roots have the same pre-order. */
  lemma {:induction false} OutlinesDetermined(runtime: Runtime, o: Outline, os: seq<Outline>, ps: seq<Outline>)
    requires forall i :: 0 <= i < |os| ==> os[i] < o
    requires forall i :: 0 <= i < |os| ==> ResolvedOutline(runtime, os[i])
    requires forall i :: 0 <= i < |ps| ==> ResolvedOutline(runtime, ps[i])
    requires Roots(os) == Roots(ps)
    ensures OutlinesOrder(os) == OutlinesOrder(ps)
    decreases o, 0, |os|
  {
    if os != [] {
      assert os[0].assembly == ps[0].assembly;
      assert Roots(os[1..]) == Roots(ps[1..]);
      OutlineDetermined(runtime, os[0], ps[0]);
      OutlinesDetermined(runtime, o, os[1..], ps[1..]);
    }
  }

  /** An outline resolution can build from its root while the assemblies of `avoid` are
      already visited: resolved, naming each assembly once, and none of them in `avoid`. */
  ghost predicate Resolvable(runtime: Runtime, t: Outline, avoid: set<AssemblyId>) {
    && ResolvedOutline(runtime, t)
    && NoDuplicates(OutlineOrder(t))
    && forall x :: x in OutlineOrder(t) ==> x !in avoid
  }

  /** A fresh resolution from `a` has an outline to build: one naming no assembly twice. */
  ghost predicate CanResolve(runtime: Runtime, a: AssemblyId) {
    exists t: Outline :: t.assembly == a && Resolvable(runtime, t, {})
  }

  /** Some assembly of the runtime declares an additional part named `name`. */
  ghost predicate DeclaredPart(runtime: Runtime, name: string) {
    exists a :: a in runtime.assemblies && name in AdditionalPartNames(runtime.assemblies[a].attributes)
  }

  /** The first `n` of `names` load by name. */
  ghost predicate LoadsUpTo(runtime: Runtime, names: seq<string>, n: nat) {
    forall j :: 0 <= j < n && j < |names| ==> names[j] in runtime.byName
  }

  /** `c` is a child that a resolution of `a` goes on to resolve: a declared additional part
      whose name, like every name declared before it, loads; or, once every declared name
      has loaded, the companion views assembly. */
  ghost predicate ChildOf(runtime: Runtime, a: AssemblyId, c: AssemblyId) {
    && a in runtime.assemblies
    && var declared := AdditionalPartNames(runtime.assemblies[a].attributes);
       || (exists i :: 0 <= i < |declared| && LoadsUpTo(runtime, declared, i + 1) &&
                       declared[i] in runtime.byName && c == runtime.byName[declared[i]])
       || (LoadsUpTo(runtime, declared, |declared|) && c in CompanionChildren(runtime, a))
  }

  /** `name` is the first declared additional part of `a` that Assembly.Load cannot find. */
  ghost predicate FirstUnloadable(runtime: Runtime, a: AssemblyId, name: string) {
    && a in runtime.assemblies
    && var declared := AdditionalPartNames(runtime.assemblies[a].attributes);
       exists i :: 0 <= i < |declared| && declared[i] == name && name !in runtime.byName && LoadsUpTo(runtime, declared, i)
  }

  /** Resolution from `a` reaches, `depth` children down, an assembly whose first declared
      part that does not load is `name`. */
  ghost predicate UnloadableBelow(runtime: Runtime, a: AssemblyId, name: string, depth: nat)
    decreases depth
  {
    if depth == 0 then FirstUnloadable(runtime, a, name)
    else exists c :: ChildOf(runtime, a, c) && UnloadableBelow(runtime, c, name, depth - 1)
  }

  ghost predicate ReachesUnloadable(runtime: Runtime, a: AssemblyId, name: string) {
    exists depth: nat :: UnloadableBelow(runtime, a, name, depth)
  }

  /** The children a resolution of `a` has got through so far: the first of the children
      resolution gives it, in order. */
  ghost predicate ChildrenSoFar(runtime: Runtime, a: AssemblyId, children: seq<AssemblyId>)
    requires a in runtime.assemblies
  {
    var declared := AdditionalPartNames(runtime.assemblies[a].attributes);
    if |children| <= |declared| then LoadedAs(runtime, declared[..|children|], children)
    else LoadedAs(runtime, declared, children[..|declared|]) && children[|declared|..] == CompanionChildren(runtime, a)
  }

  /** A partial outline: every node has some of the first children resolution gives it, in
      order, each itself partial. It does not say that earlier subtrees were finished. */
  ghost predicate Explored(runtime: Runtime, o: Outline)
    decreases o
  {
    && o.assembly in runtime.assemblies
    && ChildrenSoFar(runtime, o.assembly, Roots(o.parts))
    && forall i :: 0 <= i < |o.parts| ==> Explored(runtime, o.parts[i])
  }

  /** Exploring `t` reaches some assembly twice, or reaches one of `avoid`. */
  ghost predicate RepeatsIn(runtime: Runtime, t: Outline, avoid: set<AssemblyId>) {
    && Explored(runtime, t)
    && (!NoDuplicates(OutlineOrder(t)) || exists x :: x in OutlineOrder(t) && x in avoid)
  }

  /** A resolution from `a`, with the assemblies of `avoid` already visited, can reach an
      assembly a second time: by a cycle, by two paths, or back into `avoid`. */
  ghost predicate ReachedTwice(runtime: Runtime, a: AssemblyId, avoid: set<AssemblyId>) {
    exists t: Outline :: t.assembly == a && RepeatsIn(runtime, t, avoid)
  }

  /** The errors a resolution from `a` can raise while `avoid` is visited, each with a cause it
      can reach: Recursion when a partial outline reaches an assembly a second time, or the load
      failure of the first unloadable declared part of a reachable assembly. Which of these is
      raised is decided by `Outcome`. */
  ghost predicate FailureCause(runtime: Runtime, a: AssemblyId, avoid: set<AssemblyId>, e: Error) {
    || (e.Recursion? && ReachedTwice(runtime, a, avoid))
    || (e.AssemblyLoadFailure? && ReachesUnloadable(runtime, a, e.assemblyName))
  }

  /** The errors a fresh resolution from `root` raises. */
  ghost predicate ResolutionError(runtime: Runtime, root: AssemblyId, e: Error) {
    FailureCause(runtime, root, {}, e)
  }

  /** Some resolved outline, naming assemblies twice or not, starts at `a`. */
  ghost predicate HasOutline(runtime: Runtime, a: AssemblyId) {
    exists t: Outline :: t.assembly == a && ResolvedOutline(runtime, t)
  }

  /** The name of a load failure is one Assembly.Load cannot find, declared as an additional
      part by some assembly of the runtime. */
  lemma {:induction false} UnloadableIsDeclared(runtime: Runtime, a: AssemblyId, name: string, depth: nat)
    requires UnloadableBelow(runtime, a, name, depth)
    ensures name !in runtime.byName && DeclaredPart(runtime, name)
    decreases depth
  {
    if depth == 0 {
      var declared := AdditionalPartNames(runtime.assemblies[a].attributes);
      var i :| 0 <= i < |declared| && declared[i] == name && name !in runtime.byName && LoadsUpTo(runtime, declared, i);
      assert name in AdditionalPartNames(runtime.assemblies[a].attributes);
    } else {
      var c :| ChildOf(runtime, a, c) && UnloadableBelow(runtime, c, name, depth - 1);
      UnloadableIsDeclared(runtime, c, name, depth - 1);
    }
  }

  /** A load failure a resolution from a child reaches, a resolution from its parent reaches. */
  lemma UnloadableFromChild(runtime: Runtime, a: AssemblyId, c: AssemblyId, name: string)
    requires ChildOf(runtime, a, c) && ReachesUnloadable(runtime, c, name)
    ensures ReachesUnloadable(runtime, a, name)
  {
    var depth: nat :| UnloadableBelow(runtime, c, name, depth);
    assert UnloadableBelow(runtime, a, name, depth + 1);
  }

  /** The next child a resolution gets through is a child it goes on to resolve. */
  lemma NextChild(runtime: Runtime, a: AssemblyId, children: seq<AssemblyId>, c: AssemblyId)
    requires a in runtime.assemblies && ChildrenSoFar(runtime, a, children + [c])
    ensures ChildOf(runtime, a, c)
  {
    var declared := AdditionalPartNames(runtime.assemblies[a].attributes);
    var grown := children + [c];
    var i := |children|;
    if i < |declared| {
      forall j | 0 <= j < i + 1 ensures declared[j] in runtime.byName {
        assert declared[..i + 1][j] == declared[j];
      }
      assert declared[..i + 1][i] == declared[i] && grown[i] == c;
      assert LoadsUpTo(runtime, declared, i + 1);
    } else {
      assert grown[|declared|..][|grown[|declared|..]| - 1] == c;
      assert LoadsUpTo(runtime, declared, |declared|);
    }
  }

  /** A resolved outline is explored through: every node has all its children. */
  lemma {:induction false} ResolvedIsExplored(runtime: Runtime, o: Outline)
    requires ResolvedOutline(runtime, o)
    ensures Explored(runtime, o)
    decreases o
  {
    var declared := AdditionalPartNames(runtime.assemblies[o.assembly].attributes);
    var roots := Roots(o.parts);
    if |roots| <= |declared| {
      assert roots[..|declared|] == roots;
    }
    forall i | 0 <= i < |o.parts| ensures Explored(runtime, o.parts[i]) {
      ResolvedIsExplored(runtime, o.parts[i]);
    }
  }

  /** A node with resolved children `parts`, whose next child's exploration `tc` reaches an
      assembly twice or one visited, counting the node and `parts` as visited: exploring the
      node reaches an assembly twice or one of `start`. */
  lemma RepeatUnderChild(runtime: Runtime, a: AssemblyId, start: set<AssemblyId>, parts: seq<Shape>, tc: Outline)
    requires a in runtime.assemblies && ResolvedAll(runtime, parts)
    requires ChildrenSoFar(runtime, a, ChildAssemblies(parts) + [tc.assembly])
    requires RepeatsIn(runtime, tc, start + Elems([a] + ForestOrder(parts)))
    ensures RepeatsIn(runtime, Outline(a, OutlinesOf(parts) + [tc]), start)
  {
    var t := Outline(a, OutlinesOf(parts) + [tc]);
    ExploredUnder(runtime, a, parts, tc);
    OrderUnder(runtime, a, parts, tc);
    var head := [a] + ForestOrder(parts);
    var c := OutlineOrder(tc);
    if NoDuplicates(head + c) {
      NoDuplicatesSplit(head, c);
      var x :| x in c && x in start + Elems(head);
      assert x in start;
      assert x in OutlineOrder(t);
    }
  }

  /** The pre-order of a node with resolved children `parts` and a further child `tc`: the
      node, the children's pre-order, then `tc`'s. */
  lemma OrderUnder(runtime: Runtime, a: AssemblyId, parts: seq<Shape>, tc: Outline)
    requires ResolvedAll(runtime, parts)
    ensures OutlineOrder(Outline(a, OutlinesOf(parts) + [tc])) == [a] + ForestOrder(parts) + OutlineOrder(tc)
  {
    ResolvedOutlines(runtime, parts);
    OutlinesOrderSnoc(OutlinesOf(parts), tc);
  }

  /** A node with resolved children `parts` and a further explored child `tc` is explored. */
  lemma ExploredUnder(runtime: Runtime, a: AssemblyId, parts: seq<Shape>, tc: Outline)
    requires a in runtime.assemblies && ResolvedAll(runtime, parts) && Explored(runtime, tc)
    requires ChildrenSoFar(runtime, a, ChildAssemblies(parts) + [tc.assembly])
    ensures Explored(runtime, Outline(a, OutlinesOf(parts) + [tc]))
  {
    var os := OutlinesOf(parts);
    ResolvedOutlines(runtime, parts);
    assert Roots(os + [tc]) == ChildAssemblies(parts) + [tc.assembly];
    forall i | 0 <= i < |os| + 1 ensures Explored(runtime, (os + [tc])[i]) {
      if i < |os| {
        ResolvedIsExplored(runtime, os[i]);
      }
    }
  }

  /** The outlines of resolved snapshots are resolved and have the snapshots' pre-order. */
  lemma ResolvedOutlines(runtime: Runtime, parts: seq<Shape>)
    requires ResolvedAll(runtime, parts)
    ensures forall i :: 0 <= i < |parts| ==> ResolvedOutline(runtime, OutlinesOf(parts)[i])
    ensures OutlinesOrder(OutlinesOf(parts)) == ForestOrder(parts)
  {
    OutlinesOfResolved(runtime, parts, |parts|);
    assert parts[..|parts|] == parts && OutlinesOf(parts)[..|parts|] == OutlinesOf(parts);
  }

  /** A resolution from a node's next child that can reach an assembly a second time, with the
      node and its resolved children `parts` visited besides `start`: a resolution from the
      node can, with `start` visited. */
  lemma RecursionUnderChild(runtime: Runtime, m: PartModel, start: set<AssemblyId>, visited: set<AssemblyId>,
                            parts: seq<Shape>, child: AssemblyId)
    requires m.assembly in runtime.assemblies && ResolvedAll(runtime, parts)
    requires VisitedOnce(visited, Shape(m, parts), start)
    requires ChildrenSoFar(runtime, m.assembly, ChildAssemblies(parts) + [child])
    requires ReachedTwice(runtime, child, visited)
    ensures ReachedTwice(runtime, m.assembly, start)
  {
    ExactlyVisited(visited, Shape(m, parts), start);
    assert PreOrder(Shape(m, parts)) == [m.assembly] + ForestOrder(parts);
    var tc: Outline :| tc.assembly == child && RepeatsIn(runtime, tc, visited);
    RepeatUnderChild(runtime, m.assembly, start, parts, tc);
  }

  /** An assembly whose first declared additional part does not load: its resolution reaches
      nothing twice, so the only error it may raise is that load failure. */
  lemma UnloadableFirstPart(runtime: Runtime, a: AssemblyId)
    requires a in runtime.assemblies
    requires var declared := AdditionalPartNames(runtime.assemblies[a].attributes);
      |declared| > 0 && declared[0] !in runtime.byName
    ensures !ResolutionError(runtime, a, Recursion)
    ensures ResolutionError(runtime, a, AssemblyLoadFailure(AdditionalPartNames(runtime.assemblies[a].attributes)[0]))
  {
    var declared := AdditionalPartNames(runtime.assemblies[a].attributes);
    forall t: Outline | t.assembly == a && Explored(runtime, t) ensures t.parts == [] {
      assert |Roots(t.parts)| == |t.parts|;
    }
    forall t: Outline | t.assembly == a && Explored(runtime, t) ensures !RepeatsIn(runtime, t, {}) {
      assert OutlineOrder(t) == [a];
    }
    assert LoadsUpTo(runtime, declared, 0);
    assert UnloadableBelow(runtime, a, declared[0], 0);
  }

  /** A node already visited: exploring it reaches a visited assembly at once. */
  lemma VisitedAgain(runtime: Runtime, a: AssemblyId, avoid: set<AssemblyId>)
    requires a in runtime.assemblies && a in avoid
    ensures ReachedTwice(runtime, a, avoid)
  {
    var t := Outline(a, []);
    assert Roots(t.parts) == [];
    assert a in OutlineOrder(t);
    assert RepeatsIn(runtime, t, avoid);
  }

  /** A child that a resolution goes on to resolve is a root of every resolved outline. */
  lemma ChildInOutline(runtime: Runtime, t: Outline, c: AssemblyId)
    requires ResolvedOutline(runtime, t) && ChildOf(runtime, t.assembly, c)
    ensures exists k :: 0 <= k < |t.parts| && t.parts[k].assembly == c
  {
    var declared := AdditionalPartNames(runtime.assemblies[t.assembly].attributes);
    var roots := Roots(t.parts);
    if exists i :: 0 <= i < |declared| && LoadsUpTo(runtime, declared, i + 1) &&
                   declared[i] in runtime.byName && c == runtime.byName[declared[i]] {
      var i :| 0 <= i < |declared| && LoadsUpTo(runtime, declared, i + 1) &&
               declared[i] in runtime.byName && c == runtime.byName[declared[i]];
      assert roots[..|declared|][i] == roots[i];
      assert t.parts[i].assembly == c;
    } else {
      assert roots[|declared|..][0] == roots[|declared|];
      assert t.parts[|declared|].assembly == c;
    }
  }

  /** A resolved outline loads every declared name that resolution reaches below its root. */
  lemma {:induction false} OutlineLoadsBelow(runtime: Runtime, t: Outline, name: string, depth: nat)
    ensures ResolvedOutline(runtime, t) ==> !UnloadableBelow(runtime, t.assembly, name, depth)
    decreases depth
  {
    if ResolvedOutline(runtime, t) {
      var a := t.assembly;
      var declared := AdditionalPartNames(runtime.assemblies[a].attributes);
      var roots := Roots(t.parts);
      if depth == 0 {
        forall i | 0 <= i < |declared| ensures declared[i] in runtime.byName {
          assert declared[i] == declared[..|declared|][i];
        }
      } else {
        forall c | ChildOf(runtime, a, c) ensures !UnloadableBelow(runtime, c, name, depth - 1) {
          ChildInOutline(runtime, t, c);
          var k :| 0 <= k < |t.parts| && t.parts[k].assembly == c;
          OutlineLoadsBelow(runtime, t.parts[k], name, depth - 1);
        }
      }
    }
  }

  /** When some resolved outline starts at `a`, a resolution from `a` can fail only with
      Recursion: every declared name it reaches loads. */
  lemma OutlineMeansRecursion(runtime: Runtime, a: AssemblyId, avoid: set<AssemblyId>, e: Error)
    requires FailureCause(runtime, a, avoid, e) && HasOutline(runtime, a)
    ensures e.Recursion?
  {
    var t: Outline :| t.assembly == a && ResolvedOutline(runtime, t);
    if e.AssemblyLoadFailure? {
      var depth: nat :| UnloadableBelow(runtime, a, e.assemblyName, depth);
      OutlineLoadsBelow(runtime, t, e.assemblyName, depth);
      assert false;
    }
  }

  /** One step of the declared-parts loop of `a`: a name that does not load, after `i` that
      do, is the first unloadable one; a name that loads names a child of `a`. */
  lemma DeclaredStep(runtime: Runtime, a: AssemblyId, declared: seq<string>, i: nat, ids: seq<AssemblyId>)
    requires a in runtime.assemblies && declared == AdditionalPartNames(runtime.assemblies[a].attributes)
    requires i < |declared| && LoadedAs(runtime, declared[..i], ids)
    ensures declared[i] !in runtime.byName ==> UnloadableBelow(runtime, a, declared[i], 0)
    ensures declared[i] in runtime.byName ==> ChildrenSoFar(runtime, a, ids + [runtime.byName[declared[i]]])
  {
    forall j | 0 <= j < i ensures declared[j] in runtime.byName {
      assert declared[..i][j] == declared[j];
    }
    assert LoadsUpTo(runtime, declared, i);
    if declared[i] in runtime.byName {
      assert declared[..i + 1] == declared[..i] + [declared[i]];
    }
  }

  /** After every declared name of `a` has loaded, the companion probe's find is a child of `a`. */
  lemma CompanionStep(runtime: Runtime, a: AssemblyId, ids: seq<AssemblyId>)
    requires a in runtime.assemblies
    requires LoadedAs(runtime, AdditionalPartNames(runtime.assemblies[a].attributes), ids)
    requires ProbesForCompanion(runtime.assemblies[a].attributes) && CompanionAssembly(runtime, a).Some?
    ensures ChildrenSoFar(runtime, a, ids + [CompanionAssembly(runtime, a).value])
  {
    var grown := ids + [CompanionAssembly(runtime, a).value];
    var declared := AdditionalPartNames(runtime.assemblies[a].attributes);
    assert grown[..|declared|] == ids && grown[|declared|..] == [CompanionAssembly(runtime, a).value];
  }

  /** The root of an outline resolution can build is not yet visited. */
  lemma RootNotAvoided(runtime: Runtime, avoid: set<AssemblyId>)
    ensures forall t :: Resolvable(runtime, t, avoid) ==> t.assembly !in avoid
  {
    forall t | Resolvable(runtime, t, avoid) ensures t.assembly !in avoid {
      assert OutlineOrder(t)[0] in OutlineOrder(t);
    }
  }

  /** The child `i` of an outline naming each assembly once, outside `start`, names each
      assembly once, outside `start`, the root and the children before it. */
  lemma {:induction false} SubtreeOrder(t: Outline, start: set<AssemblyId>, i: nat)
    requires i < |t.parts|
    requires NoDuplicates(OutlineOrder(t)) && forall x :: x in OutlineOrder(t) ==> x !in start
    ensures NoDuplicates(OutlineOrder(t.parts[i]))
    ensures forall x :: x in OutlineOrder(t.parts[i]) ==>
      x !in start + Elems([t.assembly] + OutlinesOrder(t.parts[..i]))
  {
    OutlinesOrderAt(t.parts, i);
    var head := [t.assembly] + OutlinesOrder(t.parts[..i]);
    var c := OutlineOrder(t.parts[i]);
    var tail := OutlinesOrder(t.parts[i + 1..]);
    assert OutlineOrder(t) == head + c + tail;
    NoDuplicatesSplit(head + c, tail);
    NoDuplicatesSplit(head, c);
    forall x | x in c ensures x !in start + Elems(head) {
      assert x in OutlineOrder(t);
    }
  }

  /** Once a node has children resolved like the first `i` children of an outline
      resolution can build for it, the outline's child `i` is in turn one resolution can build
      for that child, with the node and its first children visited. */
  lemma {:induction false} WitnessChild(runtime: Runtime, t: Outline, start: set<AssemblyId>, parts: seq<Shape>, i: nat)
    requires Resolvable(runtime, t, start) && i < |t.parts|
    requires ResolvedAll(runtime, parts) && ChildAssemblies(parts) == Roots(t.parts)[..i]
    ensures Resolvable(runtime, t.parts[i], start + Elems([t.assembly] + ForestOrder(parts)))
  {
    OutlinesOfResolved(runtime, parts, |parts|);
    assert parts[..|parts|] == parts;
    var os := OutlinesOf(parts);
    assert os[..|parts|] == os;
    assert Roots(os) == Roots(t.parts[..i]);
    OutlinesDetermined(runtime, t, t.parts[..i], os);
    SubtreeOrder(t, start, i);
  }

  /** Two loads of the same names give the same assemblies. */
  lemma {:induction false} LoadedAsPrefix(runtime: Runtime, names: seq<string>, i: nat, ids: seq<AssemblyId>, all: seq<AssemblyId>)
    requires i <= |names| <= |all|
    requires LoadedAs(runtime, names[..i], ids) && LoadedAs(runtime, names, all[..|names|])
    ensures ids == all[..i]
  {
  }

  /** The declared child `i` of a node `m`, given an outline `t` resolution can build for it:
      the child's name loads, and the outline's child `i` is one resolution can build for it
      with the node and its first children visited. */
  lemma {:induction false} DeclaredWitness(runtime: Runtime, t: Outline, start: set<AssemblyId>, visited: set<AssemblyId>,
                                           m: PartModel, declared: seq<string>, parts: seq<Shape>, i: nat)
    requires Resolvable(runtime, t, start) && t.assembly in runtime.assemblies && m.assembly == t.assembly
    requires declared == AdditionalPartNames(runtime.assemblies[t.assembly].attributes)
    requires ResolvedAll(runtime, parts) && VisitedOnce(visited, Shape(m, parts), start)
    requires i < |declared| && LoadedAs(runtime, declared[..i], ChildAssemblies(parts))
    ensures declared[i] in runtime.byName && i < |t.parts|
    ensures t.parts[i].assembly == runtime.byName[declared[i]]
    ensures Resolvable(runtime, t.parts[i], visited)
  {
    LoadedAsPrefix(runtime, declared, i, ChildAssemblies(parts), Roots(t.parts));
    WitnessChild(runtime, t, start, parts, i);
    ExactlyVisited(visited, Shape(m, parts), start);
  }

  /** After the declared children of a node `m`, given an outline `t` resolution can build for
      it: the outline's remaining children are the companion, and the companion's subtree is
      one resolution can build for it with the node and its declared children visited. */
  lemma {:induction false} CompanionWitness(runtime: Runtime, t: Outline, start: set<AssemblyId>, visited: set<AssemblyId>,
                                            m: PartModel, declared: seq<string>, parts: seq<Shape>)
    requires Resolvable(runtime, t, start) && t.assembly in runtime.assemblies && m.assembly == t.assembly
    requires declared == AdditionalPartNames(runtime.assemblies[t.assembly].attributes)
    requires ResolvedAll(runtime, parts) && VisitedOnce(visited, Shape(m, parts), start)
    requires LoadedAs(runtime, declared, ChildAssemblies(parts))
    ensures |parts| <= |t.parts|
    ensures Roots(t.parts)[|parts|..] == CompanionChildren(runtime, t.assembly)
    ensures |parts| < |t.parts| ==> Resolvable(runtime, t.parts[|parts|], visited)
  {
    assert declared[..|declared|] == declared;
    LoadedAsPrefix(runtime, declared, |declared|, ChildAssemblies(parts), Roots(t.parts));
    if |parts| < |t.parts| {
      WitnessChild(runtime, t, start, parts, |parts|);
      ExactlyVisited(visited, Shape(m, parts), start);
    }
  }

  /** Each assembly of `s` occurs in it once, was not yet visited at `start`, and is in
      `visited`; and `visited` has no more elements than `start` and `s` together. */
  ghost predicate VisitedOnce(visited: set<AssemblyId>, s: Shape, start: set<AssemblyId>) {
    && NoDuplicates(PreOrder(s))
    && (forall x :: x in PreOrder(s) ==> x !in start && x in visited)
    && start <= visited
    && |visited| == |start| + |PreOrder(s)|
  }

  /** What VisitedOnce states: the visited set is the start set and the assemblies of `s`. */
  lemma {:induction false} ExactlyVisited(visited: set<AssemblyId>, s: Shape, start: set<AssemblyId>)
    requires VisitedOnce(visited, s, start)
    ensures visited == start + Elems(PreOrder(s))
  {
    var e := Elems(PreOrder(s));
    ElemsSize(PreOrder(s));
    assert start * e == {};
    assert |start + e| == |start| + |e|;
    var rest := visited - (start + e);
    assert visited == (start + e) + rest;
    assert rest == {};
  }

  /** Visiting one more subtree keeps each assembly visited once. */
  lemma VisitedSnoc(s: Shape, c: Shape, start: set<AssemblyId>, before: set<AssemblyId>, after: set<AssemblyId>)
    requires VisitedOnce(before, s, start) && VisitedOnce(after, c, before)
    ensures VisitedOnce(after, Shape(s.model, s.parts + [c]), start)
  {
    var t := Shape(s.model, s.parts + [c]);
    ForestOrderSnoc(s.parts, c);
    assert PreOrder(t) == PreOrder(s) + PreOrder(c);
    NoDuplicatesAppend(PreOrder(s), PreOrder(c));
  }

  lemma RemainingNoLarger(keys: set<AssemblyId>, before: set<AssemblyId>, after: set<AssemblyId>)
    requires before <= after
    ensures |keys - after| <= |keys - before|
  {
    var larger, smaller := keys - before, keys - after;
    assert larger == smaller + (larger - smaller);
  }

  lemma RemainingShrinks(keys: set<AssemblyId>, before: set<AssemblyId>, after: set<AssemblyId>, a: AssemblyId)
    requires before <= after && a in keys && a in after && a !in before
    ensures |keys - after| < |keys - before|
  {
    var larger, smaller := keys - before, keys - after;
    assert larger == smaller + (larger - smaller);
    assert a in larger - smaller;
  }

  // ---------------------------------------------------------------------------------------
  // The outcome of a resolution, in the order the resolver meets it.

  /** What resolving `a` yields when `visited` is already visited: the visited set afterwards,
      or the first error met depth first. A visited assembly is Recursion at once; otherwise
      each declared part is loaded and its whole subtree resolved before the next name is
      loaded, and the companion comes last. */
  ghost function Outcome(runtime: Runtime, a: AssemblyId, visited: set<AssemblyId>): (r: Result<set<AssemblyId>>)
    requires runtime.Valid() && a in runtime.assemblies
    ensures a in visited ==> r == Failure(Recursion)
    ensures r.Success? ==> visited + {a} <= r.value
    ensures r.Failure? ==> r.error.Recursion? || r.error.AssemblyLoadFailure?
    decreases |runtime.assemblies.Keys - visited|, 0
  {
    if a in visited then Failure(Recursion)
    else
      RemainingShrinks(runtime.assemblies.Keys, visited, visited + {a}, a);
      PartsOutcome(runtime, a, AdditionalPartNames(runtime.assemblies[a].attributes), visited + {a})
  }

  /** The rest of `a`'s resolution when `names` are the declared parts still to load: each
      name in turn, then the companion. */
  ghost function PartsOutcome(runtime: Runtime, a: AssemblyId, names: seq<string>, visited: set<AssemblyId>): (r: Result<set<AssemblyId>>)
    requires runtime.Valid() && a in runtime.assemblies
    ensures r.Success? ==> visited <= r.value
    ensures r.Failure? ==> r.error.Recursion? || r.error.AssemblyLoadFailure?
    decreases |runtime.assemblies.Keys - visited|, |names| + 1
  {
    if names == [] then
      if CompanionChildren(runtime, a) == [] then Success(visited)
      else
        FirstLoadableIsKnown(runtime, runtime.assemblies[a], ViewsAssemblySuffixes);
        Outcome(runtime, CompanionChildren(runtime, a)[0], visited)
    else if names[0] !in runtime.byName then Failure(AssemblyLoadFailure(names[0]))
    else match Outcome(runtime, runtime.byName[names[0]], visited)
      case Failure(e) => Failure(e)
      case Success(after) =>
        RemainingNoLarger(runtime.assemblies.Keys, visited, after);
        PartsOutcome(runtime, a, names[1..], after)
  }

  /** The first error met when `roots` are resolved one after another, each afresh. */
  ghost function FirstResolutionError(runtime: Runtime, roots: seq<AssemblyId>): (r: Option<Error>)
    requires runtime.Valid() && forall x :: x in roots ==> x in runtime.assemblies
    ensures r.None? <==> forall i :: 0 <= i < |roots| ==> Outcome(runtime, roots[i], {}).Success?
    ensures r.Some? ==> exists i :: 0 <= i < |roots| && Outcome(runtime, roots[i], {}) == Failure(r.value)
  {
    if roots == [] then None
    else if Outcome(runtime, roots[0], {}).Failure? then Some(Outcome(runtime, roots[0], {}).error)
    else
      var rest := FirstResolutionError(runtime, roots[1..]);
      assert forall i :: 1 <= i < |roots| ==> roots[i] == roots[1..][i - 1];
      rest
  }

  /** Root (0) declares "A" (1); A declares "Root" and then "X", which does not load. The way
      back to the root is met before "X" is loaded, so the resolution fails with Recursion. */
  lemma CycleBeforeMissingPart()
    ensures
      var runtime := Runtime(
        map[0 := AssemblyInfo("Root", [AdditionalApplicationPart("A")], false, ""),
            1 := AssemblyInfo("A", [AdditionalApplicationPart("Root"), AdditionalApplicationPart("X")], false, "")],
        map["Root" := 0, "A" := 1], map[]);
      runtime.Valid() && Outcome(runtime, 0, {}) == Failure(Recursion)
  {
    var runtime := Runtime(
      map[0 := AssemblyInfo("Root", [AdditionalApplicationPart("A")], false, ""),
          1 := AssemblyInfo("A", [AdditionalApplicationPart("Root"), AdditionalApplicationPart("X")], false, "")],
      map["Root" := 0, "A" := 1], map[]);
    assert AdditionalPartNames(runtime.assemblies[0].attributes) == ["A"];
    assert AdditionalPartNames(runtime.assemblies[1].attributes) == ["Root", "X"];
    var none: set<AssemblyId> := {};
    assert none + {0} == {0} && {0} + {1} == {0, 1};
    assert Outcome(runtime, 0, {0, 1}) == Failure(Recursion);
    assert PartsOutcome(runtime, 1, ["Root", "X"], {0, 1}) == Failure(Recursion);
    assert Outcome(runtime, 1, {0}) == Failure(Recursion);
    assert PartsOutcome(runtime, 0, ["A"], {0}) == Failure(Recursion);
  }

  /** Root (0) declares "A" (1) and then "B" (2); A declares "X", which does not load, and B
      declares "Root". A's subtree is finished, and fails, before "B" is loaded, so the way
      back to the root through B is never met: the resolution fails loading "X". */
  lemma MissingPartBeforeCycle()
    ensures
      var runtime := Runtime(
        map[0 := AssemblyInfo("Root", [AdditionalApplicationPart("A"), AdditionalApplicationPart("B")], false, ""),
            1 := AssemblyInfo("A", [AdditionalApplicationPart("X")], false, ""),
            2 := AssemblyInfo("B", [AdditionalApplicationPart("Root")], false, "")],
        map["Root" := 0, "A" := 1, "B" := 2], map[]);
      runtime.Valid() && Outcome(runtime, 0, {}) == Failure(AssemblyLoadFailure("X"))
  {
    var runtime := Runtime(
      map[0 := AssemblyInfo("Root", [AdditionalApplicationPart("A"), AdditionalApplicationPart("B")], false, ""),
          1 := AssemblyInfo("A", [AdditionalApplicationPart("X")], false, ""),
          2 := AssemblyInfo("B", [AdditionalApplicationPart("Root")], false, "")],
      map["Root" := 0, "A" := 1, "B" := 2], map[]);
    assert AdditionalPartNames(runtime.assemblies[0].attributes) == ["A", "B"];
    assert AdditionalPartNames(runtime.assemblies[1].attributes) == ["X"];
    var none: set<AssemblyId> := {};
    assert none + {0} == {0} && {0} + {1} == {0, 1};
    assert "X" !in runtime.byName;
    assert PartsOutcome(runtime, 1, ["X"], {0, 1}) == Failure(AssemblyLoadFailure("X"));
    assert Outcome(runtime, 1, {0}) == Failure(AssemblyLoadFailure("X"));
    assert PartsOutcome(runtime, 0, ["A", "B"], {0}) == Failure(AssemblyLoadFailure("X"));
  }

  /** A tree resolution can build from `assembly` while `avoid` is visited, if there is one. */
  ghost function ChooseGoal(runtime: Runtime, assembly: AssemblyId, avoid: set<AssemblyId>): (goal: Option<Outline>)
    ensures goal.Some? ==> goal.value.assembly == assembly && Resolvable(runtime, goal.value, avoid)
    ensures goal.None? ==> forall t: Outline :: t.assembly == assembly ==> !Resolvable(runtime, t, avoid)
  {
    if exists t: Outline :: t.assembly == assembly && Resolvable(runtime, t, avoid) then
      var t: Outline :| t.assembly == assembly && Resolvable(runtime, t, avoid); Some(t)
    else None
  }

  /** The state of one ResolvePartModel(root, lookup) call: the local function and the
      `visited` set it closes over. */
  class PartResolver {
    const runtime: Runtime
    var visited: set<AssemblyId>

    constructor (runtime: Runtime)
      ensures this.runtime == runtime && visited == {}
    {
      this.runtime := runtime;
      visited := {};
    }

    /** The local ResolvePartModel(assembly). It succeeds whenever a tree resolution can build
        from `assembly` names no assembly twice and none visited before. */
    method Resolve(assembly: AssemblyId) returns (r: Result<PartModel>, ghost parts: seq<Shape>)
      requires runtime.Valid() && assembly in runtime.assemblies
      modifies this`visited
      decreases |runtime.assemblies.Keys - visited|, 3
      ensures old(visited) <= visited
      ensures assembly in old(visited) ==> r == Failure(Recursion)
      ensures Outcome(runtime, assembly, old(visited)) == if r.Success? then Success(visited) else Failure(r.error)
      ensures r.Failure? ==> FailureCause(runtime, assembly, old(visited), r.error)
      ensures r.Failure? && HasOutline(runtime, assembly) ==> r.error.Recursion?
      ensures (exists t: Outline :: t.assembly == assembly && Resolvable(runtime, t, old(visited))) ==> r.Success?
      ensures r.Success? ==>
        && fresh(r.value) && r.value.parent == null && r.value.assembly == assembly
        && (forall o :: o in ForestModels(parts) ==> fresh(o))
        && Linked(Shape(r.value, parts))
        && Resolved(runtime, Shape(r.value, parts))
        && VisitedOnce(visited, Shape(r.value, parts), old(visited))
    {
      RootNotAvoided(runtime, visited);
      if assembly in visited {
        VisitedAgain(runtime, assembly, visited);
        return Failure(Recursion), [];
      }
      ghost var goal := ChooseGoal(runtime, assembly, visited);
      r, parts := ResolveUnvisited(assembly, goal);
      if r.Failure? && HasOutline(runtime, assembly) {
        OutlineMeansRecursion(runtime, assembly, old(visited), r.error);
      }
    }

    /** Resolve past its visited check: marks the assembly visited and builds its node, its
        declared parts first, then its companion. Given an outline `goal` resolution can build
        for the assembly, it does not fail. */
    method ResolveUnvisited(assembly: AssemblyId, ghost goal: Option<Outline>) returns (r: Result<PartModel>, ghost parts: seq<Shape>)
      requires runtime.Valid() && assembly in runtime.assemblies && assembly !in visited
      requires goal.Some? ==> goal.value.assembly == assembly && Resolvable(runtime, goal.value, visited)
      modifies this`visited
      decreases |runtime.assemblies.Keys - visited|, 2
      ensures old(visited) <= visited
      ensures PartsOutcome(runtime, assembly, AdditionalPartNames(runtime.assemblies[assembly].attributes), old(visited) + {assembly})
                == if r.Success? then Success(visited) else Failure(r.error)
      ensures r.Failure? ==> FailureCause(runtime, assembly, old(visited), r.error)
      ensures goal.Some? ==> r.Success?
      ensures r.Success? ==>
        && fresh(r.value) && r.value.parent == null && r.value.assembly == assembly
        && (forall o :: o in ForestModels(parts) ==> fresh(o))
        && Linked(Shape(r.value, parts))
        && Resolved(runtime, Shape(r.value, parts))
        && VisitedOnce(visited, Shape(r.value, parts), old(visited))
    {
      visited := visited + {assembly};

      var info := runtime.assemblies[assembly];
      var model := new PartModel(assembly, info.name, info.attributes);
      assert PreOrder(Shape(model, [])) == [assembly];
      assert |visited| == |old(visited)| + 1;
      RemainingShrinks(runtime.assemblies.Keys, old(visited), visited, assembly);
      var failure;
      ghost var declaredParts;
      failure, declaredParts := AddDeclaredParts(model, old(visited), goal);
      if failure.Some? {
        return Failure(failure.value), declaredParts;
      }
      RemainingShrinks(runtime.assemblies.Keys, old(visited), visited, assembly);
      failure, parts := AddCompanionPart(model, declaredParts, old(visited), goal);
      if failure.Some? {
        return Failure(failure.value), parts;
      }
      ResolvedNode(runtime, model, declaredParts, parts);
      r := Success(model);
    }

    /** The loop over the node's AdditionalApplicationPart attributes: each names an
        assembly that is loaded, resolved and added, in attribute order. Given a tree
        `goal` resolution can build for the node, no step fails. */
    method AddDeclaredParts(model: PartModel, ghost start: set<AssemblyId>, ghost goal: Option<Outline>)
      returns (failure: Option<Error>, ghost parts: seq<Shape>)
      requires runtime.Valid()
      requires model.assembly in runtime.assemblies
      requires model.attributes == runtime.assemblies[model.assembly].attributes
      requires Linked(Shape(model, []))
      requires VisitedOnce(visited, Shape(model, []), start) && start <= visited
      requires goal.Some? ==> goal.value.assembly == model.assembly && Resolvable(runtime, goal.value, start)
      modifies this`visited, model`additionalParts
      decreases |runtime.assemblies.Keys - visited| + 1, 1
      ensures old(visited) <= visited
      ensures PartsOutcome(runtime, model.assembly, AdditionalPartNames(model.attributes), old(visited))
                == if failure.Some? then Failure(failure.value) else PartsOutcome(runtime, model.assembly, [], visited)
      ensures failure.Some? ==> FailureCause(runtime, model.assembly, start, failure.value)
      ensures goal.Some? ==> failure.None?
      ensures failure.None? ==>
        && (forall o :: o in ForestModels(parts) ==> fresh(o))
        && Linked(Shape(model, parts))
        && ResolvedAll(runtime, parts)
        && VisitedOnce(visited, Shape(model, parts), start)
        && LoadedAs(runtime, AdditionalPartNames(model.attributes), ChildAssemblies(parts))
    {
      var declared := AdditionalPartNames(model.attributes);
      parts := [];
      for i := 0 to |declared|
        invariant old(visited) <= visited
        invariant forall o :: o in ForestModels(parts) ==> fresh(o)
        invariant Linked(Shape(model, parts))
        invariant ResolvedAll(runtime, parts)
        invariant VisitedOnce(visited, Shape(model, parts), start)
        invariant LoadedAs(runtime, declared[..i], ChildAssemblies(parts))
        invariant PartsOutcome(runtime, model.assembly, declared, old(visited)) == PartsOutcome(runtime, model.assembly, declared[i..], visited)
      {
        ghost var next: Option<Outline> := None;
        if goal.Some? {
          DeclaredWitness(runtime, goal.value, start, visited, model, declared, parts, i);
          next := Some(goal.value.parts[i]);
        }
        DeclaredStep(runtime, model.assembly, declared, i, ChildAssemblies(parts));
        assert declared[i..][0] == declared[i] && declared[i..][1..] == declared[i + 1..];
        var loaded := runtime.Load(declared[i]);
        if loaded.Failure? {
          assert UnloadableBelow(runtime, model.assembly, declared[i], 0);
          return Some(loaded.error), parts;
        }
        RemainingNoLarger(runtime.assemblies.Keys, old(visited), visited);
        ghost var grown;
        failure, grown := Attach(model, parts, start, loaded.value, next);
        if failure.Some? {
          return failure, parts;
        }
        LoadedAsSnoc(runtime, declared, i, parts, grown);
        parts := grown;
      }
      assert declared[..|declared|] == declared && declared[|declared|..] == [];
      failure := None;
    }

    /** The companion probe: when the node declares no additional parts, or carries a
        configure attribute, its companion views assembly, if one loads, is resolved and
        added last. Given an outline `goal` resolution can build for the node, it does not fail. */
    method AddCompanionPart(model: PartModel, ghost parts: seq<Shape>, ghost start: set<AssemblyId>, ghost goal: Option<Outline>)
      returns (failure: Option<Error>, ghost grown: seq<Shape>)
      requires runtime.Valid()
      requires model.assembly in runtime.assemblies
      requires model.attributes == runtime.assemblies[model.assembly].attributes
      requires Linked(Shape(model, parts)) && ResolvedAll(runtime, parts)
      requires VisitedOnce(visited, Shape(model, parts), start) && start <= visited
      requires LoadedAs(runtime, AdditionalPartNames(model.attributes), ChildAssemblies(parts))
      requires goal.Some? ==> goal.value.assembly == model.assembly && Resolvable(runtime, goal.value, start)
      modifies this`visited, model`additionalParts
      decreases |runtime.assemblies.Keys - visited| + 1, 1
      ensures old(visited) <= visited
      ensures PartsOutcome(runtime, model.assembly, [], old(visited)) == if failure.Some? then Failure(failure.value) else Success(visited)
      ensures failure.Some? ==> FailureCause(runtime, model.assembly, start, failure.value)
      ensures goal.Some? ==> failure.None?
      ensures failure.None? ==>
        && |parts| <= |grown| && grown[..|parts|] == parts
        && ChildAssemblies(grown)[|parts|..] == CompanionChildren(runtime, model.assembly)
        && (forall o :: o in ForestModels(grown) ==> o in ForestModels(parts) || fresh(o))
        && Linked(Shape(model, grown))
        && ResolvedAll(runtime, grown)
        && VisitedOnce(visited, Shape(model, grown), start)
    {
      ModelsAllocated(Shape(model, parts));
      ForestAllocated(parts);
      grown := parts;
      failure := None;
      if ProbesForCompanion(model.attributes) {
        var companion := GetPrecompiledViewsAssembly(runtime, model.assembly);
        if companion.Some? {
          FirstLoadableIsKnown(runtime, runtime.assemblies[model.assembly], ViewsAssemblySuffixes);
          CompanionStep(runtime, model.assembly, ChildAssemblies(parts));
          ghost var next: Option<Outline> := None;
          if goal.Some? {
            CompanionWitness(runtime, goal.value, start, visited, model, AdditionalPartNames(model.attributes), parts);
            next := Some(goal.value.parts[|parts|]);
          }
          failure, grown := Attach(model, parts, start, companion.value, next);
          if failure.None? {
            CompanionSlot(parts, grown);
          }
        } else {
          CompanionSlot(parts, parts);
        }
      } else {
        CompanionSlot(parts, parts);
      }
    }

    /** Resolves `child` and adds its node as the next additional part of `model`. Given an
        outline `goal` resolution can build for `child` from the current visited set, it does
        not fail. */
    method Attach(model: PartModel, ghost parts: seq<Shape>, ghost start: set<AssemblyId>, child: AssemblyId, ghost goal: Option<Outline>)
      returns (failure: Option<Error>, ghost grown: seq<Shape>)
      requires runtime.Valid() && child in runtime.assemblies && model.assembly in runtime.assemblies
      requires ChildrenSoFar(runtime, model.assembly, ChildAssemblies(parts) + [child])
      requires Linked(Shape(model, parts)) && ResolvedAll(runtime, parts)
      requires VisitedOnce(visited, Shape(model, parts), start) && start <= visited
      requires goal.Some? ==> goal.value.assembly == child && Resolvable(runtime, goal.value, visited)
      modifies this`visited, model`additionalParts
      decreases |runtime.assemblies.Keys - visited| + 1, 0
      ensures old(visited) <= visited
      ensures Outcome(runtime, child, old(visited)) == if failure.Some? then Failure(failure.value) else Success(visited)
      ensures failure.Some? ==> FailureCause(runtime, model.assembly, start, failure.value)
      ensures goal.Some? ==> failure.None?
      ensures failure.None? ==>
        && |grown| == |parts| + 1 && grown == parts + [grown[|parts|]]
        && grown[|parts|].model.assembly == child
        && (forall o :: o in ForestModels(grown) ==> o in ForestModels(parts) || fresh(o))
        && Linked(Shape(model, grown))
        && ResolvedAll(runtime, grown)
        && VisitedOnce(visited, Shape(model, grown), start)
    {
      ghost var s := Shape(model, parts);
      ghost var before := visited;
      ModelsAllocated(s);
      ForestAllocated(parts);
      var part, partParts := Resolve(child);
      if part.Failure? {
        NextChild(runtime, model.assembly, ChildAssemblies(parts), child);
        if part.error.AssemblyLoadFailure? {
          UnloadableFromChild(runtime, model.assembly, child, part.error.assemblyName);
        } else {
          RecursionUnderChild(runtime, model, start, before, parts, child);
        }
        return Some(part.error), parts;
      }
      ghost var c := Shape(part.value, partParts);
      Link(model, parts, part.value, c);
      grown := parts + [c];
      ForestModelsSnoc(parts, c);
      ResolvedAllSnoc(runtime, parts, c);
      VisitedSnoc(s, c, start, before, visited);
      failure := None;
    }
  }

  // ---------------------------------------------------------------------------------------
  // Entry points.

  /** ResolvePartModel(root, lookup): a fresh `visited` set per call. A success is a linked
      tree of fresh models, resolved from `root`, naming every assembly at most once; it
      succeeds exactly when such an outline exists. Its error is the first one met depth first,
      as `Outcome` gives it; an assembly reached twice, by a cycle or by two paths, fails with
      Recursion unless a missing part is met first. */
  method ResolvePartModel(runtime: Runtime, root: AssemblyId) returns (r: Result<PartModel>, ghost parts: seq<Shape>)
    requires runtime.Valid() && root in runtime.assemblies
    ensures Outcome(runtime, root, {}) == if r.Success? then Success(Elems(PreOrder(Shape(r.value, parts)))) else Failure(r.error)
    ensures r.Failure? ==> ResolutionError(runtime, root, r.error)
    ensures r.Failure? && HasOutline(runtime, root) ==> r.error.Recursion?
    ensures r.Success? <==> CanResolve(runtime, root)
    ensures r.Success? ==>
      && fresh(r.value) && r.value.parent == null && r.value.assembly == root
      && (forall o :: o in ForestModels(parts) ==> fresh(o))
      && Linked(Shape(r.value, parts))
      && Resolved(runtime, Shape(r.value, parts))
      && NoDuplicates(PreOrder(Shape(r.value, parts)))
    ensures (exists t: Outline :: t.assembly == root && ResolvedOutline(runtime, t) && !NoDuplicates(OutlineOrder(t))) ==> r.Failure?
  {
    var resolver := new PartResolver(runtime);
    r, parts := resolver.Resolve(root);
    if r.Success? {
      ghost var s := Shape(r.value, parts);
      ExactlyVisited(resolver.visited, s, {});
      assert {} + Elems(PreOrder(s)) == Elems(PreOrder(s));
      OutlineOfResolved(runtime, s);
      assert Resolvable(runtime, OutlineOf(s), {});
      forall t: Outline | t.assembly == root && ResolvedOutline(runtime, t) ensures NoDuplicates(OutlineOrder(t)) {
        OutlineDetermined(runtime, OutlineOf(s), t);
      }
    }
  }

  /** ResolveAssemblyModel(assembly). */
  method ResolveAssemblyModel(runtime: Runtime, assembly: AssemblyId) returns (r: Result<PartModel>, ghost parts: seq<Shape>)
    requires runtime.Valid() && assembly in runtime.assemblies
    ensures Outcome(runtime, assembly, {}) == if r.Success? then Success(Elems(PreOrder(Shape(r.value, parts)))) else Failure(r.error)
    ensures r.Failure? ==> ResolutionError(runtime, assembly, r.error)
    ensures r.Failure? && HasOutline(runtime, assembly) ==> r.error.Recursion?
    ensures r.Success? <==> CanResolve(runtime, assembly)
    ensures r.Success? ==>
      && fresh(r.value) && r.value.parent == null && r.value.assembly == assembly
      && (forall o :: o in ForestModels(parts) ==> fresh(o))
      && Linked(Shape(r.value, parts))
      && Resolved(runtime, Shape(r.value, parts))
      && NoDuplicates(PreOrder(Shape(r.value, parts)))
  {
    r, parts := ResolvePartModel(runtime, assembly);
  }

  /** `xs` without the occurrences of `x`, in order. */
  function Without(xs: seq<AssemblyId>, x: AssemblyId): (r: seq<AssemblyId>)
    ensures |r| <= |xs|
    ensures forall y :: y in r <==> y in xs && y != x
  {
    if xs == [] then []
    else if xs[0] == x then Without(xs[1..], x)
    else [xs[0]] + Without(xs[1..], x)
  }

  lemma {:induction false} WithoutSnoc(xs: seq<AssemblyId>, y: AssemblyId, x: AssemblyId)
    ensures Without(xs + [y], x) == Without(xs, x) + (if y == x then [] else [y])
  {
    if xs == [] {
      assert xs + [y] == [y];
      assert [y][1..] == [];
    } else {
      assert (xs + [y])[1..] == xs[1..] + [y];
      WithoutSnoc(xs[1..], y, x);
    }
  }

  lemma SkipEntry(xs: seq<AssemblyId>, i: nat, entry: AssemblyId)
    requires i < |xs| && xs[i] == entry
    ensures Without(xs[..i + 1], entry) == Without(xs[..i], entry)
  {
    WithoutSnoc(xs[..i], xs[i], entry);
    assert xs[..i + 1] == xs[..i] + [xs[i]];
  }

  lemma TakeDependency(xs: seq<AssemblyId>, i: nat, entry: AssemblyId, dependencies: seq<Shape>, c: Shape)
    requires i < |xs| && xs[i] != entry && c.model.assembly == xs[i]
    requires ChildAssemblies(dependencies) == Without(xs[..i], entry)
    ensures ChildAssemblies(dependencies + [c]) == Without(xs[..i + 1], entry)
  {
    WithoutSnoc(xs[..i], xs[i], entry);
    assert xs[..i + 1] == xs[..i] + [xs[i]];
    assert ChildAssemblies(dependencies + [c]) == ChildAssemblies(dependencies) + [c.model.assembly];
  }

  /** Every assembly of the dependency context other than the entry assembly can be resolved
      afresh. */
  ghost predicate DependenciesResolve(runtime: Runtime, entry: AssemblyId, resolvedAssemblies: seq<AssemblyId>) {
    forall i :: 0 <= i < |resolvedAssemblies| && resolvedAssemblies[i] != entry ==> CanResolve(runtime, resolvedAssemblies[i])
  }

  /** `e` is the error of the first assembly of the dependency context, other than the entry,
      that cannot be resolved afresh. */
  ghost predicate DependencyError(runtime: Runtime, entry: AssemblyId, resolvedAssemblies: seq<AssemblyId>, e: Error) {
    exists i ::
      && 0 <= i < |resolvedAssemblies| && resolvedAssemblies[i] != entry
      && !CanResolve(runtime, resolvedAssemblies[i])
      && ResolutionError(runtime, resolvedAssemblies[i], e)
      && forall j :: 0 <= j < i && resolvedAssemblies[j] != entry ==> CanResolve(runtime, resolvedAssemblies[j])
  }

  /** The errors ResolveEntryPoint raises: the entry assembly's own, when it cannot be
      resolved, else the first failing dependency's. */
  ghost predicate EntryPointError(runtime: Runtime, entry: AssemblyId, resolvedAssemblies: seq<AssemblyId>, e: Error) {
    if CanResolve(runtime, entry) then DependencyError(runtime, entry, resolvedAssemblies, e)
    else ResolutionError(runtime, entry, e)
  }

  /** Resolved outlines, naming assemblies twice or not, start at the entry assembly and at
      every other assembly of the dependency context. */
  ghost predicate OutlinesExist(runtime: Runtime, entry: AssemblyId, resolvedAssemblies: seq<AssemblyId>) {
    && HasOutline(runtime, entry)
    && forall i :: 0 <= i < |resolvedAssemblies| && resolvedAssemblies[i] != entry ==> HasOutline(runtime, resolvedAssemblies[i])
  }

  /** When every resolution ResolveEntryPoint starts has a resolved outline, its only error
      is Recursion. */
  lemma EntryPointErrorCause(runtime: Runtime, entry: AssemblyId, resolvedAssemblies: seq<AssemblyId>, e: Error)
    requires EntryPointError(runtime, entry, resolvedAssemblies, e) && OutlinesExist(runtime, entry, resolvedAssemblies)
    ensures e.Recursion?
  {
    if DependencyError(runtime, entry, resolvedAssemblies, e) {
      var i :| 0 <= i < |resolvedAssemblies| && resolvedAssemblies[i] != entry && !CanResolve(runtime, resolvedAssemblies[i])
        && ResolutionError(runtime, resolvedAssemblies[i], e)
        && forall j :: 0 <= j < i && resolvedAssemblies[j] != entry ==> CanResolve(runtime, resolvedAssemblies[j]);
      OutlineMeansRecursion(runtime, resolvedAssemblies[i], {}, e);
    } else {
      OutlineMeansRecursion(runtime, entry, {}, e);
    }
  }

  /** One step of ResolveEntryPoint's loop: resolves `assembly` on its own and adds its
      tree as the next additional part of `model`. */
  method AddDependency(runtime: Runtime, model: PartModel, ghost parts: seq<Shape>, assembly: AssemblyId)
    returns (failure: Option<Error>, ghost c: Shape)
    requires runtime.Valid() && assembly in runtime.assemblies
    requires Linked(Shape(model, parts))
    modifies model`additionalParts
    ensures failure.Some? <==> Outcome(runtime, assembly, {}).Failure?
    ensures failure.Some? ==> Outcome(runtime, assembly, {}) == Failure(failure.value)
    ensures failure.Some? ==> ResolutionError(runtime, assembly, failure.value)
    ensures failure.None? <==> CanResolve(runtime, assembly)
    ensures failure.None? ==>
      && c.model.assembly == assembly
      && Resolved(runtime, c)
      && Linked(Shape(model, parts + [c]))
  {
    ModelsAllocated(Shape(model, parts));
    ForestAllocated(parts);
    var part, partParts := ResolvePartModel(runtime, assembly);
    c := Shape(model, []);
    if part.Failure? {
      return Some(part.error), c;
    }
    c := Shape(part.value, partParts);
    Link(model, parts, part.value, c);
    failure := None;
  }

  /** ResolveEntryPoint(entryAssembly): the entry assembly's own tree, then one more
      additional part per assembly of the dependency context other than the entry itself,
      in that order, each resolved with its own `visited` set. The dependency context is
      the parameter `resolvedAssemblies`. */
  method ResolveEntryPoint(runtime: Runtime, entry: AssemblyId, resolvedAssemblies: seq<AssemblyId>)
    returns (r: Result<PartModel>, ghost own: seq<Shape>, ghost dependencies: seq<Shape>)
    requires runtime.Valid() && entry in runtime.assemblies
    requires forall i :: 0 <= i < |resolvedAssemblies| ==> resolvedAssemblies[i] in runtime.assemblies
    ensures FirstResolutionError(runtime, [entry] + Without(resolvedAssemblies, entry)) == if r.Success? then None else Some(r.error)
    ensures r.Failure? ==> EntryPointError(runtime, entry, resolvedAssemblies, r.error)
    ensures r.Failure? && OutlinesExist(runtime, entry, resolvedAssemblies) ==> r.error.Recursion?
    ensures r.Success? <==> CanResolve(runtime, entry) && DependenciesResolve(runtime, entry, resolvedAssemblies)
    ensures r.Success? ==>
      && fresh(r.value) && r.value.parent == null && r.value.assembly == entry
      && Linked(Shape(r.value, own + dependencies))
      && Resolved(runtime, Shape(r.value, own))
      && NoDuplicates(PreOrder(Shape(r.value, own)))
      && ResolvedAll(runtime, dependencies)
      && ChildAssemblies(dependencies) == Without(resolvedAssemblies, entry)
  {
    r, own := ResolvePartModel(runtime, entry);
    assert ([entry] + Without(resolvedAssemblies, entry))[1..] == Without(resolvedAssemblies, entry);
    dependencies := [];
    if r.Success? {
      var failure;
      failure, dependencies := AddDependencies(runtime, r.value, own, entry, resolvedAssemblies);
      if failure.Some? {
        r := Failure(failure.value);
      }
    }
    if r.Failure? && OutlinesExist(runtime, entry, resolvedAssemblies) {
      EntryPointErrorCause(runtime, entry, resolvedAssemblies, r.error);
    }
  }

  /** The loop of ResolveEntryPoint over the dependency context. */
  method AddDependencies(runtime: Runtime, model: PartModel, ghost own: seq<Shape>, entry: AssemblyId, resolvedAssemblies: seq<AssemblyId>)
    returns (failure: Option<Error>, ghost dependencies: seq<Shape>)
    requires runtime.Valid()
    requires forall i :: 0 <= i < |resolvedAssemblies| ==> resolvedAssemblies[i] in runtime.assemblies
    requires Linked(Shape(model, own))
    modifies model`additionalParts
    ensures failure == FirstResolutionError(runtime, Without(resolvedAssemblies, entry))
    ensures failure.Some? ==> DependencyError(runtime, entry, resolvedAssemblies, failure.value)
    ensures failure.None? <==> DependenciesResolve(runtime, entry, resolvedAssemblies)
    ensures failure.None? ==>
      && Linked(Shape(model, own + dependencies))
      && ResolvedAll(runtime, dependencies)
      && ChildAssemblies(dependencies) == Without(resolvedAssemblies, entry)
  {
    dependencies := [];
    ghost var children := own;
    assert own + dependencies == children;
    for i := 0 to |resolvedAssemblies|
      invariant children == own + dependencies
      invariant Linked(Shape(model, children))
      invariant ResolvedAll(runtime, dependencies)
      invariant ChildAssemblies(dependencies) == Without(resolvedAssemblies[..i], entry)
      invariant forall j :: 0 <= j < i && resolvedAssemblies[j] != entry ==> CanResolve(runtime, resolvedAssemblies[j])
      invariant FirstResolutionError(runtime, Without(resolvedAssemblies, entry))
                  == FirstResolutionError(runtime, Without(resolvedAssemblies[i..], entry))
    {
      assert resolvedAssemblies[i..][0] == resolvedAssemblies[i] && resolvedAssemblies[i..][1..] == resolvedAssemblies[i + 1..];
      if resolvedAssemblies[i] == entry {
        SkipEntry(resolvedAssemblies, i, entry);
        continue;
      }
      ghost var c;
      ghost var rest := Without(resolvedAssemblies[i + 1..], entry);
      assert ([resolvedAssemblies[i]] + rest)[1..] == rest;
      failure, c := AddDependency(runtime, model, children, resolvedAssemblies[i]);
      if failure.Some? {
        assert !CanResolve(runtime, resolvedAssemblies[i]) && ResolutionError(runtime, resolvedAssemblies[i], failure.value);
        return;
      }
      TakeDependency(resolvedAssemblies, i, entry, dependencies, c);
      ResolvedAllSnoc(runtime, dependencies, c);
      AppendSnoc(own, dependencies, c);
      dependencies := dependencies + [c];
      children := children + [c];
    }
    assert resolvedAssemblies[..|resolvedAssemblies|] == resolvedAssemblies && resolvedAssemblies[|resolvedAssemblies|..] == [];
    failure := None;
  }
}
