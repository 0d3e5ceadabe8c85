/** The MvcSandbox sample: its two assembly-level configure attributes, and the LightsOn
    operation, which registers the assembly itself and each of its direct additional parts. */
module MvcSandbox {
  import opened Outcomes
  import opened ConfigureAttribute
  import opened Assemblies
  import opened PartManager
  import opened DiscoveryModel
  import opened ConfigureOperations

  /** The slot the sample's second attribute names. */
  const LightsOnName: string := "LightsOn"

  /** The sample assembly's configure attributes: the no-op operation for the default slot,
      LightsOn for the "LightsOn" slot. */
  const SandboxAttributes: seq<Attribute> := [
    ConfigureApplicationPartManager(ConfigureDeclaration(NullOperation, DefaultName)),
    ConfigureApplicationPartManager(ConfigureDeclaration(LightsOnOperation, LightsOnName))
  ]

  /** The two attributes are what the two constructors build. */
  lemma SandboxAttributesAreConstructed()
    ensures NewConfigureAttribute(Some(NullOperation)) == Success(SandboxAttributes[0].declaration)
    ensures NewNamedConfigureAttribute(Some(LightsOnOperation), Some(LightsOnName)) == Success(SandboxAttributes[1].declaration)
  {
  }

  /** For the sample assembly the default slot is the no-op, "LightsOn" is LightsOn, and any
      other slot falls back to the stock operation. */
  lemma SandboxSlots(slot: string)
    ensures SelectOperation(SandboxAttributes, DefaultName) == Success(NullOperation)
    ensures SelectOperation(SandboxAttributes, LightsOnName) == Success(LightsOnOperation)
    ensures slot != DefaultName && slot != LightsOnName ==> SelectOperation(SandboxAttributes, slot) == Success(DefaultOperation)
  {
    var ds := ConfigureDeclarations(SandboxAttributes);
    var rest := SandboxAttributes[1..];
    assert rest == [SandboxAttributes[1]] && rest[1..] == [];
    assert ConfigureDeclarations(rest) == [SandboxAttributes[1].declaration] + ConfigureDeclarations(rest[1..]);
    assert ds == [SandboxAttributes[0].declaration] + ConfigureDeclarations(rest);
    assert FirstNamed(ds, DefaultName, 0);
    FirstDeclarationDecides(SandboxAttributes, DefaultName, 0);
    assert FirstNamed(ds, LightsOnName, 1);
    FirstDeclarationDecides(SandboxAttributes, LightsOnName, 1);
    if slot != DefaultName && slot != LightsOnName {
      FiltersKeepTheirKind(SandboxAttributes);
      NoDeclarationGivesDefault(SandboxAttributes, slot);
    }
  }

  /** The parts the children register as, one each, in order, each classified by its name. */
  function ChildParts(children: seq<PartModel>): (r: seq<ApplicationPart>)
    ensures |r| == |children|
  {
    if children == [] then []
    else [ApplicationPartFor(children[0].assembly, children[0].name)] + ChildParts(children[1..])
  }

  /** Child `i` registers as a part for its own assembly, a compiled-views part exactly when
      its name carries a views suffix. */
  lemma {:induction false} ChildPartsClassify(children: seq<PartModel>, i: nat)
    requires i < |children|
    ensures ChildParts(children)[i].assembly == children[i].assembly
    ensures ChildParts(children)[i].CompiledViewsApplicationPart? <==> IsViewsAssemblyName(children[i].name)
  {
    if i > 0 {
      ChildPartsClassify(children[1..], i - 1);
    }
  }

  /** What LightsOn registers for a node: a plain assembly part for the node itself, whatever
      its name, then its direct additional parts in the order they were added. Only the
      node's own child list is read, so grandchildren never contribute. */
  function LightsOnParts(model: PartModel): (r: seq<ApplicationPart>)
    reads model`additionalParts
    ensures |r| == 1 + |model.additionalParts|
    ensures r[0] == AssemblyPart(model.assembly)
    ensures r[1..] == ChildParts(model.additionalParts)
  {
    [AssemblyPart(model.assembly)] + ChildParts(model.additionalParts)
  }

  /** LightsOnConfigureApplicationPartManager.Configure. */
  method ConfigureLightsOn(manager: ApplicationPartManager, model: PartModel)
    modifies manager
    ensures manager.applicationParts == old(manager.applicationParts) + LightsOnParts(model)
  {
    manager.Add(AssemblyPart(model.assembly));
    ghost var before := old(manager.applicationParts) + [AssemblyPart(model.assembly)];
    var children := model.additionalParts;
    for i := 0 to |children|
      invariant manager.applicationParts == before + ChildParts(children[..i])
    {
      var part := children[i].ToApplicationPart();
      ChildPartsSnoc(children[..i], children[i]);
      assert children[..i + 1] == children[..i] + [children[i]];
      manager.Add(part);
    }
    assert children[..|children|] == children;
  }

  lemma {:induction false} ChildPartsSnoc(children: seq<PartModel>, child: PartModel)
    ensures ChildParts(children + [child]) == ChildParts(children) + [ApplicationPartFor(child.assembly, child.name)]
  {
    if children == [] {
      assert children + [child] == [child];
      assert [child][1..] == [];
    } else {
      assert (children + [child])[1..] == children[1..] + [child];
      ChildPartsSnoc(children[1..], child);
    }
  }

  /** Unlike the stock operation, LightsOn registers a views-named node as a plain assembly
      part. */
  lemma LightsOnIgnoresOwnSuffix(model: PartModel)
    requires IsViewsAssemblyName(model.name)
    ensures LightsOnParts(model)[0] != ApplicationPartFor(model.assembly, model.name)
  {
  }
}
