/** ConfigureApplicationPartManager: choosing, from an assembly's configure attributes, the
    operation that registers its parts for one named slot, and the stock operation that
    registers the assembly as a single part. */
module ConfigureOperations {
  import opened Outcomes
  import opened ConfigureAttribute
  import opened Assemblies
  import opened PartManager
  import opened DiscoveryModel

  /** FirstOrDefault over the declarations: the first whose name equals `slot` under ordinal,
      case-sensitive comparison. */
  function FirstDeclaration(ds: seq<ConfigureDeclaration>, slot: string): (r: Option<ConfigureDeclaration>)
    ensures r.None? <==> forall i :: 0 <= i < |ds| ==> ds[i].name != slot
    ensures r.Some? ==> exists i :: 0 <= i < |ds| && ds[i] == r.value && FirstNamed(ds, slot, i)
  {
    if ds == [] then None
    else if ds[0].name == slot then
      assert FirstNamed(ds, slot, 0);
      Some(ds[0])
    else
      var rest := FirstDeclaration(ds[1..], slot);
      assert forall i :: FirstNamed(ds[1..], slot, i) ==> FirstNamed(ds, slot, i + 1);
      rest
  }

  /** `ds[i]` is the first declaration for `slot`. */
  ghost predicate FirstNamed(ds: seq<ConfigureDeclaration>, slot: string, i: int) {
    && 0 <= i < |ds|
    && ds[i].name == slot
    && forall j :: 0 <= j < i ==> ds[j].name != slot
  }

  /** The selection GetConfigureOperation makes from an assembly's attributes. A successful
      result is always an operation. */
  function SelectOperation(attributes: seq<Attribute>, slot: string): (r: Result<OperationType>)
    ensures r.Success? ==> r.value.IsConfigureOperation()
    ensures r.Failure? ==> r.error.InvalidConfigureType? && r.error.slot == slot
  {
    match FirstDeclaration(ConfigureDeclarations(attributes), slot)
    case None => Success(DefaultOperation)
    case Some(d) =>
      if d.operationType.IsConfigureOperation() then Success(d.operationType)
      else Failure(InvalidConfigureType(d.operationType.typeName, slot))
  }

  /** GetConfigureOperation(partModel, name): decided by the node's attributes alone. */
  function GetConfigureOperation(model: PartModel, slot: string): (r: Result<OperationType>)
    ensures r.Success? ==> r.value.IsConfigureOperation()
  {
    SelectOperation(model.attributes, slot)
  }

  /** GetConfigureOperation(partDiscoveryModel): the default slot. */
  function GetDefaultConfigureOperation(model: PartModel): (r: Result<OperationType>)
    ensures r == SelectOperation(model.attributes, "Default")
  {
    GetConfigureOperation(model, DefaultName)
  }

  /** With no attribute for the slot, the stock operation is chosen. */
  lemma NoDeclarationGivesDefault(attributes: seq<Attribute>, slot: string)
    requires forall d :: ConfigureApplicationPartManager(d) in attributes ==> d.name != slot
    ensures SelectOperation(attributes, slot) == Success(DefaultOperation)
  {
    FiltersKeepTheirKind(attributes);
    var ds := ConfigureDeclarations(attributes);
    forall i | 0 <= i < |ds| ensures ds[i].name != slot {
      assert ds[i] in ds;
    }
  }

  /** The first attribute for the slot decides: its type when that is an operation, an
      InvalidOperationException otherwise; later attributes for the slot play no part. */
  lemma FirstDeclarationDecides(attributes: seq<Attribute>, slot: string, i: nat)
    requires FirstNamed(ConfigureDeclarations(attributes), slot, i)
    ensures var d := ConfigureDeclarations(attributes)[i];
      SelectOperation(attributes, slot) ==
        if d.operationType.IsConfigureOperation() then Success(d.operationType)
        else Failure(InvalidConfigureType(d.operationType.typeName, slot))
  {
    var ds := ConfigureDeclarations(attributes);
    var r := FirstDeclaration(ds, slot);
    assert r.Some?;
    var k :| 0 <= k < |ds| && ds[k] == r.value && FirstNamed(ds, slot, k);
    assert k == i;
  }

  /** Attributes for other slots, and attributes of other kinds, are ignored wherever they
      sit. */
  lemma {:induction false} OtherAttributesIgnored(before: seq<Attribute>, extra: Attribute, after: seq<Attribute>, slot: string)
    requires !extra.ConfigureApplicationPartManager? || extra.declaration.name != slot
    ensures SelectOperation(before + [extra] + after, slot) == SelectOperation(before + after, slot)
  {
    ConfigureDeclarationsSkip(before, extra, after, slot);
  }

  lemma {:induction false} ConfigureDeclarationsSkip(before: seq<Attribute>, extra: Attribute, after: seq<Attribute>, slot: string)
    requires !extra.ConfigureApplicationPartManager? || extra.declaration.name != slot
    ensures FirstDeclaration(ConfigureDeclarations(before + [extra] + after), slot)
         == FirstDeclaration(ConfigureDeclarations(before + after), slot)
  {
    if before == [] {
      assert before + [extra] + after == [extra] + after;
      assert ([extra] + after)[1..] == after;
      assert before + after == after;
    } else {
      assert (before + [extra] + after)[1..] == before[1..] + [extra] + after;
      assert (before + after)[1..] == before[1..] + after;
      ConfigureDeclarationsSkip(before[1..], extra, after, slot);
    }
  }

  /** The stock operation: registers the node as the one part ToApplicationPart gives. */
  method ConfigureDefault(manager: ApplicationPartManager, model: PartModel)
    modifies manager
    ensures manager.applicationParts == old(manager.applicationParts) + [ApplicationPartFor(model.assembly, model.name)]
  {
    var part := model.ToApplicationPart();
    manager.Add(part);
  }
}
