/** ConfigureApplicationPartManagerAttribute: an assembly-level declaration that overrides
    the operation used to register that assembly's parts, for one named slot.
    Several may sit on one assembly, told apart by their Name. */
module ConfigureAttribute {
  import opened Outcomes

  /** The types an attribute can name. The set is closed: the stock operation, the no-op
      operation, the sample's LightsOn operation, and any type that is not an operation. */
  datatype OperationType =
    | DefaultOperation
    | NullOperation
    | LightsOnOperation
    | NotAnOperation(typeName: string)
  {
    /** typeof(ConfigureApplicationPartManager).IsAssignableFrom(type) */
    predicate IsConfigureOperation() {
      !NotAnOperation?
    }
  }

  /** The slot name used when an attribute, or a lookup, names none. */
  const DefaultName: string := "Default"

  /** A constructed attribute. Both fields are set once, and neither can be null. */
  datatype ConfigureDeclaration = ConfigureDeclaration(operationType: OperationType, name: string)

  /** The two-argument constructor; `None` stands for a null argument, and `type` is
      checked before `name`. */
  function NewNamedConfigureAttribute(operationType: Option<OperationType>, name: Option<string>)
    : (r: Result<ConfigureDeclaration>)
    ensures r.Success? <==> operationType.Some? && name.Some?
    ensures r.Success? ==> r.value.operationType == operationType.value && r.value.name == name.value
    ensures operationType.None? ==> r == Failure(ArgumentNull("type"))
    ensures operationType.Some? && name.None? ==> r == Failure(ArgumentNull("name"))
  {
    if operationType.None? then Failure(ArgumentNull("type"))
    else if name.None? then Failure(ArgumentNull("name"))
    else Success(ConfigureDeclaration(operationType.value, name.value))
  }

  /** The one-argument constructor delegates with the default slot name. */
  function NewConfigureAttribute(operationType: Option<OperationType>): (r: Result<ConfigureDeclaration>)
    ensures r.Success? <==> operationType.Some?
    ensures r.Success? ==> r.value == ConfigureDeclaration(operationType.value, "Default")
    ensures r.Failure? ==> r.error == ArgumentNull("type")
  {
    NewNamedConfigureAttribute(operationType, Some(DefaultName))
  }
}
