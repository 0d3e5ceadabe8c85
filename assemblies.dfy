/** What the bootstrap sees of the .NET runtime: assemblies with their custom attributes,
    loading an assembly by name, and the files next to an assembly on disk. Reflection is
    replaced by a typed attribute list per assembly. */
module Assemblies {
  import opened Outcomes
  import opened ConfigureAttribute

  /** The identity of a loaded assembly; assemblies compare by identity only. */
  type AssemblyId = nat

  /** RazorViewAttribute: declares a compiled view by its path. */
  datatype ViewAttribute = ViewAttribute(path: string, viewType: string)

  /** The assembly-level attributes the bootstrap looks at. */
  datatype Attribute =
    | AdditionalApplicationPart(partName: string)
    | ConfigureApplicationPartManager(declaration: ConfigureDeclaration)
    | RazorView(view: ViewAttribute)
    | OtherAttribute(typeName: string)

  /** attributes.OfType<AdditionalApplicationPartAttribute>(), as the declared assembly names. */
  function AdditionalPartNames(attributes: seq<Attribute>): (names: seq<string>)
    ensures |names| <= |attributes|
  {
    if attributes == [] then []
    else
      var rest := AdditionalPartNames(attributes[1..]);
      if attributes[0].AdditionalApplicationPart? then [attributes[0].partName] + rest else rest
  }

  /** attributes.OfType<ConfigureApplicationPartManagerAttribute>(), in declaration order. */
  function ConfigureDeclarations(attributes: seq<Attribute>): (ds: seq<ConfigureDeclaration>)
    ensures |ds| <= |attributes|
  {
    if attributes == [] then []
    else
      var rest := ConfigureDeclarations(attributes[1..]);
      if attributes[0].ConfigureApplicationPartManager? then [attributes[0].declaration] + rest else rest
  }

  /** assembly.GetCustomAttributes<RazorViewAttribute>(), in declaration order. */
  function ViewAttributes(attributes: seq<Attribute>): (vs: seq<ViewAttribute>)
    ensures |vs| <= |attributes|
  {
    if attributes == [] then []
    else
      var rest := ViewAttributes(attributes[1..]);
      if attributes[0].RazorView? then [attributes[0].view] + rest else rest
  }

  /** The declared part names keep declaration order: those of earlier attributes come first. */
  lemma {:induction false} NamesKeepOrder(a: seq<Attribute>, b: seq<Attribute>)
    ensures AdditionalPartNames(a + b) == AdditionalPartNames(a) + AdditionalPartNames(b)
    decreases |a|
  {
    if a == [] {
      assert a + b == b;
    } else {
      assert (a + b)[0] == a[0] && (a + b)[1..] == a[1..] + b;
      NamesKeepOrder(a[1..], b);
    }
  }

  /** The configure declarations keep declaration order: those of earlier attributes come first. */
  lemma {:induction false} DeclarationsKeepOrder(a: seq<Attribute>, b: seq<Attribute>)
    ensures ConfigureDeclarations(a + b) == ConfigureDeclarations(a) + ConfigureDeclarations(b)
    decreases |a|
  {
    if a == [] {
      assert a + b == b;
    } else {
      assert (a + b)[0] == a[0] && (a + b)[1..] == a[1..] + b;
      DeclarationsKeepOrder(a[1..], b);
    }
  }

  /** The view attributes keep declaration order: those of earlier attributes come first. */
  lemma {:induction false} ViewsKeepOrder(a: seq<Attribute>, b: seq<Attribute>)
    ensures ViewAttributes(a + b) == ViewAttributes(a) + ViewAttributes(b)
    decreases |a|
  {
    if a == [] {
      assert a + b == b;
    } else {
      assert (a + b)[0] == a[0] && (a + b)[1..] == a[1..] + b;
      ViewsKeepOrder(a[1..], b);
    }
  }

  /** Each filter keeps exactly the attributes of its kind. */
  lemma {:induction false} FiltersKeepTheirKind(attributes: seq<Attribute>)
    ensures forall n :: n in AdditionalPartNames(attributes) <==> AdditionalApplicationPart(n) in attributes
    ensures forall d :: d in ConfigureDeclarations(attributes) <==> ConfigureApplicationPartManager(d) in attributes
    ensures forall v :: v in ViewAttributes(attributes) <==> RazorView(v) in attributes
  {
    if attributes != [] {
      FiltersKeepTheirKind(attributes[1..]);
      assert attributes == [attributes[0]] + attributes[1..];
    }
  }

  /** A loaded assembly: its simple name, its attributes, whether it was emitted at run time,
      and the file it was loaded from ("" when it has none). */
  datatype AssemblyInfo = AssemblyInfo(name: string, attributes: seq<Attribute>, isDynamic: bool, location: string)

  /** What loading one candidate file gives: no such file, a file that is not a loadable
      assembly (FileLoadException), or an assembly. */
  datatype FileProbe = Missing | LoadFails | Loaded(assembly: AssemblyId)

  /** The runtime as the bootstrap queries it.
      `assemblies` answers reflection questions about an assembly; `byName` is Assembly.Load by
      name; `files` gives, for a (location of an assembly, file name) pair, what loading the file of
      that name in the same directory yields. */
  datatype Runtime = Runtime(
    assemblies: map<AssemblyId, AssemblyInfo>,
    byName: map<string, AssemblyId>,
    files: map<(string, string), FileProbe>)
  {
    /** Every assembly the runtime can hand out is one it can describe. */
    ghost predicate Valid() {
      && (forall n :: n in byName ==> byName[n] in assemblies)
      && (forall k :: k in files && files[k].Loaded? ==> files[k].assembly in assemblies)
    }

    /** Assembly.Load(new AssemblyName(name)). */
    function Load(name: string): (r: Result<AssemblyId>)
      ensures r.Success? <==> name in byName
      ensures r.Success? ==> r.value == byName[name]
      ensures r.Failure? ==> r.error == AssemblyLoadFailure(name)
    {
      if name in byName then Success(byName[name]) else Failure(AssemblyLoadFailure(name))
    }

    /** File.Exists followed by Assembly.LoadFile for a file beside the assembly at `location`. */
    function ProbeFile(location: string, fileName: string): FileProbe {
      if (location, fileName) in files then files[(location, fileName)] else Missing
    }
  }
}
