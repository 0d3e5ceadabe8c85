/** The registry the bootstrap writes to: ApplicationPartManager.ApplicationParts, a list that
    configuration operations only ever append to. */
module PartManager {
  import opened Assemblies

  /** The two kinds of part the bootstrap registers, each wrapping an assembly. */
  datatype ApplicationPart =
    | AssemblyPart(assembly: AssemblyId)
    | CompiledViewsApplicationPart(assembly: AssemblyId)

  class ApplicationPartManager {
    var applicationParts: seq<ApplicationPart>

    constructor ()
      ensures applicationParts == []
    {
      applicationParts := [];
    }

    /** ApplicationParts.Add(part). */
    method Add(part: ApplicationPart)
      modifies this
      ensures applicationParts == old(applicationParts) + [part]
    {
      applicationParts := applicationParts + [part];
    }
  }
}
