/** Results and errors shared by the application-part bootstrap.
    Each `Error` stands for one exception the bootstrap can raise. */
module Outcomes {

  datatype Option<+T> = None | Some(value: T)

  datatype Error =
      /** InvalidOperationException("Recursion"): an assembly was reached twice in one resolution. */
    | Recursion
      /** Assembly.Load could not find an assembly by name. */
    | AssemblyLoadFailure(assemblyName: string)
      /** ArgumentNullException thrown by an attribute constructor. */
    | ArgumentNull(parameterName: string)
      /** InvalidOperationException: a configure attribute names a type that is not an operation. */
    | InvalidConfigureType(typeName: string, slot: string)

  datatype Result<+T> = Success(value: T) | Failure(error: Error)
}
