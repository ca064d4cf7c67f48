/** The response shape every successful write returns. */
module Schemas {
  /** `SuccessSchema`: `result` is always true. */
  datatype Success = Success
  {
    const result: bool := true
  }
}
