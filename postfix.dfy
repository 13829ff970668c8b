/** The result-override postfix that runs after the original license check returns. */
module Postfix {

  /** A by-reference bool: the `ref bool __result` slot holding the return value. */
  class BoolRef {
    var value: bool

    constructor (initial: bool)
      ensures value == initial
    {
      value := initial;
    }
  }

  /**
   * Postfix_OverrideLicenseCheckResult: the result becomes true whatever it
   * was, and nothing else is written.
   */
  method OverrideLicenseCheckResult(result: BoolRef)
    modifies result
    ensures result.value
  {
    result.value := true;
  }
}
