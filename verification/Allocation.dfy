/** Memory that may run out. */
module Allocation {
  /** Does an allocation succeed? */
  method Succeeds(scarce: bool) returns (ok: bool)
    ensures !ok ==> scarce
  {
    ok := !scarce;
    if * {
      ok := true;
    }
  }
}
