/** The design-code selection both calculations start with.

    The library keeps a process-wide "active" design code; a caller may also
    name one explicitly. The registry itself lives outside the calculations,
    so the active code is passed in as a value. Only whether some code is set
    matters: neither formula branches on which code it is. */
module DesignCode {
  import opened Outcomes

  /** The code a calculation runs under: the explicit argument when given,
      otherwise the active one. */
  function Resolve(explicit: Option<string>, active: Option<string>): (code: Option<string>)
    ensures code.None? <==> explicit.None? && active.None?
    ensures explicit.Some? ==> code == explicit
    ensures explicit.None? ==> code == active
  {
    if explicit.Some? then explicit else active
  }
}
