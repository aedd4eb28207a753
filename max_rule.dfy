/** rules/max_rule.go: an inclusive upper bound on a number. */
module MaxRule {
  import opened Wrappers
  import opened Reflect
  import opened ReflectUtils
  import opened Platform

  /** maxRule.Validate: a non-number fails with GetNumericValue's own error;
      a number fails exactly when it is above `max`. */
  function Validate(max: real, fv: Value, host: Host): (r: Option<string>)
    ensures !IsNumeric(fv) ==> r == GetNumericValue(fv).err
    ensures IsNumeric(fv) ==> (r.Some? <==> GetNumericValue(fv).value > max)
  {
    var n := GetNumericValue(fv);
    if n.err.Some? then n.err
    else if n.value > max then
      Some("value " + host.formatFloat(n.value) + " > max " + host.formatFloat(max))
    else None
  }
}
