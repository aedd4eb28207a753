/** rules/min_rule.go: an inclusive lower bound on a number. */
module MinRule {
  import opened Wrappers
  import opened Reflect
  import opened ReflectUtils
  import opened Platform

  /** minRule.Validate: a non-number fails with GetNumericValue's own error;
      a number fails exactly when it is below `min`. */
  function Validate(min: real, fv: Value, host: Host): (r: Option<string>)
    ensures !IsNumeric(fv) ==> r == GetNumericValue(fv).err
    ensures IsNumeric(fv) ==> (r.Some? <==> GetNumericValue(fv).value < min)
  {
    var n := GetNumericValue(fv);
    if n.err.Some? then n.err
    else if n.value < min then
      Some("value " + host.formatFloat(n.value) + " < min " + host.formatFloat(min))
    else None
  }
}
