/** rules/required_rule.go: the field must hold something. */
module RequiredRule {
  import opened Wrappers
  import opened Reflect

  /** requiredRule.Validate. A slice or map must be non-nil and non-empty, an
      array non-empty, a pointer or interface non-nil, and any other value
      must differ from its type's zero value. */
  function Validate(fv: Value): (r: Option<string>)
    ensures (fv.Slice? || fv.Map?) ==> (r.Some? <==> Len(fv) == 0)
    ensures fv.Array? ==> (r.Some? <==> fv.len == 0)
    ensures (fv.Ptr? || fv.Iface?) ==> (r.Some? <==> fv.isNil)
    ensures IsScalar(fv) ==> (r.Some? <==> IsZero(fv))
    ensures (fv.Slice? || fv.Map?) && r.Some? ==> r.value == "field is required (non-empty " + KindName(fv) + ")"
    ensures (fv.Ptr? || fv.Iface?) && r.Some? ==> r.value == "field is required (non-nil " + KindName(fv) + ")"
    ensures fv.Array? && r.Some? ==> r.value == "field is required (non-empty array)"
    ensures IsScalar(fv) && r.Some? ==> r.value == "field is required"
  {
    match fv
    case Slice(isNil, _) =>
      if isNil || Len(fv) == 0 then Some("field is required (non-empty " + KindName(fv) + ")") else None
    case Map(isNil, _) =>
      if isNil || Len(fv) == 0 then Some("field is required (non-empty " + KindName(fv) + ")") else None
    case Array(n) =>
      if n == 0 then Some("field is required (non-empty array)") else None
    case Ptr(isNil) =>
      if isNil then Some("field is required (non-nil " + KindName(fv) + ")") else None
    case Iface(isNil) =>
      if isNil then Some("field is required (non-nil " + KindName(fv) + ")") else None
    case _ =>
      if IsZero(fv) then Some("field is required") else None
  }
}
