/** rules/pattern_rule.go: a string matched by a regular expression. */
module PatternRule {
  import opened Wrappers
  import opened GoStrings
  import opened Reflect
  import opened Platform

  /** patternRule.Validate for the compiled expression `source`: a non-string
      always fails; a string passes exactly when MatchString finds a match
      in it. */
  function Validate(source: string, fv: Value, host: Host): (r: Option<string>)
    ensures !fv.Str? ==> r == Some("pattern only works with strings, got " + KindName(fv))
    ensures fv.Str? ==> (r.None? <==> host.matchString(source, fv.s))
    ensures fv.Str? && r.Some? ==>
      r.value == "value " + Quote(fv.s) + " does not match pattern " + Quote(source)
  {
    if !fv.Str? then Some("pattern only works with strings, got " + KindName(fv))
    else if host.matchString(source, fv.s) then None
    else Some("value " + Quote(fv.s) + " does not match pattern " + Quote(source))
  }
}
