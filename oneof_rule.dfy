/** rules/oneof_rule.go: a string drawn from a fixed list. */
module OneOfRule {
  import opened Wrappers
  import opened GoStrings
  import opened Reflect

  /** oneOfRule.Validate: a non-string always fails; a string passes exactly
      when it equals (case-sensitively) one of the options. */
  function Validate(options: seq<string>, fv: Value): (r: Option<string>)
    ensures !fv.Str? ==> r == Some("oneof supports only string, got " + KindName(fv))
    ensures fv.Str? ==> (r.None? <==> fv.s in options)
    ensures fv.Str? && r.Some? ==>
      r.value == "value " + Quote(fv.s) + " does not match any of the options: " + FormatList(options)
  {
    if !fv.Str? then Some("oneof supports only string, got " + KindName(fv))
    else if fv.s in options then None
    else Some("value " + Quote(fv.s) + " does not match any of the options: " + FormatList(options))
  }

  /** Only the set of options matters to the outcome, not their order or
      repetition. */
  lemma OptionsAsSet(o1: seq<string>, o2: seq<string>, fv: Value)
    requires forall x :: x in o1 <==> x in o2
    ensures Validate(o1, fv).None? <==> Validate(o2, fv).None?
  {
  }
}
