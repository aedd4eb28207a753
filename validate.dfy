/**
 * validate.go: the validation pass over a configuration struct and the
 * error values it returns.
 *
 * The pass is flat: it walks the struct's top-level fields in declaration
 * order, splits each non-empty `validate` tag on `,`, trims each piece,
 * resolves it through the registry and runs the rule on the field's value.
 * Every failure is recorded and nothing stops the walk.
 */
module Validation {
  import opened Wrappers
  import opened GoStrings
  import opened Reflect
  import opened ReflectUtils
  import opened Platform
  import Rules
  import MinRule
  import MaxRule

  // ---------------------------------------------------------------------------
  // ValidationError and ValidationErrors
  // ---------------------------------------------------------------------------

  /** One failure: the field's name and the error text of the lookup or the
      rule that failed. */
  datatype ValidationError = ValidationError(field: string, msg: string) {
    /** ValidationError.Error */
    function Error(): (r: string)
      ensures "validation failed on " <= r
      ensures |msg| <= |r| && r[|r| - |msg|..] == msg
    {
      "validation failed on " + Quote(field) + ": " + msg
    }
  }

  function Messages(errs: seq<ValidationError>): seq<string> {
    seq(|errs|, k requires 0 <= k < |errs| => errs[k].Error())
  }

  /** What ValidationErrors.Error returns: every member's text, in order,
      with "; " between consecutive ones. */
  function ErrorsText(errs: seq<ValidationError>): string {
    Join(Messages(errs), "; ")
  }

  /** ValidationErrors.Error: the strings.Builder loop. */
  method ErrorsMessage(errs: seq<ValidationError>) returns (text: string)
    ensures text == ErrorsText(errs)
  {
    text := "";
    var i := 0;
    while i < |errs|
      invariant 0 <= i <= |errs|
      invariant text == Join(Messages(errs[..i]), "; ")
    {
      if i > 0 {
        text := text + "; ";
      }
      text := text + errs[i].Error();
      assert Messages(errs[..i + 1]) == Messages(errs[..i]) + [errs[i].Error()];
      JoinSnoc(Messages(errs[..i]), errs[i].Error(), "; ");
      i := i + 1;
    }
    assert errs[..|errs|] == errs;
  }

  /** The aggregate text starts with the first member's text and ends with the
      last one's, so there is no leading or trailing separator; a single
      error reads exactly as its own Error(). */
  lemma ErrorsTextEnds(errs: seq<ValidationError>)
    requires errs != []
    ensures errs[0].Error() <= ErrorsText(errs)
    ensures "validation failed on " <= ErrorsText(errs)
    ensures var t := ErrorsText(errs); var last := errs[|errs| - 1].Error();
            |last| <= |t| && t[|t| - |last|..] == last
    ensures |errs| == 1 ==> ErrorsText(errs) == errs[0].Error()
  {
    JoinEnds(Messages(errs), "; ");
    assert "validation failed on " <= errs[0].Error();
  }

  /** The text of two non-empty lists of errors run together is their two
      texts with one "; " between. */
  lemma ErrorsTextAppend(a: seq<ValidationError>, b: seq<ValidationError>)
    requires a != [] && b != []
    ensures ErrorsText(a + b) == ErrorsText(a) + "; " + ErrorsText(b)
  {
    assert Messages(a + b) == Messages(a) + Messages(b);
    JoinAppend(Messages(a), Messages(b), "; ");
  }

  // ---------------------------------------------------------------------------
  // The pass, as specification functions
  // ---------------------------------------------------------------------------

  /** The failure text, if any, of one raw rule expression run on field `f`:
      the expression is trimmed and resolved; a failed lookup (unknown name or
      bad parameter) is reported and no rule runs; otherwise it is the
      rule's own failure. */
  function ExprFailure(registry: map<string, Rules.Factory>, host: Host, f: Field, raw: string)
    : Option<string>
  {
    match Rules.GetRule(registry, TrimSpace(raw), host)
    case Err(e) => Some(e)
    case Ok(rule) => Rules.Validate(rule, f.value, f, host)
  }

  /** How the pass runs one expression of a field. The pass below is stated
      for any way of running an expression; validateStruct's is `Run`. */
  type Runner = (Field, string) -> Option<string>

  function Run(registry: map<string, Rules.Factory>, host: Host): Runner {
    (f, raw) => ExprFailure(registry, host, f, raw)
  }

  /** The error one expression contributes, as a list of zero or one. */
  function ExprError(run: Runner, f: Field, raw: string): seq<ValidationError> {
    match run(f, raw)
    case None => []
    case Some(m) => [ValidationError(f.name, m)]
  }

  /** The errors of the given expressions of `f`, in expression order. */
  function ExprErrors(run: Runner, f: Field, raws: seq<string>): seq<ValidationError>
    decreases |raws|
  {
    if raws == [] then []
    else ExprErrors(run, f, raws[..|raws| - 1]) + ExprError(run, f, raws[|raws| - 1])
  }

  /** The errors of one field: none when its tag is empty, else those of the
      comma-separated pieces of the tag. */
  function FieldErrors(run: Runner, f: Field): seq<ValidationError> {
    if f.tag == "" then [] else ExprErrors(run, f, Split(f.tag, ','))
  }

  /** The errors of a struct: each field's, in declaration order. */
  function StructErrors(run: Runner, fields: seq<Field>): seq<ValidationError> {
    Gather(fields, FieldCheck(run))
  }

  function FieldCheck(run: Runner): Field -> seq<ValidationError> {
    f => FieldErrors(run, f)
  }

  /** The errors of a list of items, each item's in turn: what a loop over the
      items that appends to one growing list produces. */
  function Gather<T>(items: seq<T>, errorsOf: T -> seq<ValidationError>): seq<ValidationError>
    decreases |items|
  {
    if items == [] then []
    else Gather(items[..|items| - 1], errorsOf) + errorsOf(items[|items| - 1])
  }

  // ---------------------------------------------------------------------------
  // The pass, as the source's loops
  // ---------------------------------------------------------------------------

  /** The inner loop of validateStruct: run each piece of a non-empty tag in
      turn and collect the failures, each under the field's name. */
  method CheckField(run: Runner, f: Field) returns (errs: seq<ValidationError>)
    ensures errs == FieldErrors(run, f)
  {
    errs := [];
    if f.tag == "" {
      return;
    }
    var raws := Split(f.tag, ',');
    var j := 0;
    while j < |raws|
      invariant 0 <= j <= |raws|
      invariant errs == ExprErrors(run, f, raws[..j])
    {
      var failure := run(f, raws[j]);
      if failure.Some? {
        errs := errs + [ValidationError(f.name, failure.value)];
      }
      assert raws[..j + 1][..j] == raws[..j];
      j := j + 1;
    }
    assert raws[..|raws|] == raws;
  }

  /** The outer loop of validateStruct: every top-level field in declaration
      order, appending its failures to one growing error list. */
  method CollectErrors(run: Runner, fields: seq<Field>) returns (errs: seq<ValidationError>)
    ensures errs == StructErrors(run, fields)
  {
    errs := [];
    var i := 0;
    while i < |fields|
      invariant 0 <= i <= |fields|
      invariant errs == StructErrors(run, fields[..i])
    {
      var fieldErrs := CheckField(run, fields[i]);
      errs := errs + fieldErrs;
      assert fieldErrs == FieldCheck(run)(fields[i]);
      assert fields[..i + 1][..i] == fields[..i];
      i := i + 1;
    }
    assert fields[..|fields|] == fields;
  }

  /** What validateStruct is handed: the dynamic type of `cfg`. */
  datatype Target =
    | NonPointer(typeName: string)
    | NilPointer(typeName: string)
    | PointerToStruct(fields: seq<Field>)
    | PointerToOther(elemTypeName: string)

  /** validateStruct's error result: nil, a misuse error, or the
      ValidationErrors list. */
  datatype Outcome = Passed | BadArgument(msg: string) | Rejected(errors: seq<ValidationError>)
  {
    /** The returned error's Error(), None when it is nil. */
    function ErrorText(): (r: Option<string>)
      ensures r.None? <==> Passed?
    {
      match this
      case Passed => None
      case BadArgument(m) => Some(m)
      case Rejected(es) => Some(ErrorsText(es))
    }
  }

  /** The result validateStruct returns for `cfg`, given the registry after
      seeding: anything but a non-nil pointer to a struct is a misuse error
      and no rule runs; otherwise the result is nil exactly when no error was
      collected, and the non-empty list of all collected errors if not. */
  function Verdict(registry: map<string, Rules.Factory>, host: Host, cfg: Target): (r: Outcome)
    ensures r.BadArgument? <==> !cfg.PointerToStruct?
    ensures r.Passed? <==> cfg.PointerToStruct? && StructErrors(Run(registry, host), cfg.fields) == []
    ensures r.Rejected? ==> r.errors != [] && r.errors == StructErrors(Run(registry, host), cfg.fields)
  {
    match cfg
    case NonPointer(t) => BadArgument("validateStruct: expected pointer to struct, got " + t)
    case NilPointer(t) => BadArgument("validateStruct: expected pointer to struct, got " + t)
    case PointerToOther(t) => BadArgument("validateStruct: expected struct, got " + t)
    case PointerToStruct(fields) =>
      var errs := StructErrors(Run(registry, host), fields);
      if |errs| > 0 then Rejected(errs) else Passed
  }

  /** validateStruct: seed the built-in rules (a no-op after the first time),
      check the argument, then run the pass. */
  method ValidateStruct(registry: Rules.Registry, host: Host, cfg: Target) returns (result: Outcome)
    requires registry.Valid()
    modifies registry
    ensures registry.Valid() && registry.defaultsLoaded
    ensures registry.factories == if old(registry.defaultsLoaded) then old(registry.factories)
                                  else old(registry.factories) + Rules.Defaults()
    ensures result == Verdict(registry.factories, host, cfg)
  {
    registry.RegisterDefaultRules();
    match cfg
    case NonPointer(t) =>
      result := BadArgument("validateStruct: expected pointer to struct, got " + t);
    case NilPointer(t) =>
      result := BadArgument("validateStruct: expected pointer to struct, got " + t);
    case PointerToOther(t) =>
      result := BadArgument("validateStruct: expected struct, got " + t);
    case PointerToStruct(fields) =>
      var errs := CollectErrors(Run(registry.factories, host), fields);
      if |errs| > 0 {
        result := Rejected(errs);
      } else {
        result := Passed;
      }
  }

  // ---------------------------------------------------------------------------
  // Properties of the pass
  // ---------------------------------------------------------------------------

  /** The errors of a list of expressions split in two are those of the first
      part followed by those of the second: every expression runs, whatever
      earlier ones did, and the errors keep the order of the expressions. */
  lemma {:induction false} ExprErrorsAppend(run: Runner, f: Field, a: seq<string>, b: seq<string>)
    ensures ExprErrors(run, f, a + b) == ExprErrors(run, f, a) + ExprErrors(run, f, b)
    decreases |b|
  {
    if b == [] {
      assert a + b == a;
    } else {
      var b' := b[..|b| - 1];
      ExprErrorsAppend(run, f, a, b');
      assert (a + b)[..|a + b| - 1] == a + b';
    }
  }

  /** Gathering keeps order and never drops an item: the errors of a list
      split in two are those of the first part followed by those of the
      second. */
  lemma {:induction false} GatherAppend<T>(a: seq<T>, b: seq<T>, errorsOf: T -> seq<ValidationError>)
    ensures Gather(a + b, errorsOf) == Gather(a, errorsOf) + Gather(b, errorsOf)
    decreases |b|
  {
    if b == [] {
      assert a + b == a;
    } else {
      var b' := b[..|b| - 1];
      GatherAppend(a, b', errorsOf);
      assert (a + b)[..|a + b| - 1] == a + b';
    }
  }

  /** Gathering yields nothing exactly when no item yields anything, and an
      error is gathered only if some item yields it. */
  lemma {:induction false} GatherEmpty<T>(items: seq<T>, errorsOf: T -> seq<ValidationError>)
    ensures Gather(items, errorsOf) == [] <==> forall k :: 0 <= k < |items| ==> errorsOf(items[k]) == []
    ensures forall e :: e in Gather(items, errorsOf) ==> exists k :: 0 <= k < |items| && e in errorsOf(items[k])
    decreases |items|
  {
    if items != [] {
      var init := items[..|items| - 1];
      GatherEmpty(init, errorsOf);
      assert forall k :: 0 <= k < |init| ==> init[k] == items[k];
    }
  }

  /** Fields are checked independently and in order: every field is checked
      whatever earlier ones did, and the errors keep the declaration order. */
  lemma StructErrorsAppend(run: Runner, a: seq<Field>, b: seq<Field>)
    ensures StructErrors(run, a + b) == StructErrors(run, a) + StructErrors(run, b)
  {
    GatherAppend(a, b, FieldCheck(run));
  }

  /** Each expression contributes at most one error, carrying the field's
      name, and a field passes exactly when every one of its expressions
      does. */
  lemma {:induction false} ExprErrorsShape(run: Runner, f: Field, raws: seq<string>)
    ensures |ExprErrors(run, f, raws)| <= |raws|
    ensures forall e :: e in ExprErrors(run, f, raws) ==> e.field == f.name
    ensures ExprErrors(run, f, raws) == [] <==> forall k :: 0 <= k < |raws| ==> run(f, raws[k]).None?
    decreases |raws|
  {
    if raws != [] {
      var init := raws[..|raws| - 1];
      ExprErrorsShape(run, f, init);
      if forall k :: 0 <= k < |raws| ==> run(f, raws[k]).None? {
        assert forall k :: 0 <= k < |init| ==> init[k] == raws[k];
      }
      if ExprErrors(run, f, raws) == [] {
        forall k | 0 <= k < |raws|
          ensures run(f, raws[k]).None?
        {
          if k < |init| {
            assert init[k] == raws[k];
          }
        }
      }
    }
  }

  /** A struct passes exactly when each of its fields does; in particular one
      with no `validate` tag at all always passes. */
  lemma StructErrorsEmpty(run: Runner, fields: seq<Field>)
    ensures StructErrors(run, fields) == [] <==> forall k :: 0 <= k < |fields| ==> FieldErrors(run, fields[k]) == []
    ensures (forall k :: 0 <= k < |fields| ==> fields[k].tag == "") ==> StructErrors(run, fields) == []
  {
    GatherEmpty(fields, FieldCheck(run));
  }

  /** Every error names a field of the struct that has a `validate` tag. */
  lemma ErrorsNameTaggedFields(run: Runner, fields: seq<Field>)
    ensures forall e :: e in StructErrors(run, fields) ==>
              exists k :: 0 <= k < |fields| && fields[k].tag != "" && fields[k].name == e.field
  {
    GatherEmpty(fields, FieldCheck(run));
    forall e | e in StructErrors(run, fields)
      ensures exists k :: 0 <= k < |fields| && fields[k].tag != "" && fields[k].name == e.field
    {
      var k :| 0 <= k < |fields| && e in FieldCheck(run)(fields[k]);
      var f := fields[k];
      ExprErrorsShape(run, f, Split(f.tag, ','));
    }
  }

  // ---------------------------------------------------------------------------
  // Properties of the pass as validateStruct runs it
  // ---------------------------------------------------------------------------

  /** Any lookup failure, an unknown name or a factory rejecting its
      parameter, is reported as exactly one error carrying the lookup's text,
      and no rule runs. */
  lemma LookupFailure(registry: map<string, Rules.Factory>, host: Host, f: Field, raw: string, e: string)
    requires Rules.GetRule(registry, TrimSpace(raw), host) == Err(e)
    ensures ExprError(Run(registry, host), f, raw) == [ValidationError(f.name, e)]
  {
    assert Run(registry, host)(f, raw) == ExprFailure(registry, host, f, raw);
  }

  /** An expression whose name is not registered is reported as unknown. */
  lemma UnknownExpression(registry: map<string, Rules.Factory>, host: Host, f: Field, raw: string)
    requires SplitFirst(TrimSpace(raw), '=')[0] !in registry
    ensures ExprError(Run(registry, host), f, raw)
            == [ValidationError(f.name, Rules.UnknownRuleMessage(SplitFirst(TrimSpace(raw), '=')[0]))]
  {
    LookupFailure(registry, host, f, raw, Rules.UnknownRuleMessage(SplitFirst(TrimSpace(raw), '=')[0]));
  }

  /** A trailing comma leaves an empty last piece, which is looked up as the
      rule named "" and, unless someone registered that name, reported as
      unknown after the errors of the other pieces. */
  lemma TrailingComma(registry: map<string, Rules.Factory>, host: Host, f: Field, t: string)
    requires f.tag == t + ","
    requires "" !in registry
    ensures FieldErrors(Run(registry, host), f)
            == ExprErrors(Run(registry, host), f, Split(t, ','))
               + [ValidationError(f.name, Rules.UnknownRuleMessage(""))]
  {
    var run := Run(registry, host);
    SplitConcat(t, "", ',');
    assert f.tag == t + [','] + "";
    ExprErrorsAppend(run, f, Split(t, ','), [""]);
    assert [""][..0] == [];
    assert TrimSpace("") == "";
    UnknownExpression(registry, host, f, "");
  }

  /** An expression that resolves to a rule runs that rule on the field. */
  lemma ResolvedExpression(registry: map<string, Rules.Factory>, host: Host, f: Field, raw: string,
                           rule: Rules.Rule)
    requires Rules.GetRule(registry, TrimSpace(raw), host) == Ok(rule)
    ensures Run(registry, host)(f, raw) == Rules.Validate(rule, f.value, f, host)
  {
    assert Run(registry, host)(f, raw) == ExprFailure(registry, host, f, raw);
  }

  /** An expression that trims to `name=p`, for a registered name, runs the
      rule that name's factory builds from `p`. */
  lemma ParameterExpression(registry: map<string, Rules.Factory>, host: Host, f: Field, raw: string,
                            name: string, p: string, rule: Rules.Rule)
    requires '=' !in name && name in registry
    requires TrimSpace(raw) == name + "=" + p
    requires Rules.Build(registry[name], p, host) == Ok(rule)
    ensures Run(registry, host)(f, raw) == Rules.Validate(rule, f.value, f, host)
  {
    Rules.GetRuleWithParameter(registry, name, p, host);
    ResolvedExpression(registry, host, f, raw, rule);
  }

  /** `min=a,max=b` on a numeric field passes exactly when a <= v <= b, where
      a and b are what ParseFloat makes of the two parameters. */
  lemma MinMaxWindow(registry: map<string, Rules.Factory>, host: Host, f: Field, a: string, b: string)
    requires "min" in registry && registry["min"] == Rules.MinFactory
    requires "max" in registry && registry["max"] == Rules.MaxFactory
    requires f.tag == ("min" + "=" + a) + "," + ("max" + "=" + b)
    requires ',' !in a && ',' !in b
    requires a == [] || !IsSpace(a[|a| - 1])
    requires b == [] || !IsSpace(b[|b| - 1])
    requires host.parseFloat(a).Ok? && host.parseFloat(b).Ok?
    requires IsNumeric(f.value)
    ensures FieldErrors(Run(registry, host), f) == []
            <==> host.parseFloat(a).value <= GetNumericValue(f.value).value <= host.parseFloat(b).value
  {
    var lo, hi := "min" + "=" + a, "max" + "=" + b;
    assert f.tag != "" && Split(f.tag, ',') == [lo, hi] by {
      TwoPieces(lo, hi);
    }
    assert Run(registry, host)(f, lo).None? <==> host.parseFloat(a).value <= GetNumericValue(f.value).value by {
      BoundForm(true, a);
      BoundPasses(registry, host, f, true, a, lo);
    }
    assert Run(registry, host)(f, hi).None? <==> GetNumericValue(f.value).value <= host.parseFloat(b).value by {
      BoundForm(false, b);
      BoundPasses(registry, host, f, false, b, hi);
    }
    WindowFromHalves(registry, host, f, lo, hi, host.parseFloat(a).value, host.parseFloat(b).value);
  }

  /** Two expressions, one a lower and one an upper bound, make a window. */
  lemma WindowFromHalves(registry: map<string, Rules.Factory>, host: Host, f: Field, lo: string, hi: string,
                         min: real, max: real)
    requires IsNumeric(f.value)
    requires f.tag != "" && Split(f.tag, ',') == [lo, hi]
    requires Run(registry, host)(f, lo).None? <==> min <= GetNumericValue(f.value).value
    requires Run(registry, host)(f, hi).None? <==> GetNumericValue(f.value).value <= max
    ensures FieldErrors(Run(registry, host), f) == [] <==> min <= GetNumericValue(f.value).value <= max
  {
    var v := GetNumericValue(f.value).value;
    PairPasses(Run(registry, host), f, lo, hi, min <= v, v <= max);
  }

  /** `min=p` and `max=p` are already trimmed when `p` does not end in
      white space. */
  lemma BoundForm(lower: bool, p: string)
    requires p == [] || !IsSpace(p[|p| - 1])
    ensures TrimSpace(BoundName(lower) + "=" + p) == BoundName(lower) + "=" + p
  {
    Untrimmed(BoundName(lower), p);
  }

  /** A field whose tag splits into exactly two expressions passes when both
      do. */
  lemma PairPasses(run: Runner, f: Field, x: string, y: string, px: bool, py: bool)
    requires f.tag != "" && Split(f.tag, ',') == [x, y]
    requires run(f, x).None? <==> px
    requires run(f, y).None? <==> py
    ensures FieldErrors(run, f) == [] <==> px && py
  {
    ExprErrorsShape(run, f, [x, y]);
  }

  /** The name of a bound rule: `min` for a lower bound, `max` for an upper. */
  function BoundName(lower: bool): string {
    if lower then "min" else "max"
  }

  /** `min=p` passes exactly when the value is at least `p`, and `max=p`
      exactly when it is at most `p`. */
  lemma BoundPasses(registry: map<string, Rules.Factory>, host: Host, f: Field, lower: bool, p: string, raw: string)
    requires raw == BoundName(lower) + "=" + p && TrimSpace(raw) == raw
    requires BoundName(lower) in registry
    requires registry[BoundName(lower)] == if lower then Rules.MinFactory else Rules.MaxFactory
    requires host.parseFloat(p).Ok?
    requires IsNumeric(f.value)
    ensures lower ==> (Run(registry, host)(f, raw).None? <==> host.parseFloat(p).value <= GetNumericValue(f.value).value)
    ensures !lower ==> (Run(registry, host)(f, raw).None? <==> GetNumericValue(f.value).value <= host.parseFloat(p).value)
  {
    assert Run(registry, host)(f, raw) == ExprFailure(registry, host, f, raw);
    BoundFailure(registry, host, f, lower, p, raw);
  }

  lemma BoundFailure(registry: map<string, Rules.Factory>, host: Host, f: Field, lower: bool, p: string, raw: string)
    requires raw == BoundName(lower) + "=" + p && TrimSpace(raw) == raw
    requires BoundName(lower) in registry
    requires registry[BoundName(lower)] == if lower then Rules.MinFactory else Rules.MaxFactory
    requires host.parseFloat(p).Ok?
    requires IsNumeric(f.value)
    ensures lower ==> (ExprFailure(registry, host, f, raw).None? <==> host.parseFloat(p).value <= GetNumericValue(f.value).value)
    ensures !lower ==> (ExprFailure(registry, host, f, raw).None? <==> GetNumericValue(f.value).value <= host.parseFloat(p).value)
  {
    var bound := host.parseFloat(p).value;
    var rule := if lower then Rules.Min(bound) else Rules.Max(bound);
    BoundRule(registry, host, lower, p, raw);
    assert ExprFailure(registry, host, f, raw) == Rules.Validate(rule, f.value, f, host);
  }

  /** `min=p` and `max=p` resolve to the bound ParseFloat makes of `p`. */
  lemma BoundRule(registry: map<string, Rules.Factory>, host: Host, lower: bool, p: string, raw: string)
    requires raw == BoundName(lower) + "=" + p
    requires BoundName(lower) in registry
    requires registry[BoundName(lower)] == if lower then Rules.MinFactory else Rules.MaxFactory
    requires host.parseFloat(p).Ok?
    ensures Rules.GetRule(registry, raw, host)
            == Ok(if lower then Rules.Min(host.parseFloat(p).value) else Rules.Max(host.parseFloat(p).value))
  {
    if lower {
      Rules.GetRuleWithParameter(registry, "min", p, host);
    } else {
      Rules.GetRuleWithParameter(registry, "max", p, host);
    }
  }

  /** Splitting `x,y` on `,` gives back `x` and `y` when neither holds a
      comma. */
  lemma TwoPieces(x: string, y: string)
    requires ',' !in x && ',' !in y
    ensures Split(x + "," + y, ',') == [x, y]
  {
    assert x + "," + y == x + [','] + y;
    SplitConcat(x, y, ',');
    SplitNoSeparator(x, ',');
    SplitNoSeparator(y, ',');
  }

  /** `name=p` has no white space at either end when `name` does not start
      with it and `p` does not end with it. */
  lemma Untrimmed(name: string, p: string)
    requires name != [] && !IsSpace(name[0])
    requires p == [] || !IsSpace(p[|p| - 1])
    ensures TrimSpace(name + "=" + p) == name + "=" + p
  {
    var s := name + "=" + p;
    assert s[0] == name[0];
    assert s[|s| - 1] == if p == [] then '=' else p[|p| - 1];
    TrimSpaceKeeps(s);
  }
}
