/**
 * rules/rules.go: the rule capability, the factories that build rules from a
 * tag parameter, the lookup of a raw rule expression, and the process-wide
 * registry of factories (modelled single-threaded, without its lock).
 */
module Rules {
  import opened Wrappers
  import opened GoStrings
  import opened Reflect
  import opened Platform
  import RequiredRule
  import MinRule
  import MaxRule
  import LenRule
  import OneOfRule
  import PatternRule

  /** A built rule with its parameters. `Custom` is a rule a caller supplied
      through RegisterRule: its name and its Validate(fv, sf). */
  datatype Rule =
    | Required
    | Min(min: real)
    | Max(max: real)
    | Len(length: int)
    | OneOf(options: seq<string>)
    | Pattern(source: string)
    | Custom(name: string, check: (Value, Field) -> Option<string>)
  {
    /** Rule.Name */
    function Name(): string {
      match this
      case Required => "required"
      case Min(_) => "min"
      case Max(_) => "max"
      case Len(_) => "len"
      case OneOf(_) => "oneof"
      case Pattern(_) => "pattern"
      case Custom(name, _) => name
    }
  }

  /** Rule.Validate(fv, sf): None when the field passes, else the error text.
      The built-in rules look only at the value; a custom rule also sees the
      struct field. */
  function Validate(rule: Rule, fv: Value, sf: Field, host: Host): Option<string> {
    match rule
    case Required => RequiredRule.Validate(fv)
    case Min(min) => MinRule.Validate(min, fv, host)
    case Max(max) => MaxRule.Validate(max, fv, host)
    case Len(length) => LenRule.Validate(length, fv)
    case OneOf(options) => OneOfRule.Validate(options, fv)
    case Pattern(source) => PatternRule.Validate(source, fv, host)
    case Custom(_, check) => check(fv, sf)
  }

  /** The outcome of a built-in rule does not depend on the struct field. */
  lemma BuiltinIgnoresStructField(rule: Rule, fv: Value, sf1: Field, sf2: Field, host: Host)
    requires !rule.Custom?
    ensures Validate(rule, fv, sf1, host) == Validate(rule, fv, sf2, host)
  {
  }

  /** A RuleFactory: one of the six built-in ones, or a caller's function. */
  datatype Factory =
    | RequiredFactory
    | MinFactory
    | MaxFactory
    | LenFactory
    | OneOfFactory
    | PatternFactory
    | UserFactory(build: string -> Result<Rule, string>)

  /** Calling a factory on its parameter. */
  function Build(factory: Factory, param: string, host: Host): Result<Rule, string> {
    match factory
    case RequiredFactory => Ok(Required)
    case MinFactory =>
      (match host.parseFloat(param)
       case Ok(f) => Ok(Min(f))
       case Err(e) => Err("invalid min value " + Quote(param) + ": " + e))
    case MaxFactory =>
      (match host.parseFloat(param)
       case Ok(f) => Ok(Max(f))
       case Err(e) => Err("invalid max value " + Quote(param) + ": " + e))
    case LenFactory =>
      (match host.atoi(param)
       case Ok(n) => Ok(Len(n))
       case Err(e) => Err("invalid len value " + Quote(param) + ": " + e))
    case OneOfFactory =>
      var opts := Split(param, '|');
      if |opts| == 0 then Err("oneof: at least one option must be specified")
      else Ok(OneOf(opts))
    case PatternFactory =>
      (match host.compile(param)
       case None => Ok(Pattern(param))
       case Some(e) => Err("invalid pattern " + Quote(param) + ": " + e))
    case UserFactory(build) => build(param)
  }

  /** The names RegisterDefaultRules installs. */
  const BuiltinNames: set<string> := {"required", "min", "max", "len", "oneof", "pattern"}

  /** The entries RegisterDefaultRules installs. */
  function Defaults(): (m: map<string, Factory>)
    ensures m.Keys == BuiltinNames
  {
    map["required" := RequiredFactory, "min" := MinFactory, "max" := MaxFactory,
        "len" := LenFactory, "oneof" := OneOfFactory, "pattern" := PatternFactory]
  }

  function UnknownRuleMessage(name: string): string {
    "unknown validation rule " + Quote(name)
  }

  /** GetRule(raw): split `raw` at its first `=` into a name and a parameter
      ("" when there is no `=`), look the name up, and run its factory. */
  function GetRule(registry: map<string, Factory>, raw: string, host: Host): (r: Result<Rule, string>)
    ensures r.Ok? ==> SplitFirst(raw, '=')[0] in registry
  {
    var parts := SplitFirst(raw, '=');
    var name := parts[0];
    if name !in registry then Err(UnknownRuleMessage(name))
    else
      var param := if |parts| == 2 then parts[1] else "";
      Build(registry[name], param, host)
  }

  /** `name=param` looks up exactly the text before the first `=` and hands
      everything after it, further `=` included, to the factory; an unknown
      name fails without running any factory. */
  lemma GetRuleWithParameter(registry: map<string, Factory>, name: string, param: string, host: Host)
    requires '=' !in name
    ensures GetRule(registry, name + "=" + param, host)
            == if name in registry then Build(registry[name], param, host)
               else Err(UnknownRuleMessage(name))
  {
    SplitFirstAt(name, param, '=');
  }

  /** A bare name is looked up as it is and its factory gets "". */
  lemma GetRuleBare(registry: map<string, Factory>, name: string, host: Host)
    requires '=' !in name
    ensures GetRule(registry, name, host)
            == if name in registry then Build(registry[name], "", host)
               else Err(UnknownRuleMessage(name))
  {
  }

  /** After registering `factory` under `name`, every lookup of `name` runs
      `factory` (the last registration wins). */
  lemma RegisteredLookup(registry: map<string, Factory>, name: string, factory: Factory,
                         param: string, host: Host)
    requires '=' !in name
    ensures GetRule(registry[name := factory], name + "=" + param, host) == Build(factory, param, host)
    ensures GetRule(registry[name := factory], name, host) == Build(factory, "", host)
  {
    GetRuleWithParameter(registry[name := factory], name, param, host);
  }

  /** Registering a name leaves the lookup of every expression whose name
      differs exactly as it was. */
  lemma OtherLookupsUnchanged(registry: map<string, Factory>, name: string, factory: Factory,
                              raw: string, host: Host)
    requires SplitFirst(raw, '=')[0] != name
    ensures GetRule(registry[name := factory], raw, host) == GetRule(registry, raw, host)
  {
  }

  /** `required=...` always builds the required rule, whatever follows `=`. */
  lemma RequiredEntry(param: string, host: Host)
    ensures GetRule(Defaults(), "required=" + param, host) == Ok(Required)
  {
    assert "required=" + param == "required" + "=" + param;
    GetRuleWithParameter(Defaults(), "required", param, host);
  }

  /** `min=p` builds a lower bound exactly when ParseFloat accepts `p`, with
      the number it parses; otherwise it fails with "invalid min value". */
  lemma MinEntry(param: string, host: Host)
    ensures host.parseFloat(param).Ok? ==>
              GetRule(Defaults(), "min=" + param, host) == Ok(Min(host.parseFloat(param).value))
    ensures host.parseFloat(param).Err? ==>
              GetRule(Defaults(), "min=" + param, host)
              == Err("invalid min value " + Quote(param) + ": " + host.parseFloat(param).error)
  {
    assert "min=" + param == "min" + "=" + param;
    GetRuleWithParameter(Defaults(), "min", param, host);
  }

  /** `max=p` builds an upper bound exactly when ParseFloat accepts `p`. */
  lemma MaxEntry(param: string, host: Host)
    ensures host.parseFloat(param).Ok? ==>
              GetRule(Defaults(), "max=" + param, host) == Ok(Max(host.parseFloat(param).value))
    ensures host.parseFloat(param).Err? ==>
              GetRule(Defaults(), "max=" + param, host)
              == Err("invalid max value " + Quote(param) + ": " + host.parseFloat(param).error)
  {
    assert "max=" + param == "max" + "=" + param;
    GetRuleWithParameter(Defaults(), "max", param, host);
  }

  /** `len=p` builds an exact-length rule exactly when Atoi accepts `p`. */
  lemma LenEntry(param: string, host: Host)
    ensures host.atoi(param).Ok? ==>
              GetRule(Defaults(), "len=" + param, host) == Ok(Len(host.atoi(param).value))
    ensures host.atoi(param).Err? ==>
              GetRule(Defaults(), "len=" + param, host)
              == Err("invalid len value " + Quote(param) + ": " + host.atoi(param).error)
  {
    assert "len=" + param == "len" + "=" + param;
    GetRuleWithParameter(Defaults(), "len", param, host);
  }

  /** `oneof=p` never fails: its options are the `|`-separated pieces of `p`,
      of which there is always at least one. */
  lemma OneOfEntry(param: string, host: Host)
    ensures GetRule(Defaults(), "oneof=" + param, host) == Ok(OneOf(Split(param, '|')))
  {
    assert "oneof=" + param == "oneof" + "=" + param;
    GetRuleWithParameter(Defaults(), "oneof", param, host);
  }

  /** `pattern=p` builds a pattern rule exactly when `p` compiles; a bad
      expression is rejected here, before any value is looked at. */
  lemma PatternEntry(param: string, host: Host)
    ensures host.compile(param).None? ==>
              GetRule(Defaults(), "pattern=" + param, host) == Ok(Pattern(param))
    ensures host.compile(param).Some? ==>
              GetRule(Defaults(), "pattern=" + param, host)
              == Err("invalid pattern " + Quote(param) + ": " + host.compile(param).value)
  {
    assert "pattern=" + param == "pattern" + "=" + param;
    GetRuleWithParameter(Defaults(), "pattern", param, host);
  }

  /** The rule a built-in entry builds reports that entry's name. */
  lemma DefaultRuleNames(name: string, param: string, host: Host)
    requires name in BuiltinNames
    ensures Build(Defaults()[name], param, host).Ok? ==>
              Build(Defaults()[name], param, host).value.Name() == name
  {
  }

  /** `oneof=` has the single option "": it admits the empty string only. */
  lemma EmptyOneOf(fv: Value, host: Host)
    ensures GetRule(Defaults(), "oneof=", host) == Ok(OneOf([""]))
    ensures fv.Str? ==> (OneOfRule.Validate([""], fv).None? <==> fv.s == "")
  {
    OneOfEntry("", host);
    assert "oneof=" == "oneof=" + "";
  }

  /** The registry: the name → factory map and the `defaultRulesLoaded` flag.
      Once the defaults are loaded every built-in name has an entry (entries
      are replaced, never removed). */
  class Registry {
    var factories: map<string, Factory>
    var defaultsLoaded: bool

    ghost predicate Valid()
      reads this
    {
      defaultsLoaded ==> BuiltinNames <= factories.Keys
    }

    /** The registry at program start: empty, defaults not loaded. */
    constructor ()
      ensures Valid()
      ensures factories == map[] && !defaultsLoaded
    {
      factories := map[];
      defaultsLoaded := false;
    }

    /** RegisterRule: install or replace the entry for `name`; every other
        entry and the flag are unchanged. */
    method RegisterRule(name: string, factory: Factory)
      requires Valid()
      modifies this
      ensures Valid()
      ensures factories == old(factories)[name := factory]
      ensures defaultsLoaded == old(defaultsLoaded)
    {
      factories := factories[name := factory];
    }

    /** RegisterDefaultRules: the first call installs the six built-in entries
        (replacing any earlier entry under those names) and sets the flag;
        every later call changes nothing. */
    method RegisterDefaultRules()
      requires Valid()
      modifies this
      ensures Valid() && defaultsLoaded
      ensures factories == if old(defaultsLoaded) then old(factories) else old(factories) + Defaults()
    {
      if defaultsLoaded {
        return;
      }
      defaultsLoaded := true;
      factories := factories + Defaults();
    }
  }

  /** Seeding is idempotent, so an override registered after the first
      seeding survives later ones, while one registered before it is
      replaced by the built-in entry: `seeded` is the map right after the
      first seeding, where the earlier `min` override is already gone. */
  method SeedingScenario(custom: Factory) returns (seeded: map<string, Factory>, registry: Registry)
    requires custom != MinFactory
    ensures seeded == Defaults() && seeded["min"] != custom
    ensures registry.Valid() && registry.defaultsLoaded
    ensures registry.factories == Defaults()["min" := custom]["isodd" := custom]
  {
    registry := new Registry();
    registry.RegisterRule("min", custom);
    registry.RegisterDefaultRules();
    seeded := registry.factories;
    registry.RegisterRule("min", custom);
    registry.RegisterRule("isodd", custom);
    registry.RegisterDefaultRules();
    assert registry.factories == Defaults()["min" := custom]["isodd" := custom];
  }
}
