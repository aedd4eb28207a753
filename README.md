# kdl-config validation core in Dafny

kdl-config loads KDL configuration files into Go structs and then validates
them. The validation is driven by each struct field's `validate` tag, for
example `validate:"required,min=1,max=65535"`. This project models that
validation core.

- **The rules.** There are six built-in rules: `required`, `min`, `max`,
  `len`, `oneof` and `pattern`. The numeric coercion that `min` and `max` use
  (`GetNumericValue`) is modelled too.
- **The registry.** Rules are built from their tag parameters by factories.
  The factories live in a process-wide registry, modelled as the class
  `Rules.Registry`. `RegisterRule` adds or replaces one entry.
  `RegisterDefaultRules` installs the six built-in factories the first time it
  is called and does nothing on later calls.
- **Rule lookup.** `GetRule` splits a raw expression such as `min=5` at its
  first `=`, looks up the name and runs that name's factory on the parameter.
  An unknown name gives an error.
- **The validation pass.** `validateStruct` first seeds the registry. It then
  rejects anything that is not a non-nil pointer to a struct. For each
  top-level field with a non-empty tag, in declaration order, it:
  - splits the tag on `,`;
  - trims each piece;
  - resolves the piece through the registry;
  - runs the rule on the field's value.

  Every lookup failure and every rule failure becomes a `ValidationError`
  that carries the field's name. The pass returns them all together as
  `ValidationErrors`, whose `Error` joins their texts with `"; "`.

## How the model is organised

- **One module per Go file.** `RequiredRule`, `MinRule`, `MaxRule`, `LenRule`,
  `OneOfRule`, `PatternRule`, `ReflectUtils`, `Rules` and `Validation` each
  model the Go file of the same name.
- **`Reflect`** stands in for Go's `reflect` package. It describes what the
  core reads from a field: its kind, its number or string, whether it is nil,
  its length and whether it is the zero value.
- **`GoStrings`** defines the standard-library string functions the core
  uses:
  - `strings.Split`, `strings.SplitN(_, _, 2)` and `strings.TrimSpace`;
  - `%q` quoting and `%d` formatting;
  - the UTF-8 byte length of a string.

  It proves the facts about them that the core relies on.
- **`Platform.Host`** holds the behaviour this model does not define, as
  functions passed in as parameters:
  - `strconv.ParseFloat` and `strconv.Atoi`;
  - `regexp.Compile` and `MatchString`;
  - `%v` of a float.

  Every lemma holds for every real-valued behaviour of these functions.
- **Errors are their message texts.** A rule returns `None` when the field
  passes and `Some(msg)` when it fails, where `msg` is the text Go's error
  would print.
- **The two loops are methods.** The `strings.Builder` loop of
  `ValidationErrors.Error` and the field and rule loops of `validateStruct`
  are `while` loops. Each is proved equal to a recursive specification
  function (`ErrorsText`, `FieldErrors`, `StructErrors`), and the properties
  are proved as lemmas about those functions.
- **The registry is an object.** `Rules.Registry` has fields that its methods
  update, and `ValidateStruct` seeds it through `modifies`. `GetRule` and the
  pass read a snapshot of its map.

Points where the code's behaviour is easy to misread:

- **The pass is flat.** It walks only the top-level fields. A struct-valued
  field is never descended into, so there is no cycle guard to model.
- **`pattern` is not anchored.** It uses `MatchString`, which is satisfied
  when some substring of the value matches, not only the whole value.
- **`len` counts bytes.** On a string it counts UTF-8 bytes
  (`reflect.Value.Len`), not characters.
- **Floats are numbers.** `GetNumericValue` accepts float kinds as well as
  signed and unsigned integers. `uintptr` is not numeric.
- **Seeding overwrites once.** The first `RegisterDefaultRules` overwrites
  any entry already registered under a built-in name. A rule registered after
  that call survives.
- **`oneof` never fails to build.** Its "at least one option" error cannot
  happen, because `strings.Split` never returns an empty list. An empty
  parameter gives the single option `""` (see `Rules.EmptyOneOf`).

## Model

| member | source | states |
|---|---|---|
| RequiredRule.Validate | rules/required_rule.go:11-36 | A slice or map fails exactly when it is nil or has length 0. An array fails exactly when its length is 0. A pointer or interface fails exactly when it is nil. Every other kind fails exactly when it is its zero value. Each failure's message is stated: "field is required (non-empty <kind>)" for a slice or map, "field is required (non-empty array)" for an array, "field is required (non-nil <kind>)" for a pointer or interface, and plain "field is required" otherwise. |
| MinRule.Validate | rules/min_rule.go:12-21 | A non-numeric value fails with GetNumericValue's error. A numeric value fails exactly when it is below the minimum. |
| MaxRule.Validate | rules/max_rule.go:12-21 | A non-numeric value fails with GetNumericValue's error. A numeric value fails exactly when it is above the maximum. |
| LenRule.Validate | rules/len_rule.go:11-23 | Values without a length fail with "not supported for <kind>". The others pass exactly when their length equals the parameter, and otherwise fail with "length L != N" in decimal. |
| LenRule.CountsBytes | rules/len_rule.go:14-15 | `len=` with a string's character count passes exactly when the string is all ASCII, because the length counted is in UTF-8 bytes. |
| LenRule.NilHasLengthZero | rules/len_rule.go:14-20 | A nil slice or map passes `len=N` exactly when N is 0. |
| OneOfRule.Validate | rules/oneof_rule.go:11-22 | A non-string fails with a message naming its kind. A string passes exactly when it is one of the options, and otherwise fails with the quoted value and the option list. |
| OneOfRule.OptionsAsSet | rules/oneof_rule.go:16-20 | Only the set of options matters: their order and repetitions do not change the outcome. |
| PatternRule.Validate | rules/pattern_rule.go:12-21 | A non-string fails with a message naming its kind. A string passes exactly when the compiled pattern matches it, and otherwise fails with the quoted value and the quoted pattern. |
| ReflectUtils.GetNumericValue | internal/reflectutils/reflect.go:8-19 | There is no error exactly for the integer, unsigned and float kinds, and then the value is the field's number. Any other kind gives 0 and the "applicable only to numbers" error naming the kind. |
| ReflectUtils.IntegerFieldBounds | internal/reflectutils/reflect.go:10-13 | The number an integer field of any width yields, when the field holds a value its width allows, lies at or above -2^63 and below 2^64. |
| Reflect.Len | rules/required_rule.go:19 | A nil slice or map has length 0. A string's length lies between its character count and four times that. |
| Rules.Rule.Name | rules/rules.go:18 | No ensures of its own. Rules.DefaultRuleNames carries its meaning: a seeded factory's rule reports that factory's name. |
| Rules.Validate | rules/rules.go:19 | No ensures of its own. It hands each built-in rule to its module's Validate, whose contracts state each rule's meaning, and a custom rule to its own check. Rules.BuiltinIgnoresStructField is about it. |
| Rules.BuiltinIgnoresStructField | rules/rules.go:17-20 | A built-in rule's outcome does not depend on the struct field passed beside the value. |
| Rules.Defaults | rules/rules.go:72-115 | The seeded names are exactly required, min, max, len, oneof and pattern. |
| Rules.Build | rules/rules.go:72-115 | No ensures of its own. Runs a factory on its parameter. Rules.RequiredEntry, MinEntry, MaxEntry, LenEntry, OneOfEntry and PatternEntry state what each built-in factory builds or which error it gives. |
| Rules.GetRule | rules/rules.go:43-59 | A lookup that succeeds had its name, the text before the first `=`, registered. Rules.GetRuleWithParameter, GetRuleBare, RegisteredLookup and OtherLookupsUnchanged state the rest. |
| Rules.GetRuleWithParameter | rules/rules.go:43-59 | For a name without `=`, `name=param` fails as unknown exactly when the name is not registered. Otherwise it runs the name's factory on the whole text after the first `=`. |
| Rules.GetRuleBare | rules/rules.go:54-58 | An expression without `=` runs its factory on the empty parameter, or fails as unknown. |
| Rules.RegisteredLookup | rules/rules.go:36-40 | After registering a factory under a name, both the `name=param` and the bare lookups of that name build with that factory. |
| Rules.OtherLookupsUnchanged | rules/rules.go:36-40 | Registering under one name does not change any lookup whose name part differs. |
| Rules.RequiredEntry | rules/rules.go:73-75 | `required`, with any parameter, builds the required rule. |
| Rules.MinEntry | rules/rules.go:77-83 | `min=p` builds Min of the parsed number, or fails with "invalid min value" and the quoted parameter when parsing fails. |
| Rules.MaxEntry | rules/rules.go:85-91 | `max=p` builds Max of the parsed number, or fails with "invalid max value" and the quoted parameter when parsing fails. |
| Rules.LenEntry | rules/rules.go:93-99 | `len=p` builds Len of the parsed integer, or fails with "invalid len value" and the quoted parameter when parsing fails. |
| Rules.OneOfEntry | rules/rules.go:101-107 | `oneof=p` always builds, with the options being p split on `\|`. |
| Rules.PatternEntry | rules/rules.go:109-115 | `pattern=p` builds the pattern rule when p compiles, and fails with "invalid pattern" and the quoted source when it does not. |
| Rules.DefaultRuleNames | rules/rules.go:72-115 | Every rule a seeded factory builds reports that factory's name as its Name. |
| Rules.EmptyOneOf | rules/rules.go:101-106 | `oneof=` builds the single option "", which only the empty string passes. |
| Rules.Registry.constructor | rules/rules.go:29-33 | The registry starts empty and not yet seeded. |
| Rules.Registry.RegisterRule | rules/rules.go:36-40 | The map gains or replaces exactly that one entry, and the seeded flag is unchanged. |
| Rules.Registry.RegisterDefaultRules | rules/rules.go:63-116 | The first call overlays the six built-in entries and sets the flag. Any later call changes nothing. |
| Rules.SeedingScenario | rules/rules.go:63-70 | The map returned as `seeded`, taken right after the first seeding, is exactly the built-in entries, so the override of `min` registered before it is gone. An override registered after it, and any new name, survives a second seeding. |
| Validation.ValidationError.Error | validate.go:16-18 | The text starts with "validation failed on " and ends with the error's message. |
| Validation.ErrorsText | validate.go:23-32 | No ensures of its own. It is the specification of ValidationErrors.Error; Validation.ErrorsMessage, ErrorsTextEnds and ErrorsTextAppend state its meaning. |
| Validation.ErrorsMessage | validate.go:23-32 | The builder loop returns ErrorsText: every error's text, in order, joined by "; ". |
| Validation.ErrorsTextEnds | validate.go:16-32 | A non-empty list's text starts with "validation failed on " and with the first error's own text, and ends with the last error's text. A single error's text is exactly its own. |
| Validation.ErrorsTextAppend | validate.go:23-32 | The text of two lists concatenated is their texts joined by "; ". |
| Validation.ExprFailure | validate.go:62-70 | No ensures of its own. One trimmed expression: a lookup error, or else the rule's own failure. Validation.LookupFailure, UnknownExpression, ResolvedExpression, ParameterExpression and BoundPasses state its meaning. |
| Validation.FieldErrors | validate.go:55-71 | No ensures of its own. It is the specification of the rule loop; Validation.CheckField, ExprErrorsAppend, ExprErrorsShape, TrailingComma and MinMaxWindow state its meaning. |
| Validation.StructErrors | validate.go:53-72 | No ensures of its own. It is the specification of the field loop; Validation.CollectErrors, StructErrorsAppend, StructErrorsEmpty and ErrorsNameTaggedFields state its meaning. |
| Validation.Outcome.ErrorText | validate.go:74-77 | The returned error is nil exactly when the pass succeeded. |
| Validation.CheckField | validate.go:55-71 | The rule loop for one field returns FieldErrors. That is nothing for an empty tag, and otherwise one error per failing trimmed piece of the tag, in order. |
| Validation.CollectErrors | validate.go:50-72 | The field loop returns StructErrors: each field's errors in declaration order. |
| Validation.Verdict | validate.go:41-77 | A target that is not a pointer to a struct gets the bad-argument error. Otherwise the pass succeeds exactly when there are no errors, and when there are some it returns exactly all of them. |
| Validation.ValidateStruct | validate.go:37-78 | The result is the Verdict over the registry as seeded by its first step. The registry ends seeded and otherwise unchanged. |
| Validation.ExprErrorsAppend | validate.go:61-71 | The errors of a concatenation of pieces are the concatenation of their errors. |
| Validation.GatherAppend | validate.go:53-72 | Collecting over two field lists concatenated gives their errors concatenated. |
| Validation.GatherEmpty | validate.go:53-77 | There is no error exactly when no item yields one. Every error comes from some item. |
| Validation.StructErrorsAppend | validate.go:53-72 | The errors of two field lists concatenated are their errors concatenated. |
| Validation.ExprErrorsShape | validate.go:61-71 | A field yields at most one error per piece, every error names that field, and there is none exactly when every piece passes. |
| Validation.StructErrorsEmpty | validate.go:53-77 | The struct passes exactly when every field passes. A struct without tags always passes. |
| Validation.ErrorsNameTaggedFields | validate.go:55-70 | Every error names some field with a non-empty tag. |
| Validation.LookupFailure | validate.go:63-67 | Any lookup error, an unknown name or a factory rejecting its parameter such as `min=abc`, gives exactly one error carrying the field's name and that error's text, and no rule runs. |
| Validation.UnknownExpression | validate.go:62-67 | A piece whose name is unregistered yields exactly one error, carrying "unknown validation rule" and the quoted name. |
| Validation.TrailingComma | validate.go:61-67 | A trailing comma adds an empty piece, which yields an `unknown validation rule ""` error after the others (when "" is not registered). |
| Validation.ResolvedExpression | validate.go:63-70 | A piece that resolves to a rule fails exactly as that rule's Validate does on the field. |
| Validation.ParameterExpression | validate.go:62-70 | Surrounding spaces are trimmed before lookup, so ` name=p ` behaves as the rule built from `p`. |
| Validation.MinMaxWindow | rules/max_rule.go:17-20 | With the built-in entries, a numeric field tagged `min=a,max=b` passes exactly when a ≤ value ≤ b. |
| Validation.BoundPasses | rules/min_rule.go:17-20 | A single `min=p` or `max=p` piece passes exactly when the value lies on the permitted side of p. |
| GoStrings.SplitJoin | validate.go:61 | Joining the pieces of a split with its separator gives back the original tag. |
| GoStrings.JoinSplit | validate.go:61 | Splitting a join of separator-free pieces gives back the pieces. |
| GoStrings.Split | validate.go:61 | A split has at least one piece, and no piece contains the separator. |
| GoStrings.SplitConcat | validate.go:61 | Splitting `a,b` gives the pieces of `a` followed by those of `b`. |
| GoStrings.SplitNoSeparator | validate.go:61 | A tag without a comma is a single piece. |
| GoStrings.SplitFirst | rules/rules.go:44 | SplitN(raw, "=", 2) gives one part exactly when there is no `=`. With two parts, the first has no `=` and the two rebuild the input around the first `=`. |
| GoStrings.SplitFirstAt | rules/rules.go:44-57 | Splitting `a=b`, where `a` has no `=`, gives exactly `a` and `b`. |
| GoStrings.TrimSpace | validate.go:62 | The result neither starts nor ends with white space. |
| GoStrings.TrimSpaceInfix | validate.go:62 | The result is a contiguous part of the input with only white space removed on either side. |
| GoStrings.TrimSpaceKeeps | validate.go:62 | A string without white space at its ends is unchanged. |
| GoStrings.QuotePlain | rules/rules.go:51 | `%q` of a string without quotes, backslashes or control characters just adds the surrounding quotes. |
| GoStrings.NatToStringRoundTrip | rules/len_rule.go:20 | The decimal digits read back as the number. |
| GoStrings.IntToStringInjective | rules/len_rule.go:20 | Different lengths are printed differently. |
| GoStrings.Utf8LenBounds | rules/len_rule.go:15 | A string's byte length lies between its character count and four times that, and equals the character count exactly when every character is ASCII. |

## Left out

- watch.go, loader.go and the examples are not part of this model. They handle file watching, KDL decoding and demonstration programs, all outside the validation core.
- The `regMu` read/write lock is not modelled. The model is single-threaded, so every registry access is atomic.
- `strconv.ParseFloat`, `strconv.Atoi`, `regexp.Compile`, `MatchString` and `%v` of a float are parameters (`Platform.Host`) rather than definitions. The properties hold for every real-valued behaviour of them.
- Platform.Host: `parseFloat` returns a `real`, so it cannot represent ParseFloat accepting "NaN", "Inf" or "-Infinity" without error. In Go, on a numeric field, `min=NaN` and `max=NaN` always pass, and `min=Inf` fails every finite value. No lemma here describes those outcomes.
- Rules.Factory: a user factory returns either a rule or an error. A Go factory returning a nil rule with a nil error makes the call to `Validate` panic during the pass, and a nil factory passed to `RegisterRule` makes the call `factory(param)` panic on lookup; neither case is modelled.
- Validation.ValidateStruct: the pass reads one snapshot of the registry taken after seeding. In Go each `GetRule` reads the live map, so a custom rule or factory that calls `RegisterRule` during the pass changes the lookups of later expressions. The model does not capture that.
- ReflectUtils.GetNumericValue: returns the exact number as a `real`. It models neither the rounding of a large int64 or uint64 to float64 nor NaN and infinities.
- MinRule.Validate and MaxRule.Validate: compare exact reals, so a NaN that fails neither comparison in Go is not represented.
- GoStrings.Quote: treats every non-ASCII character as printable. Go's `%q` also escapes non-printable Unicode characters and invalid UTF-8.
- Strings are sequences of Unicode scalar values. A Go string holding invalid UTF-8 cannot be expressed.
- The `%T` type name in the bad-argument error is supplied by the target (`Validation.Target`) rather than computed by reflection.
- Reflection itself is not modelled. Fields are given as a list of (name, tag, value), and a custom rule sees that `Field` rather than a full `reflect.StructField`.
- Validation.CheckField: the inner rule loop of `validateStruct` is its own method, called from the field loop, with the same order and effect.
- The trimming and lookup of each piece happen inside the specification function `Validation.ExprFailure` rather than as separate loop statements.
- The source's tests are not part of this model.
