/**
 * What the validation core sees of a configuration struct through Go's
 * `reflect` package: each top-level field's name, its `validate` tag and a
 * description of its value detailed enough for the built-in rules (its kind,
 * its number or string, whether it is nil, its length, whether it is the
 * zero value of its type).
 */
module Reflect {
  import opened GoStrings

  /** The size suffix of an integer kind: `Natural` is plain int / uint. */
  datatype Width = Natural | W8 | W16 | W32 | W64

  datatype FloatWidth = F32 | F64

  /** The kinds that no built-in rule inspects beyond `IsZero`. A struct-valued
      field is one of them: the validation pass does not descend into it. */
  datatype OpaqueKind = Uintptr | Complex64 | Complex128 | Chan | Func | Struct | UnsafePointer

  /** A field's value. A nil slice or map has length 0 whatever `len` says
      (see `Len`). */
  datatype Value =
    | Bool(b: bool)
    | Int(iw: Width, i: int)
    | Uint(uw: Width, u: nat)
    | Float(fw: FloatWidth, f: real)
    | Str(s: string)
    | Slice(isNil: bool, len: nat)
    | Map(isNil: bool, len: nat)
    | Array(len: nat)
    | Ptr(isNil: bool)
    | Iface(isNil: bool)
    | Opaque(kind: OpaqueKind, isZero: bool)

  /** The values a Go field of the value's kind can hold: an intN or uintN
      keeps to N bits, and plain int and uint are 64 bits wide. The rules take
      any Value; this says which ones a real field produces. */
  predicate InRange(v: Value) {
    match v
    case Int(w, i) => -(Pow2(Bits(w) - 1) as int) <= i < Pow2(Bits(w) - 1)
    case Uint(w, u) => u < Pow2(Bits(w))
    case _ => true
  }

  function Bits(w: Width): (n: nat)
    ensures 8 <= n <= 64
  {
    match w
    case Natural => 64
    case W8 => 8
    case W16 => 16
    case W32 => 32
    case W64 => 64
  }

  function Pow2(n: nat): nat {
    if n == 0 then 1 else 2 * Pow2(n - 1)
  }

  lemma {:induction false} Pow2Monotone(m: nat, n: nat)
    requires m <= n
    ensures Pow2(m) <= Pow2(n)
  {
    if m < n {
      Pow2Monotone(m, n - 1);
    }
  }

  /** One top-level struct field: its name, the value of its `validate` tag
      ("" when absent) and its value. */
  datatype Field = Field(name: string, tag: string, value: Value)

  function WidthSuffix(w: Width): string {
    match w
    case Natural => ""
    case W8 => "8"
    case W16 => "16"
    case W32 => "32"
    case W64 => "64"
  }

  /** reflect.Kind.String() of the value's kind. */
  function KindName(v: Value): string {
    match v
    case Bool(_) => "bool"
    case Int(w, _) => "int" + WidthSuffix(w)
    case Uint(w, _) => "uint" + WidthSuffix(w)
    case Float(w, _) => if w == F32 then "float32" else "float64"
    case Str(_) => "string"
    case Slice(_, _) => "slice"
    case Map(_, _) => "map"
    case Array(_) => "array"
    case Ptr(_) => "ptr"
    case Iface(_) => "interface"
    case Opaque(k, _) =>
      match k
      case Uintptr => "uintptr"
      case Complex64 => "complex64"
      case Complex128 => "complex128"
      case Chan => "chan"
      case Func => "func"
      case Struct => "struct"
      case UnsafePointer => "unsafe.Pointer"
  }

  /** The kinds reflect.Value.Len accepts here: array, slice, map, string. */
  predicate HasLen(v: Value) {
    v.Array? || v.Slice? || v.Map? || v.Str?
  }

  /** reflect.Value.Len: elements of an array, slice or map (0 when nil),
      bytes of a string. */
  function Len(v: Value): (n: nat)
    requires HasLen(v)
    ensures (v.Slice? || v.Map?) && v.isNil ==> n == 0
    ensures v.Str? ==> |v.s| <= n <= 4 * |v.s|
  {
    match v
    case Array(n) => n
    case Slice(isNil, n) => if isNil then 0 else n
    case Map(isNil, n) => if isNil then 0 else n
    case Str(s) => Utf8LenBounds(s); Utf8Len(s)
  }

  /** The kinds `required` judges by reflect.Value.IsZero rather than by
      length or nil-ness. */
  predicate IsScalar(v: Value) {
    v.Bool? || v.Int? || v.Uint? || v.Float? || v.Str? || v.Opaque?
  }

  /** reflect.Value.IsZero: the value equals the zero value of its type. */
  predicate IsZero(v: Value)
    requires IsScalar(v)
  {
    match v
    case Bool(b) => !b
    case Int(_, i) => i == 0
    case Uint(_, u) => u == 0
    case Float(_, f) => f == 0.0
    case Str(s) => s == ""
    case Opaque(_, z) => z
  }
}
