/** internal/reflectutils: turning a numeric field into the float64 the
    `min` and `max` rules compare against (here an exact real). */
module ReflectUtils {
  import opened Wrappers
  import opened Reflect

  /** GetNumericValue's two results: the number and the error (None is nil). */
  datatype Numeric = Numeric(value: real, err: Option<string>)

  predicate IsNumeric(v: Value) {
    v.Int? || v.Uint? || v.Float?
  }

  function NotNumberMessage(v: Value): string {
    "the rule is applicable only to numbers, received " + KindName(v)
  }

  /** Every signed, unsigned and floating kind yields its value and no error;
      every other kind (uintptr included) yields 0 and an error naming the
      kind. */
  function GetNumericValue(v: Value): (r: Numeric)
    ensures r.err.None? <==> IsNumeric(v)
    ensures v.Int? ==> r.value == v.i as real
    ensures v.Uint? ==> r.value == v.u as real
    ensures v.Float? ==> r.value == v.f
    ensures !IsNumeric(v) ==> r == Numeric(0.0, Some(NotNumberMessage(v)))
  {
    match v
    case Int(_, i) => Numeric(i as real, None)
    case Uint(_, u) => Numeric(u as real, None)
    case Float(_, f) => Numeric(f, None)
    case _ => Numeric(0.0, Some(NotNumberMessage(v)))
  }

  /** The number an integer field yields lies within the 64-bit ranges,
      whatever the field's width: at least -2^63 and below 2^64. */
  lemma IntegerFieldBounds(v: Value)
    requires InRange(v) && (v.Int? || v.Uint?)
    ensures -(Pow2(63) as real) <= GetNumericValue(v).value < Pow2(64) as real
  {
    if v.Int? {
      Pow2Monotone(Bits(v.iw) - 1, 63);
      Pow2Monotone(63, 64);
    } else {
      Pow2Monotone(Bits(v.uw), 64);
    }
  }
}
