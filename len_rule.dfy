/** rules/len_rule.go: an exact length. */
module LenRule {
  import opened Wrappers
  import opened GoStrings
  import opened Reflect

  /** lenRule.Validate: only arrays, slices, maps and strings have a length;
      one of them passes exactly when its length is `length`. */
  function Validate(length: int, fv: Value): (r: Option<string>)
    ensures !HasLen(fv) ==> r == Some("len rule is not supported for " + KindName(fv))
    ensures HasLen(fv) ==> (r.None? <==> Len(fv) == length)
    ensures HasLen(fv) && r.Some? ==> r.value == "length " + IntToString(Len(fv)) + " != " + IntToString(length)
  {
    if !HasLen(fv) then Some("len rule is not supported for " + KindName(fv))
    else
      var l := Len(fv);
      if l != length then Some("length " + IntToString(l) + " != " + IntToString(length)) else None
  }

  /** A string's length is counted in UTF-8 bytes: `len=n` with n its number
      of characters passes exactly when the string is ASCII. */
  lemma CountsBytes(s: string)
    ensures Validate(|s|, Str(s)).None? <==> forall k :: 0 <= k < |s| ==> s[k] as int < 0x80
  {
    Utf8LenBounds(s);
  }

  /** A nil slice or map has length 0: it passes `len=0` and fails every
      other `len`. */
  lemma NilHasLengthZero(fv: Value, length: int)
    requires (fv.Slice? || fv.Map?) && fv.isNil
    ensures Validate(length, fv).None? <==> length == 0
  {
  }
}
