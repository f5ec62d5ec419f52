/** NullOrNotBlankValidation: an optional text field is fine when absent, and
    otherwise must keep something after String.trim. */
module NullOrNotBlankValidation {
  import opened Common
  import opened Text

  /** NullOrNotBlankValidation.isValid: null passes, and a present value
      passes exactly when it holds a character above U+0020. */
  predicate IsValid(value: Option<string>): (b: bool)
    ensures b <==> value.None? || HasVisibleChar(value.value)
  {
    if value.None? then true
    else
      TrimEmptyIff(value.value);
      |Trim(value.value)| > 0
  }

  /** The values the unit tests try. */
  lemma TestVectors()
    ensures IsValid(None) && IsValid(Some("correct"))
    ensures !IsValid(Some("")) && !IsValid(Some("  "))
  {
    assert !IsTrimmable("correct"[0]);
    assert forall i :: 0 <= i < |"  "| ==> "  "[i] == ' ';
  }
}
