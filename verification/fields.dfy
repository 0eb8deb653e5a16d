/** The field validators of the contact record. */
module Fields {
  import opened Wrappers

  /** Longest phone string the validator accepts. */
  const MaxPhoneLength: nat := 11

  /**
   * `Phone.validate_value`: a phone is valid when it is present and has
   * between one and eleven characters. No digit check is made.
   */
  function ValidatePhone(value: Option<string>): (ok: bool)
    ensures ok <==> value.Some? && 1 <= |value.value| <= MaxPhoneLength
  {
    match value
    case None => false
    case Some(s) => if |s| > 0 && |s| < 12 then true else false
  }

  /** The empty phone and a twelve-character phone are both rejected by the validator. */
  lemma ValidatorBoundaries()
    ensures !ValidatePhone(Some(""))
    ensures ValidatePhone(Some("12345678901"))
    ensures !ValidatePhone(Some("123456789012"))
    ensures !ValidatePhone(None)
  {
  }
}
