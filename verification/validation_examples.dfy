/**
 * Worked instances of the form's checks on stakes as the user types them,
 * combining the stake field's parsing with the `| 0` coercion.
 */
module ValidationExamples {
  import opened JsText
  import opened ApplicationValidation
  import StakeExamples

  /**
   * With a minimum of 2000, "1,500,000" is refused: only its first comma is
   * dropped, so it reads as 1500.
   */
  lemma SecondSeparatorUnderstatesStake(domain: JsString, isValidDomain: JsString -> bool, isValidEmail: JsString -> bool)
    requires isValidDomain(domain)
    ensures Validate(domain, [], Utf16("1,500,000"), 2000, isValidDomain, isValidEmail) == InsufficientDeposit
    ensures Validate(domain, [], Utf16("1,500,000"), 1000, isValidDomain, isValidEmail) == Proceed(1500)
  {
    StakeExamples.TwoThousandsSeparators();
  }

  /**
   * "x-5" reads as -5. Against a loaded minimum that `| 0` wraps to -16 it
   * passes the deposit check; against one that wraps to -1 it does not.
   */
  lemma NegativeStakeAgainstWrappedMinimum(domain: JsString, isValidDomain: JsString -> bool, isValidEmail: JsString -> bool)
    requires isValidDomain(domain)
    ensures CoerceMinDeposit(Loaded(0xFFFF_FFF0)) == -16
    ensures CoerceMinDeposit(Loaded(0xFFFF_FFFF)) == -1
    ensures Validate(domain, [], Utf16("x-5"), CoerceMinDeposit(Loaded(0xFFFF_FFF0)), isValidDomain, isValidEmail) == Proceed(-5)
    ensures Validate(domain, [], Utf16("x-5"), CoerceMinDeposit(Loaded(0xFFFF_FFFF)), isValidDomain, isValidEmail) == InsufficientDeposit
  {
    StakeExamples.LetterBeforeMinus();
    WideMinimumWraps(0xFFFF_FFF0);
    WideMinimumWraps(0xFFFF_FFFF);
  }
}
