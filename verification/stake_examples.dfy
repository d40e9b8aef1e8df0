/**
 * What the stake field's parsing makes of typical input: worked instances of
 * the general lemmas of StakeParsing, on the text as the user types it.
 */
module StakeExamples {
  import opened Wrappers
  import opened JsText
  import opened StakeParsing

  const COMMA: CodeUnit := 0x2C

  lemma PlainDigits()
    ensures ParseStake(Utf16("1500")) == Some(1500)
  {
    assert Utf16("1500") == DecimalString(1500);
    ParseStakeOfDecimal(1500);
  }

  /**
   * Two digit groups around one separator read as the number the groups
   * spell together.
   */
  lemma GroupsAroundSeparator(a: nat, c: CodeUnit, b: nat, rest: JsString, whole: nat)
    requires !IsDigit(c)
    requires rest == [] || !IsDigit(rest[0])
    requires DecimalString(a) + DecimalString(b) == DecimalString(whole)
    ensures ParseStake(DecimalString(a) + [c] + DecimalString(b) + rest) == Some(whole)
  {
    ParseStakeDropsOneSeparator(DecimalString(a), c, DecimalString(b), rest);
    DecimalRoundTrip(whole);
  }

  lemma Join1And500()
    ensures DecimalString(1) + DecimalString(500) == DecimalString(1500)
  {
  }

  lemma Join1And5()
    ensures DecimalString(1) + DecimalString(5) == DecimalString(15)
  {
  }

  lemma Join12And34()
    ensures DecimalString(12) + DecimalString(34) == DecimalString(1234)
  {
  }

  /** One thousands separator is dropped. */
  lemma OneThousandsSeparator()
    ensures ParseStake(Utf16("1,500")) == Some(1500)
  {
    Spell1Comma500();
    assert Utf16("1,500") == DecimalString(1) + [COMMA] + DecimalString(500) + [];
    Join1And500();
    GroupsAroundSeparator(1, COMMA, 500, [], 1500);
  }

  /** Only the first separator is dropped: the second one ends the number. */
  lemma TwoThousandsSeparators()
    ensures ParseStake(Utf16("1,500,000")) == Some(1500)
  {
    SplitAtSecondSeparator();
    Join1And500();
    GroupsAroundSeparator(1, COMMA, 500, Utf16(",000"), 1500);
  }

  /** "1,500,000" as its leading group, the first separator, a group and the rest. */
  lemma SplitAtSecondSeparator()
    ensures Utf16("1,500,000") == DecimalString(1) + [COMMA] + DecimalString(500) + Utf16(",000")
    ensures Utf16(",000")[0] == COMMA
  {
    assert "1,500,000" == "1,500" + ",000";
    Utf16Append("1,500", ",000");
    Spell1Comma500();
  }

  lemma Spell1Comma500()
    ensures Utf16("1,500") == DecimalString(1) + [COMMA] + DecimalString(500)
  {
  }

  /** A decimal point is dropped like any separator, so 1.5 reads as fifteen. */
  lemma DecimalPoint()
    ensures ParseStake(Utf16("1.5")) == Some(15)
  {
    assert Utf16("1.5") == DecimalString(1) + [0x2E] + DecimalString(5) + [];
    Join1And5();
    GroupsAroundSeparator(1, 0x2E, 5, [], 15);
  }

  lemma InnerSpace()
    ensures ParseStake(Utf16("12 34")) == Some(1234)
  {
    assert Utf16("12 34") == DecimalString(12) + [0x20] + DecimalString(34) + [];
    Join12And34();
    GroupsAroundSeparator(12, 0x20, 34, [], 1234);
  }

  /** A currency sign uses up the one removal, so the comma ends the number. */
  lemma CurrencySign()
    ensures ParseStake(Utf16("$1,500")) == Some(1)
  {
    var rest := Utf16(",500");
    assert Utf16("$1,500") == [] + [0x24] + DecimalString(1) + rest;
    assert [] + DecimalString(1) == DecimalString(1);
    ParseStakeDropsOneSeparator([], 0x24, DecimalString(1), rest);
    DecimalRoundTrip(1);
  }

  /**
   * A letter before a minus sign uses up the one removal, so the sign stays
   * and the stake reads as negative.
   */
  lemma LetterBeforeMinus()
    ensures ParseStake(Utf16("x-5")) == Some(-5)
  {
    var signed := [MINUS] + DecimalString(5);
    SpellLetterMinus5();
    RemoveFirstNonDigitAfterRun([], 0x78, signed);
    ParseIntReadsDigits([], [MINUS], DecimalString(5), []);
    DecimalRoundTrip(5);
  }

  lemma SpellLetterMinus5()
    ensures Utf16("x-5") == [] + [0x78] + ([MINUS] + DecimalString(5))
    ensures [] + ([MINUS] + DecimalString(5)) == [] + [MINUS] + DecimalString(5) + []
  {
  }

  lemma EmptyField()
    ensures ParseStake(Utf16("")) == None
  {
    ParseStakeWithoutDigits(Utf16(""));
  }

  lemma Letters()
    ensures ParseStake(Utf16("abc")) == None
  {
    assert Utf16("abc") == [0x61, 0x62, 0x63];
    ParseStakeWithoutDigits(Utf16("abc"));
  }
}
