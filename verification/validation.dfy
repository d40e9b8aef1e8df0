/**
 * The checks the publisher application form runs before anything is sent:
 * the domain, then the e-mail address when one was given, then the stake
 * against the minimum deposit. The first failing check decides the outcome,
 * and exactly one failure is reported.
 */
module ApplicationValidation {
  import opened Wrappers
  import opened JsText
  import opened StakeParsing

  const INT32_MODULUS := 0x1_0000_0000
  const INT32_MIN := -0x8000_0000
  const INT32_MAX := 0x7FFF_FFFF

  /** ECMAScript ToInt32 on an integer: its residue modulo 2^32 in [-2^31, 2^31). */
  function ToInt32(x: int): (r: int)
    ensures INT32_MIN <= r <= INT32_MAX
    ensures (x - r) % INT32_MODULUS == 0
  {
    var m := x % INT32_MODULUS;
    if m > INT32_MAX then m - INT32_MODULUS else m
  }

  /**
   * The component's `minDeposit` state: the placeholder '-' until the
   * registry has answered, then the value it returned.
   */
  datatype DepositParam = Unloaded | Loaded(amount: int)

  /** `this.state.minDeposit | 0`. '-' converts to NaN, and ToInt32 maps NaN to 0. */
  function CoerceMinDeposit(p: DepositParam): (r: int)
    ensures INT32_MIN <= r <= INT32_MAX
    ensures p.Unloaded? ==> r == 0
    ensures p.Loaded? && INT32_MIN <= p.amount <= INT32_MAX ==> r == p.amount
    ensures p.Loaded? ==> (p.amount - r) % INT32_MODULUS == 0
  {
    match p
    case Unloaded => 0
    case Loaded(n) => ToInt32(n)
  }

  /** JavaScript truthiness of a parsed number: NaN and zero are false. */
  predicate IsTruthy(n: Option<int>) {
    n.Some? && n.value != 0
  }

  datatype Outcome = InvalidDomain | InvalidEmail | InsufficientDeposit | Proceed(stake: int)

  /**
   * The three checks of the form, in order. `isValidDomain` and `isValidEmail`
   * stand for the two validation libraries the form imports.
   */
  function Validate(domain: JsString, email: JsString, stakeText: JsString, minDeposit: int,
                    isValidDomain: JsString -> bool, isValidEmail: JsString -> bool): (r: Outcome)
    ensures r == InvalidDomain <==> !isValidDomain(domain)
    ensures r == InvalidEmail <==> isValidDomain(domain) && email != [] && !isValidEmail(email)
    ensures r.Proceed? <==>
              isValidDomain(domain) && (email == [] || isValidEmail(email)) &&
              IsTruthy(ParseStake(stakeText)) && ParseStake(stakeText).value >= minDeposit
    ensures r.Proceed? ==> ParseStake(stakeText) == Some(r.stake) && r.stake != 0 && r.stake >= minDeposit
  {
    var stake := ParseStake(stakeText);
    if !isValidDomain(domain) then InvalidDomain
    else if email != [] && !isValidEmail(email) then InvalidEmail
    else if !(IsTruthy(stake) && stake.value >= minDeposit) then InsufficientDeposit
    else Proceed(stake.value)
  }

  /** The notification shown for each failed check. */
  function FailureMessage(o: Outcome): (m: string)
    requires !o.Proceed?
    ensures m != []
  {
    match o
    case InvalidDomain => "Invalid domain"
    case InvalidEmail => "Invalid email"
    case InsufficientDeposit => "Deposit must be equal or greater than the minimum required"
  }

  /** Each failed check has a message of its own, so the user can tell which check failed. */
  lemma FailureMessagesDistinct(o1: Outcome, o2: Outcome)
    requires !o1.Proceed? && !o2.Proceed?
    ensures FailureMessage(o1) == FailureMessage(o2) <==> o1 == o2
  {
    if o1 != o2 {
      assert FailureMessage(o1)[..9] != FailureMessage(o2)[..9] || |FailureMessage(o1)| != |FailureMessage(o2)|;
    }
  }

  /** An invalid domain is reported whatever the e-mail address and the stake are. */
  lemma DomainCheckedFirst(domain: JsString, email: JsString, stakeText: JsString, minDeposit: int,
                           isValidDomain: JsString -> bool, isValidEmail: JsString -> bool)
    requires !isValidDomain(domain)
    ensures Validate(domain, email, stakeText, minDeposit, isValidDomain, isValidEmail) == InvalidDomain
  {
  }

  /** An empty e-mail field is never checked, so it never yields "Invalid email". */
  lemma EmptyEmailNotChecked(domain: JsString, stakeText: JsString, minDeposit: int,
                             isValidDomain: JsString -> bool, isValidEmail: JsString -> bool)
    ensures Validate(domain, [], stakeText, minDeposit, isValidDomain, isValidEmail) ==
              Validate(domain, [], stakeText, minDeposit, isValidDomain, _ => false)
    ensures Validate(domain, [], stakeText, minDeposit, isValidDomain, isValidEmail) != InvalidEmail
  {
  }

  /** A stake that reads as 0 or as NaN is refused, even when the minimum is 0 or below. */
  lemma FalsyStakeRefused(domain: JsString, email: JsString, stakeText: JsString, minDeposit: int,
                          isValidDomain: JsString -> bool, isValidEmail: JsString -> bool)
    requires ParseStake(stakeText) == Some(0) || ParseStake(stakeText) == None
    requires isValidDomain(domain) && (email == [] || isValidEmail(email))
    ensures Validate(domain, email, stakeText, minDeposit, isValidDomain, isValidEmail) == InsufficientDeposit
  {
  }

  /**
   * Before the registry has answered, the minimum deposit counts as 0, so
   * any positive stake passes the deposit check.
   */
  lemma UnloadedMinimumAcceptsPositiveStake(domain: JsString, email: JsString, stakeText: JsString, n: int,
                                            isValidDomain: JsString -> bool, isValidEmail: JsString -> bool)
    requires isValidDomain(domain) && (email == [] || isValidEmail(email))
    requires ParseStake(stakeText) == Some(n) && n > 0
    ensures Validate(domain, email, stakeText, CoerceMinDeposit(Unloaded), isValidDomain, isValidEmail) == Proceed(n)
  {
  }

  /** A loaded minimum of 2^31 or more (below 2^32) is wrapped by `| 0` to a negative number. */
  lemma WideMinimumWraps(amount: int)
    requires 0x8000_0000 <= amount < INT32_MODULUS
    ensures CoerceMinDeposit(Loaded(amount)) == amount - INT32_MODULUS
    ensures CoerceMinDeposit(Loaded(amount)) < 0
  {
    assert amount % INT32_MODULUS == amount;
  }

  /** A loaded minimum coerces to a negative number exactly when its residue modulo 2^32 is 2^31 or more. */
  lemma CoercedMinimumNegativeIff(amount: int)
    ensures CoerceMinDeposit(Loaded(amount)) < 0 <==> amount % INT32_MODULUS > INT32_MAX
  {
    var m := amount % INT32_MODULUS;
    assert CoerceMinDeposit(Loaded(amount)) == if m > INT32_MAX then m - INT32_MODULUS else m;
  }
}
