/**
 * The publisher application form component: its state (the minimum deposit
 * and the in-progress flag) and its submit handler, which validates the
 * form, then applies to the registry, saves the application and moves on
 * to the domain list. The registry, the notification library and the
 * router are outside the model; what the handler asks of them is recorded
 * as a log of effects, and the registry's answer is a parameter.
 */
module ApplicationForm {
  import opened Wrappers
  import opened JsText
  import opened StakeParsing
  import opened ApplicationValidation

  /** The values of the form's fields when it is submitted. */
  datatype FormInput = FormInput(domain: JsString, siteName: JsString, country: JsString,
                                 firstName: JsString, lastName: JsString, email: JsString,
                                 stake: JsString)

  /** What the handler passes to `save`: the fields, with the stake as parsed. */
  datatype Application = Application(domain: JsString, siteName: JsString, country: JsString,
                                     firstName: JsString, lastName: JsString, email: JsString,
                                     stake: int)

  /** How the registry's `apply` call settles: resolved, or rejected with an error message. */
  datatype ApplyResult = ApplyOk | ApplyFailed(message: string)

  datatype Level = Success | Error

  /** What the handler asks of the world outside the component, in order. */
  datatype Effect =
    | Toast(level: Level, message: string)            // a toastr notification
    | ProgressSet(value: bool)                        // setState({inProgress: value})
    | RegistryApply(domain: JsString, stake: int)     // registry.apply(domain, stake)
    | SaveCalled(application: Application)            // this.save(data)
    | HistoryPush(path: string)                       // this.history.push(path)

  /** How a submission ended. */
  datatype Submission = Rejected(reason: Outcome) | NotApplied(message: string) | Submitted

  const DOMAINS_PATH := "/domains"
  const SUBMITTED_MESSAGE := "Submitted"

  function ApplicationOf(form: FormInput, stake: int): Application {
    Application(form.domain, form.siteName, form.country, form.firstName, form.lastName, form.email, stake)
  }

  /** The value of the in-progress flag after replaying `trace` from `initial`. */
  function InProgressAfter(initial: bool, trace: seq<Effect>): bool
    decreases trace
  {
    if trace == [] then initial
    else InProgressAfter(if trace[0].ProgressSet? then trace[0].value else initial, trace[1..])
  }

  /** Replaying two traces one after the other is replaying their concatenation. */
  lemma {:induction false} InProgressAfterAppend(initial: bool, t1: seq<Effect>, t2: seq<Effect>)
    ensures InProgressAfter(initial, t1 + t2) == InProgressAfter(InProgressAfter(initial, t1), t2)
    decreases t1
  {
    if t1 == [] {
      assert t1 + t2 == t2;
    } else {
      assert (t1 + t2)[0] == t1[0];
      assert (t1 + t2)[1..] == t1[1..] + t2;
      InProgressAfterAppend(if t1[0].ProgressSet? then t1[0].value else initial, t1[1..], t2);
    }
  }

  /** Effects other than `setState({inProgress})` leave the flag alone. */
  lemma InProgressAfterOther(initial: bool, t: seq<Effect>, e: Effect)
    requires !e.ProgressSet?
    ensures InProgressAfter(initial, t + [e]) == InProgressAfter(initial, t)
  {
    InProgressAfterAppend(initial, t, [e]);
  }

  /** Replaying a trace whose last flag change sets `value` ends with the flag at `value`. */
  lemma InProgressAfterLastSet(initial: bool, t: seq<Effect>, value: bool, tail: seq<Effect>)
    requires forall e :: e in tail ==> !e.ProgressSet?
    ensures InProgressAfter(initial, t + [ProgressSet(value)] + tail) == value
  {
    InProgressAfterAppend(initial, t + [ProgressSet(value)], tail);
    InProgressAfterAppend(initial, t, [ProgressSet(value)]);
    InProgressAfterUnchanged(value, tail);
  }

  lemma {:induction false} InProgressAfterUnchanged(initial: bool, t: seq<Effect>)
    requires forall e :: e in t ==> !e.ProgressSet?
    ensures InProgressAfter(initial, t) == initial
    decreases t
  {
    if t != [] {
      assert t[0] in t;
      assert forall e :: e in t[1..] ==> e in t;
      InProgressAfterUnchanged(initial, t[1..]);
    }
  }

  /**
   * The effects once every check has passed: the flag is set, the registry
   * is asked; then either the error is shown and the flag cleared, or the
   * application is saved, the flag cleared and the domain list opened.
   */
  function ApplyEffects(form: FormInput, stake: int, apply: ApplyResult): seq<Effect> {
    [ProgressSet(true), RegistryApply(form.domain, stake)] +
    match apply
    case ApplyFailed(message) =>
      [Toast(Error, message), ProgressSet(false)]
    case ApplyOk =>
      [SaveCalled(ApplicationOf(form, stake)), Toast(Success, SUBMITTED_MESSAGE),
       ProgressSet(false), HistoryPush(DOMAINS_PATH)]
  }

  /** The effects of one submission of the form, in the order the handler causes them. */
  function SubmitEffects(form: FormInput, minDeposit: int, isValidDomain: JsString -> bool,
                         isValidEmail: JsString -> bool, apply: ApplyResult): seq<Effect>
  {
    var outcome := Validate(form.domain, form.email, form.stake, minDeposit, isValidDomain, isValidEmail);
    if outcome.Proceed? then ApplyEffects(form, outcome.stake, apply)
    else [Toast(Error, FailureMessage(outcome))]
  }

  /** `a` happens strictly before `b` in `trace`. */
  predicate Before(trace: seq<Effect>, a: Effect, b: Effect) {
    exists i, j :: 0 <= i < j < |trace| && trace[i] == a && trace[j] == b
  }

  /** A failed check shows its message and does nothing else: no flag change, no call to the registry. */
  lemma FailedCheckOnlyNotifies(form: FormInput, minDeposit: int, isValidDomain: JsString -> bool,
                                isValidEmail: JsString -> bool, apply: ApplyResult, initial: bool)
    requires !Validate(form.domain, form.email, form.stake, minDeposit, isValidDomain, isValidEmail).Proceed?
    ensures SubmitEffects(form, minDeposit, isValidDomain, isValidEmail, apply) ==
              [Toast(Error, FailureMessage(Validate(form.domain, form.email, form.stake, minDeposit,
                                                    isValidDomain, isValidEmail)))]
    ensures forall e :: e in SubmitEffects(form, minDeposit, isValidDomain, isValidEmail, apply) ==>
              !e.ProgressSet? && !e.RegistryApply? && !e.SaveCalled? && !e.HistoryPush?
    ensures InProgressAfter(initial, SubmitEffects(form, minDeposit, isValidDomain, isValidEmail, apply)) == initial
  {
    var r := SubmitEffects(form, minDeposit, isValidDomain, isValidEmail, apply);
    InProgressAfterUnchanged(initial, r);
  }

  /**
   * When the registry rejects the application, its message is shown, the
   * flag ends cleared, and neither `save` nor the navigation happens.
   */
  lemma FailedApplyStops(form: FormInput, stake: int, message: string, initial: bool)
    ensures var r := ApplyEffects(form, stake, ApplyFailed(message));
            Toast(Error, message) in r &&
            (forall e :: e in r ==> !e.SaveCalled? && !e.HistoryPush?) &&
            InProgressAfter(initial, r) == false
  {
    var r := ApplyEffects(form, stake, ApplyFailed(message));
    var front := [ProgressSet(true), RegistryApply(form.domain, stake), Toast(Error, message)];
    assert r == front + [ProgressSet(false)] + [];
    assert r[2] == Toast(Error, message);
    InProgressAfterLastSet(initial, front, false, []);
  }

  /**
   * After a successful `apply` the effects come in the order: flag set,
   * apply, save, flag cleared, navigation to the domain list; the flag
   * ends cleared.
   */
  lemma SuccessfulApplyOrder(form: FormInput, stake: int, initial: bool)
    ensures var r := ApplyEffects(form, stake, ApplyOk);
            Before(r, ProgressSet(true), RegistryApply(form.domain, stake)) &&
            Before(r, RegistryApply(form.domain, stake), SaveCalled(ApplicationOf(form, stake))) &&
            Before(r, SaveCalled(ApplicationOf(form, stake)), ProgressSet(false)) &&
            Before(r, ProgressSet(false), HistoryPush(DOMAINS_PATH)) &&
            InProgressAfter(initial, r) == false
  {
    var r := ApplyEffects(form, stake, ApplyOk);
    assert r[0] == ProgressSet(true) && r[1] == RegistryApply(form.domain, stake);
    assert r[2] == SaveCalled(ApplicationOf(form, stake));
    assert r[4] == ProgressSet(false) && r[5] == HistoryPush(DOMAINS_PATH);
    assert r == r[..4] + [ProgressSet(false)] + [HistoryPush(DOMAINS_PATH)];
    InProgressAfterLastSet(initial, r[..4], false, [HistoryPush(DOMAINS_PATH)]);
  }

  /**
   * The registry is asked exactly once after the checks pass, for the domain
   * in the form with the stake that passed them.
   */
  lemma ApplyAskedOnce(form: FormInput, stake: int, apply: ApplyResult)
    ensures var r := ApplyEffects(form, stake, apply);
            |r| > 1 && r[1] == RegistryApply(form.domain, stake) &&
            forall i :: 0 <= i < |r| && r[i].RegistryApply? ==> i == 1
  {
  }

  /**
   * Whatever the registry answers, it is only asked once every check has
   * passed, and only for the domain in the form with the stake read from it.
   */
  lemma ApplyGetsCheckedValues(form: FormInput, minDeposit: int, isValidDomain: JsString -> bool,
                               isValidEmail: JsString -> bool, apply: ApplyResult, e: Effect)
    requires e in SubmitEffects(form, minDeposit, isValidDomain, isValidEmail, apply) && e.RegistryApply?
    ensures Validate(form.domain, form.email, form.stake, minDeposit, isValidDomain, isValidEmail).Proceed?
    ensures e.domain == form.domain && isValidDomain(e.domain)
    ensures ParseStake(form.stake) == Some(e.stake) && e.stake != 0 && e.stake >= minDeposit
  {
    var outcome := Validate(form.domain, form.email, form.stake, minDeposit, isValidDomain, isValidEmail);
    if outcome.Proceed? {
      var r := ApplyEffects(form, outcome.stake, apply);
      var i :| 0 <= i < |r| && r[i] == e;
      ApplyAskedOnce(form, outcome.stake, apply);
    }
  }

  class PublisherApplicationForm {
    var minDeposit: DepositParam
    var inProgress: bool
    /** Everything the component has asked of the world, oldest first. */
    ghost var effects: seq<Effect>

    /** The flag is whatever the last `setState({inProgress})` set, and false before any. */
    ghost predicate Valid()
      reads this
    {
      inProgress == InProgressAfter(false, effects)
    }

    /** The initial state: the minimum deposit is the placeholder '-' and nothing is in progress. */
    constructor ()
      ensures Valid()
      ensures minDeposit == Unloaded && !inProgress && effects == []
    {
      minDeposit := Unloaded;
      inProgress := false;
      effects := [];
    }

    /** The `setState` that stores the registry's answer for 'minDeposit'. */
    method MinDepositLoaded(amount: int)
      requires Valid()
      modifies this`minDeposit
      ensures Valid()
      ensures minDeposit == Loaded(amount)
    {
      minDeposit := Loaded(amount);
    }

    method SetInProgress(value: bool)
      requires Valid()
      modifies this`inProgress, this`effects
      ensures Valid()
      ensures inProgress == value
      ensures effects == old(effects) + [ProgressSet(value)]
    {
      InProgressAfterAppend(false, effects, [ProgressSet(value)]);
      inProgress := value;
      effects := effects + [ProgressSet(value)];
    }

    method Emit(e: Effect)
      requires Valid()
      requires !e.ProgressSet?
      modifies this`effects
      ensures Valid()
      ensures effects == old(effects) + [e]
    {
      InProgressAfterOther(false, effects, e);
      effects := effects + [e];
    }

    /** Saving is not implemented by the component: it only shows "Submitted". */
    method Save(data: Application)
      requires Valid()
      modifies this`effects
      ensures Valid()
      ensures effects == old(effects) + [SaveCalled(data), Toast(Success, SUBMITTED_MESSAGE)]
    {
      Emit(SaveCalled(data));
      Emit(Toast(Success, SUBMITTED_MESSAGE));
    }

    /**
     * The part of the submit handler after every check has passed: set the
     * flag, ask the registry, then report its error or save and move on.
     */
    method ApplyAndSave(form: FormInput, stake: int, apply: ApplyResult) returns (result: Submission)
      requires Valid()
      modifies this`inProgress, this`effects
      ensures Valid()
      ensures effects == old(effects) + ApplyEffects(form, stake, apply)
      ensures !inProgress
      ensures result == if apply.ApplyFailed? then NotApplied(apply.message) else Submitted
    {
      ghost var before := effects;
      SetInProgress(true);
      Emit(RegistryApply(form.domain, stake));
      ghost var started := [ProgressSet(true), RegistryApply(form.domain, stake)];
      assert effects == before + started;
      if apply.ApplyFailed? {
        Emit(Toast(Error, apply.message));
        SetInProgress(false);
        assert effects == before + (started + [Toast(Error, apply.message), ProgressSet(false)]);
        return NotApplied(apply.message);
      }
      Save(ApplicationOf(form, stake));
      SetInProgress(false);
      Emit(HistoryPush(DOMAINS_PATH));
      assert effects == before + (started + [SaveCalled(ApplicationOf(form, stake)), Toast(Success, SUBMITTED_MESSAGE),
                                             ProgressSet(false), HistoryPush(DOMAINS_PATH)]);
      result := Submitted;
    }

    /**
     * The submit handler. `apply` is how the registry's `apply` call
     * settles; it is only consulted once every check has passed.
     */
    method OnFormSubmit(form: FormInput, isValidDomain: JsString -> bool, isValidEmail: JsString -> bool,
                        apply: ApplyResult) returns (result: Submission)
      requires Valid()
      modifies this`inProgress, this`effects
      ensures Valid()
      ensures minDeposit == old(minDeposit)
      ensures effects == old(effects) +
                SubmitEffects(form, CoerceMinDeposit(minDeposit), isValidDomain, isValidEmail, apply)
      ensures var outcome := Validate(form.domain, form.email, form.stake, CoerceMinDeposit(minDeposit),
                                      isValidDomain, isValidEmail);
              && inProgress == (if outcome.Proceed? then false else old(inProgress))
              && result == (if !outcome.Proceed? then Rejected(outcome)
                            else if apply.ApplyFailed? then NotApplied(apply.message)
                            else Submitted)
    {
      var minimum := CoerceMinDeposit(minDeposit);
      var outcome := Validate(form.domain, form.email, form.stake, minimum, isValidDomain, isValidEmail);
      if !outcome.Proceed? {
        Emit(Toast(Error, FailureMessage(outcome)));
        return Rejected(outcome);
      }
      result := ApplyAndSave(form, outcome.stake, apply);
    }
  }
}
