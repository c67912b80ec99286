/** One evaluator holds one validator for its whole life, so the validation mode
    written by one Evaluate call is what later calls find. This module follows the
    mode across a run of calls made one after another. */
module SharedValidator {
  import opened Applications
  import opened Validation
  import opened Evaluation

  datatype Option<T> = None | Some(value: T)

  /** Which entry point a call goes through. */
  datatype EntryPoint = ViaReturn | ViaOut

  /** One call on the evaluator: Evaluate (ViaReturn) or EvaluateWithOut (ViaOut). */
  datatype Request = Request(entry: EntryPoint, application: GameAccountApplication)

  /** The mode after one call that started in `mode`: only an Evaluate call that
      gets past the amount and licence checks writes it. */
  function ModeAfter(mode: ValidationMode, licenseKey: string, r: Request): (m: ValidationMode)
  {
    match r.entry
    case ViaReturn => ModeAfterEvaluate(mode, licenseKey, r.application)
    case ViaOut => mode
  }

  /** The mode after a run of calls, in order, starting in `mode`. The licence key
      is read-only, so it is the same for every call. */
  function FinalMode(mode: ValidationMode, licenseKey: string, requests: seq<Request>): (m: ValidationMode)
    decreases |requests|
  {
    if requests == [] then mode
    else FinalMode(ModeAfter(mode, licenseKey, requests[0]), licenseKey, requests[1..])
  }

  /** Whether a call writes the mode. */
  predicate WritesMode(licenseKey: string, r: Request)
  {
    r.entry == ViaReturn && ReachesValidation(r.application.amount, licenseKey)
  }

  /** The position of the last call in the run that writes the mode, if any. */
  function LastModeWriter(licenseKey: string, requests: seq<Request>): (k: Option<nat>)
    ensures k.Some? ==>
      k.value < |requests| && WritesMode(licenseKey, requests[k.value]) &&
      forall j :: k.value < j < |requests| ==> !WritesMode(licenseKey, requests[j])
    ensures k.None? ==> forall j :: 0 <= j < |requests| ==> !WritesMode(licenseKey, requests[j])
    decreases |requests|
  {
    if requests == [] then None
    else if WritesMode(licenseKey, requests[|requests| - 1]) then Some(|requests| - 1)
    else LastModeWriter(licenseKey, requests[..|requests| - 1])
  }

  /** Following the run one more call. */
  lemma {:induction false} FinalModeAppend(mode: ValidationMode, licenseKey: string, requests: seq<Request>, r: Request)
    ensures FinalMode(mode, licenseKey, requests + [r]) == ModeAfter(FinalMode(mode, licenseKey, requests), licenseKey, r)
    decreases |requests|
  {
    if requests == [] {
      assert [] + [r] == [r];
    } else {
      assert (requests + [r])[1..] == requests[1..] + [r];
      FinalModeAppend(ModeAfter(mode, licenseKey, requests[0]), licenseKey, requests[1..], r);
    }
  }

  /** After a run, the validator holds the mode chosen for the applicant of the last
      Evaluate call that reached validation, or the starting mode when no call did.
      EvaluateWithOut calls and calls stopped by the amount or licence checks leave
      no trace. */
  lemma {:induction false} FinalModeIsLastWritten(mode: ValidationMode, licenseKey: string, requests: seq<Request>)
    ensures FinalMode(mode, licenseKey, requests) ==
      match LastModeWriter(licenseKey, requests)
      case None => mode
      case Some(k) => ModeFor(requests[k].application.age)
    decreases |requests|
  {
    if requests != [] {
      var init, last := requests[..|requests| - 1], requests[|requests| - 1];
      assert requests == init + [last];
      FinalModeAppend(mode, licenseKey, init, last);
      FinalModeIsLastWritten(mode, licenseKey, init);
    }
  }

  /** The decision of one call made when the validator holds `mode`: Evaluate
      validates under the mode it chooses for the applicant, EvaluateWithOut under
      the mode it finds. */
  function DecisionAt(validator: PremiumAccountValidator, mode: ValidationMode, r: Request): (d: PremiumAccountApplicationDecision)
  {
    var a := r.application;
    match r.entry
    case ViaReturn => Decide(a.amount, a.age, validator.licenseKey, validator.verdict(a.premiumAccountNumber, ModeFor(a.age)))
    case ViaOut => Decide(a.amount, a.age, validator.licenseKey, validator.verdictOut(a.premiumAccountNumber, mode))
  }

  /** EvaluateWithOut never writes the mode, so a minor whose application goes
      through it right after an adult's Evaluate call is validated in Quick mode:
      the out overload is asked under Quick, not under the Detailed mode Evaluate
      would have chosen for the minor. */
  lemma {:induction false} MinorValidatedUnderInheritedMode(
    validator: PremiumAccountValidator, mode: ValidationMode,
    adult: GameAccountApplication, minor: GameAccountApplication)
    requires validator.licenseKey != ExpiredLicenseKey
    requires adult.amount < HighIncomeThreshold && adult.age > AutoReferralMaxAge
    requires minor.amount < HighIncomeThreshold && minor.age <= AutoReferralMaxAge
    ensures FinalMode(mode, validator.licenseKey, [Request(ViaReturn, adult)]) == Quick
    ensures DecisionAt(validator, FinalMode(mode, validator.licenseKey, [Request(ViaReturn, adult)]), Request(ViaOut, minor))
         == Decide(minor.amount, minor.age, validator.licenseKey, validator.verdictOut(minor.premiumAccountNumber, Quick))
  {
  }

  /** A run of calls on one evaluator, one after another. Each decision is the one
      its call makes under the mode the earlier calls left, and the validator ends
      in the mode of the last Evaluate call that reached validation. */
  method Run(evaluator: GameAccountApplicationEvaluator, requests: seq<Request>)
    returns (decisions: seq<PremiumAccountApplicationDecision>)
    modifies evaluator.validator
    ensures |decisions| == |requests|
    ensures forall i :: 0 <= i < |requests| ==>
      decisions[i] == DecisionAt(evaluator.validator,
        FinalMode(old(evaluator.validator.validationMode), evaluator.validator.licenseKey, requests[..i]), requests[i])
    ensures evaluator.validator.validationMode ==
      FinalMode(old(evaluator.validator.validationMode), evaluator.validator.licenseKey, requests)
    ensures evaluator.validator.validationMode ==
      match LastModeWriter(evaluator.validator.licenseKey, requests)
      case None => old(evaluator.validator.validationMode)
      case Some(k) => ModeFor(requests[k].application.age)
  {
    var validator := evaluator.validator;
    ghost var start := validator.validationMode;
    decisions := [];
    var i := 0;
    while i < |requests|
      invariant 0 <= i <= |requests|
      invariant |decisions| == i
      invariant validator.validationMode == FinalMode(start, validator.licenseKey, requests[..i])
      invariant forall j :: 0 <= j < i ==>
        decisions[j] == DecisionAt(validator, FinalMode(start, validator.licenseKey, requests[..j]), requests[j])
    {
      var r := requests[i];
      var d;
      if r.entry == ViaReturn {
        d := evaluator.Evaluate(r.application);
      } else {
        d := evaluator.EvaluateWithOut(r.application);
      }
      FinalModeAppend(start, validator.licenseKey, requests[..i], r);
      assert requests[..i + 1] == requests[..i] + [r];
      decisions := decisions + [d];
      i := i + 1;
    }
    assert requests[..|requests|] == requests;
    FinalModeIsLastWritten(start, validator.licenseKey, requests);
  }

  /** The two entry points give the same decision for the same application when
      the validator's two overloads give the same answers: Evaluate first sets the
      mode for the applicant, and EvaluateWithOut then validates under that mode. */
  method EvaluateBothWays(evaluator: GameAccountApplicationEvaluator, application: GameAccountApplication)
    returns (viaReturn: PremiumAccountApplicationDecision, viaOut: PremiumAccountApplicationDecision)
    requires forall n, m :: evaluator.validator.verdict(n, m) == evaluator.validator.verdictOut(n, m)
    modifies evaluator.validator
    ensures viaReturn == viaOut
    ensures evaluator.validator.validationMode ==
      ModeAfterEvaluate(old(evaluator.validator.validationMode), evaluator.validator.licenseKey, application)
  {
    viaReturn := evaluator.Evaluate(application);
    viaOut := evaluator.EvaluateWithOut(application);
  }
}
