/** The premium-account decision rule and the evaluator that applies it. */
module Evaluation {
  import opened Applications
  import opened Validation

  const AutoReferralMaxAge: int := 18
  const HighIncomeThreshold: real := 100.0
  /** Written 20_00 in C#, where `_` is only a digit separator. */
  const LowIncomeThreshold: real := 2000.0
  /** The licence key that marks an expired licence (an exact, case-sensitive match). */
  const ExpiredLicenseKey: string := "EXPIRED"

  /** Both entry points consult the validator's verdict exactly when the amount is
      below the high-income threshold and the licence has not expired. */
  predicate ReachesValidation(amount: real, licenseKey: string)
  {
    amount < HighIncomeThreshold && licenseKey != ExpiredLicenseKey
  }

  /** The mode Evaluate asks for: minors are validated in detail. */
  function ModeFor(age: int): (m: ValidationMode)
  {
    if age <= 18 then Detailed else Quick
  }

  /** The rule both entry points share, as the ordered chain of early returns the
      source writes. `valid` is the validator's answer; it matters only when the
      chain gets as far as asking for it. The ensures give the rule as a table:
      accepted exactly for high amounts, declined exactly for a valid adult
      account under a live licence, and referred to a human otherwise. The final
      low-income test never fails, because any amount reaching it is already
      below 100. */
  function Decide(amount: real, age: int, licenseKey: string, valid: bool): (d: PremiumAccountApplicationDecision)
    ensures d == AutoAccepted <==> amount >= HighIncomeThreshold
    ensures d == AutoDeclined <==>
      amount < HighIncomeThreshold && licenseKey != ExpiredLicenseKey && valid && age > AutoReferralMaxAge
    ensures d == ReferredToHuman <==>
      amount < HighIncomeThreshold && (licenseKey == ExpiredLicenseKey || !valid || age <= AutoReferralMaxAge)
  {
    if amount >= HighIncomeThreshold then AutoAccepted
    else if licenseKey == ExpiredLicenseKey then ReferredToHuman
    else if !valid then ReferredToHuman
    else if age <= AutoReferralMaxAge then ReferredToHuman
    else if amount < LowIncomeThreshold then AutoDeclined
    else ReferredToHuman
  }

  /** The validator's mode after one Evaluate call that started in `mode`. */
  function ModeAfterEvaluate(mode: ValidationMode, licenseKey: string, application: GameAccountApplication): (m: ValidationMode)
    ensures !ReachesValidation(application.amount, licenseKey) ==> m == mode
    ensures ReachesValidation(application.amount, licenseKey) ==>
      (m == Detailed <==> application.age <= AutoReferralMaxAge)
  {
    if ReachesValidation(application.amount, licenseKey) then ModeFor(application.age) else mode
  }

  /** The interactions Evaluate has with the validator: none for a high amount, only
      the licence read for an expired licence, otherwise the licence read, one mode
      write and one call of IsValid(string), in that order. */
  function EvaluateCalls(application: GameAccountApplication, licenseKey: string): (c: seq<ValidatorCall>)
    ensures |c| == if application.amount >= HighIncomeThreshold then 0
                   else if licenseKey == ExpiredLicenseKey then 1 else 3
    ensures c != [] ==> c[0] == LicenseKeyRead
    ensures IsValidCalled(application.premiumAccountNumber) in c <==>
      ReachesValidation(application.amount, licenseKey)
    ensures forall i :: 0 <= i < |c| && c[i].ValidationModeSet? ==>
      (c[i].mode == Detailed <==> application.age <= AutoReferralMaxAge) &&
      i + 1 < |c| && c[i + 1] == IsValidCalled(application.premiumAccountNumber)
    ensures forall i :: 0 <= i < |c| && c[i].IsValidCalled? ==> 0 < i && c[i - 1].ValidationModeSet?
    ensures forall i :: 0 <= i < |c| ==> !c[i].IsValidOutCalled?
  {
    if application.amount >= HighIncomeThreshold then []
    else if licenseKey == ExpiredLicenseKey then [LicenseKeyRead]
    else [LicenseKeyRead, ValidationModeSet(ModeFor(application.age)), IsValidCalled(application.premiumAccountNumber)]
  }

  /** The interactions EvaluateWithOut has with the validator: the same as
      Evaluate's except that it never writes the mode and it uses the out-parameter
      overload. */
  function EvaluateWithOutCalls(application: GameAccountApplication, licenseKey: string): (c: seq<ValidatorCall>)
    ensures |c| == if application.amount >= HighIncomeThreshold then 0
                   else if licenseKey == ExpiredLicenseKey then 1 else 2
    ensures c != [] ==> c[0] == LicenseKeyRead
    ensures IsValidOutCalled(application.premiumAccountNumber) in c <==>
      ReachesValidation(application.amount, licenseKey)
    ensures forall i :: 0 <= i < |c| ==> !c[i].ValidationModeSet? && !c[i].IsValidCalled?
  {
    if application.amount >= HighIncomeThreshold then []
    else if licenseKey == ExpiredLicenseKey then [LicenseKeyRead]
    else [LicenseKeyRead, IsValidOutCalled(application.premiumAccountNumber)]
  }

  class GameAccountApplicationEvaluator {
    const validator: PremiumAccountValidator

    constructor (validator: PremiumAccountValidator)
      ensures this.validator == validator
    {
      this.validator := validator;
    }

    /** Decides with the return-value overload, after setting the mode for the
        applicant's age. The application is a value and is not changed; of the
        validator only the mode (and the log of calls) changes. */
    method Evaluate(application: GameAccountApplication) returns (d: PremiumAccountApplicationDecision)
      modifies validator
      ensures d == Decide(application.amount, application.age, validator.licenseKey,
                          validator.verdict(application.premiumAccountNumber, ModeFor(application.age)))
      ensures validator.validationMode ==
        ModeAfterEvaluate(old(validator.validationMode), validator.licenseKey, application)
      ensures validator.log == old(validator.log) + EvaluateCalls(application, validator.licenseKey)
    {
      if application.amount >= HighIncomeThreshold {
        return AutoAccepted;
      }
      var licenseKey := validator.ReadLicenseKey();
      if licenseKey == ExpiredLicenseKey {
        return ReferredToHuman;
      }
      validator.SetValidationMode(if application.age <= 18 then Detailed else Quick);
      var isValidPremiumAccount := validator.IsValid(application.premiumAccountNumber);
      if !isValidPremiumAccount {
        return ReferredToHuman;
      }
      if application.age <= AutoReferralMaxAge {
        return ReferredToHuman;
      }
      if application.amount < LowIncomeThreshold {
        return AutoDeclined;
      }
      return ReferredToHuman;
    }

    /** Decides with the out-parameter overload, under whatever mode the validator
        already holds; the mode is left as it was. */
    method EvaluateWithOut(application: GameAccountApplication) returns (d: PremiumAccountApplicationDecision)
      modifies validator`log
      ensures d == Decide(application.amount, application.age, validator.licenseKey,
                          validator.verdictOut(application.premiumAccountNumber, validator.validationMode))
      ensures validator.validationMode == old(validator.validationMode)
      ensures validator.log == old(validator.log) + EvaluateWithOutCalls(application, validator.licenseKey)
    {
      if application.amount >= HighIncomeThreshold {
        return AutoAccepted;
      }
      var licenseKey := validator.ReadLicenseKey();
      if licenseKey == ExpiredLicenseKey {
        return ReferredToHuman;
      }
      var isValidFrequentFlyerNumber := validator.IsValidOut(application.premiumAccountNumber);
      if !isValidFrequentFlyerNumber {
        return ReferredToHuman;
      }
      if application.age <= AutoReferralMaxAge {
        return ReferredToHuman;
      }
      if application.amount < LowIncomeThreshold {
        return AutoDeclined;
      }
      return ReferredToHuman;
    }
  }
}
