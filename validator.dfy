/** The collaborator the evaluator consults: an account validator that exposes its
    licence key, a read/write validation mode and two calling conventions for the
    validity check. How it decides validity is not modelled; it is an oracle. */
module Validation {
  import opened Applications

  /** One interaction with the validator, as recorded in its call log. */
  datatype ValidatorCall =
    | LicenseKeyRead
    | ValidationModeSet(mode: ValidationMode)
    | IsValidCalled(accountNumber: string)
    | IsValidOutCalled(accountNumber: string)

  class PremiumAccountValidator {
    /** ServiceInformation.License.LicenseKey: read-only. */
    const licenseKey: string
    /** ValidationMode: the only property the evaluator writes. */
    var validationMode: ValidationMode
    /** The answer of IsValid(string), for an account number under a mode. */
    const verdict: (string, ValidationMode) -> bool
    /** The answer delivered through the out slot of IsValid(string, out bool). */
    const verdictOut: (string, ValidationMode) -> bool
    /** Every interaction so far, oldest first. */
    ghost var log: seq<ValidatorCall>

    constructor (licenseKey: string, validationMode: ValidationMode,
                 verdict: (string, ValidationMode) -> bool,
                 verdictOut: (string, ValidationMode) -> bool)
      ensures this.licenseKey == licenseKey && this.validationMode == validationMode
      ensures this.verdict == verdict && this.verdictOut == verdictOut
      ensures log == []
    {
      this.licenseKey := licenseKey;
      this.validationMode := validationMode;
      this.verdict := verdict;
      this.verdictOut := verdictOut;
      log := [];
    }

    /** Reads the licence key through ServiceInformation.License. */
    method ReadLicenseKey() returns (key: string)
      modifies this`log
      ensures key == licenseKey
      ensures log == old(log) + [LicenseKeyRead]
    {
      key := licenseKey;
      log := log + [LicenseKeyRead];
    }

    /** The ValidationMode setter. */
    method SetValidationMode(mode: ValidationMode)
      modifies this
      ensures validationMode == mode
      ensures log == old(log) + [ValidationModeSet(mode)]
    {
      validationMode := mode;
      log := log + [ValidationModeSet(mode)];
    }

    /** bool IsValid(string): the answer depends on the account number and on the
        mode in force at the time of the call. */
    method IsValid(premiumAccountNumber: string) returns (valid: bool)
      modifies this`log
      ensures valid == verdict(premiumAccountNumber, validationMode)
      ensures log == old(log) + [IsValidCalled(premiumAccountNumber)]
    {
      valid := verdict(premiumAccountNumber, validationMode);
      log := log + [IsValidCalled(premiumAccountNumber)];
    }

    /** void IsValid(string, out bool): the callee always assigns the out slot. */
    method IsValidOut(premiumAccountNumber: string) returns (isValid: bool)
      modifies this`log
      ensures isValid == verdictOut(premiumAccountNumber, validationMode)
      ensures log == old(log) + [IsValidOutCalled(premiumAccountNumber)]
    {
      isValid := verdictOut(premiumAccountNumber, validationMode);
      log := log + [IsValidOutCalled(premiumAccountNumber)];
    }
  }
}
