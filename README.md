# Premium-account application evaluator

A model of `GameAccountApplicationEvaluator`, the rule that decides an application
for a premium game account. An application carries an amount, the applicant's age
and a premium account number. The evaluator answers `AutoAccepted`, `AutoDeclined`
or `ReferredToHuman` through a short chain of early returns:

1. an amount of at least 100 is accepted at once;
2. an expired licence (licence key exactly `"EXPIRED"`) refers the application to a human;
3. `Evaluate` then sets the validator's mode to `Detailed` for applicants aged 18 or
   under and to `Quick` otherwise; `EvaluateWithOut` leaves the mode alone;
4. the validator is asked whether the account number is valid: `Evaluate` uses the
   return-value overload, `EvaluateWithOut` the out-parameter overload;
5. an invalid account, or a valid one held by an applicant aged 18 or under, is
   referred to a human;
6. an amount below 2000 is declined. Any amount that gets this far is below 100, so
   this test always passes and the last return, a referral, cannot be reached.

Files:

- `applications.dfy` (module `Applications`): the application record, the decision
  and the validation mode.
- `validator.dfy` (module `Validation`): the validator as a class. It has a read-only
  licence key and a read/write validation mode. One oracle per `IsValid` overload
  gives the answer, which may depend on the mode in force. A ghost log records every
  licence read, mode write and validity call.
- `evaluator.dfy` (module `Evaluation`): the constants, the shared decision function
  `Decide`, the validator interactions of each entry point, and the evaluator class
  with `Evaluate` and `EvaluateWithOut`.
- `shared_validator.dfy` (module `SharedValidator`): one evaluator keeps one validator,
  so the mode written by one call is what later calls find. This module follows the
  mode across a run of calls and compares the two entry points.

An amount of 2500 is accepted at `GameAccountApplicationEvaluator.cs:19`, whatever
the age or the account, because 2500 is at least 100; `Decide`'s first ensures
proves it.

## Model

| member | source | states |
|---|---|---|
| `Evaluation.Decide` | Code/GameAccount/GameAccount/GameAccountApplicationEvaluator.cs:19-49 | The decision as a table: `AutoAccepted` exactly when the amount is at least 100. `AutoDeclined` exactly when the amount is below 100, the licence key is not `"EXPIRED"`, the account is valid and the applicant is over 18. `ReferredToHuman` in every other case, so the last return (line 49, and line 84) is never reached. |
| `Evaluation.ModeAfterEvaluate` | Code/GameAccount/GameAccount/GameAccountApplicationEvaluator.cs:19-32 | After `Evaluate`, the mode is unchanged unless the amount is below 100 and the licence is live. In that case it is `Detailed` exactly when the age is at most 18. |
| `Evaluation.EvaluateCalls` | Code/GameAccount/GameAccount/GameAccountApplicationEvaluator.cs:17-50 | `Evaluate` makes no validator call when the amount is at least 100, exactly one (the licence read) when the licence is `"EXPIRED"`, and otherwise exactly three: the licence read, one mode write choosing `Detailed` exactly for ages up to 18, then one `IsValid(string)` call on the applicant's account number. It never uses the out overload. |
| `Evaluation.EvaluateWithOutCalls` | Code/GameAccount/GameAccount/GameAccountApplicationEvaluator.cs:52-85 | `EvaluateWithOut` makes no validator call when the amount is at least 100, exactly one (the licence read) when the licence is `"EXPIRED"`, and otherwise exactly two: the licence read, then one out-overload call on the applicant's account number. It never writes the mode and never calls `IsValid(string)`. |
| `Evaluation.GameAccountApplicationEvaluator.constructor` | Code/GameAccount/GameAccount/GameAccountApplicationEvaluator.cs:11-14 | The evaluator keeps the validator it is given. |
| `Evaluation.GameAccountApplicationEvaluator.Evaluate` | Code/GameAccount/GameAccount/GameAccountApplicationEvaluator.cs:17-50 | The result is `Decide` applied to the return-value overload's answer under the mode chosen for the applicant's age. The new mode is `ModeAfterEvaluate` of the old one. The log grows by exactly `EvaluateCalls`. Nothing else changes. |
| `Evaluation.GameAccountApplicationEvaluator.EvaluateWithOut` | Code/GameAccount/GameAccount/GameAccountApplicationEvaluator.cs:52-85 | The result is `Decide`, the same rule as `Evaluate`, applied to the out overload's answer under the mode the validator already holds. The mode is left unchanged. The log grows by exactly `EvaluateWithOutCalls`. |
| `Validation.PremiumAccountValidator.constructor` | Code/GameAccount/GameAccount/IPremiumAccountValidator.cs:17-24 | A validator with a given licence key, starting mode and answers for each overload, with an empty call log. |
| `Validation.PremiumAccountValidator.ReadLicenseKey` | Code/GameAccount/GameAccount/IPremiumAccountValidator.cs:5-22 | Returns the licence key through `ServiceInformation.License` and logs the read. |
| `Validation.PremiumAccountValidator.SetValidationMode` | Code/GameAccount/GameAccount/IPremiumAccountValidator.cs:23 | Sets the mode and logs the write. |
| `Validation.PremiumAccountValidator.IsValid` | Code/GameAccount/GameAccount/IPremiumAccountValidator.cs:19 | Answers for the account number under the current mode and logs the call. |
| `Validation.PremiumAccountValidator.IsValidOut` | Code/GameAccount/GameAccount/IPremiumAccountValidator.cs:20 | Delivers the out overload's answer for the account number under the current mode and logs the call. |
| `SharedValidator.LastModeWriter` | Code/GameAccount/GameAccount/GameAccountApplicationEvaluator.cs:19-29 | Finds the last call in a run that writes the mode: an `Evaluate` call with amount below 100 under a live licence. No later call writes it. When there is none, no call in the run writes it. |
| `SharedValidator.FinalModeAppend` | Code/GameAccount/GameAccount/GameAccountApplicationEvaluator.cs:29 | The mode after a run followed by one more call is that call's effect on the mode after the run. |
| `SharedValidator.FinalModeIsLastWritten` | Code/GameAccount/GameAccount/GameAccountApplicationEvaluator.cs:5-29 | After a run of calls the mode is the one chosen for the applicant of the last `Evaluate` call that reached validation, or the starting mode if no call did. `Run` carries this over to the validator the evaluator keeps. |
| `SharedValidator.MinorValidatedUnderInheritedMode` | Code/GameAccount/GameAccount/GameAccountApplicationEvaluator.cs:59-67 | After an adult's `Evaluate` call reaches validation, the mode is `Quick`. A minor's `EvaluateWithOut` call that follows is decided on the out overload's answer under `Quick`, not under `Detailed`. By `Run`, this is the decision the evaluator returns at that position. |
| `SharedValidator.EvaluateBothWays` | Code/GameAccount/GameAccount/GameAccountApplicationEvaluator.cs:17-85 | When the two `IsValid` overloads agree, `Evaluate` followed by `EvaluateWithOut` on the same application gives the same decision. Only `Evaluate`'s mode write remains. |
| `SharedValidator.Run` | Code/GameAccount/GameAccount/GameAccountApplicationEvaluator.cs:5-85 | Calling `Evaluate` or `EvaluateWithOut` in turn on one evaluator: each decision is the one its call makes under the mode the earlier calls left on the shared validator. The validator ends in the mode of the last `Evaluate` call that reached validation, or in its starting mode. |

## Left out

- How the validator decides validity and how it uses the mode: the interface has no implementation here, so each overload is an oracle over (account number, mode).
- Exceptions: a validator call that throws, a null application (lines 19 and 54), a null `ServiceInformation` or `License`, and a null account number passed to `IsValid` are not modelled; Dafny strings and records cannot be null. The evaluator neither catches nor handles them.
- The licence key is a constant of the validator. A `LicenseKey` getter that answers differently on each read is not modelled.
- Concurrent evaluations sharing one validator are not modelled. The code is synchronous; only runs of calls made one after another are followed.
- The `= true` initialiser before the out-parameter call: C# requires the callee to assign the out slot, so it never reaches the check.
- The test project, its mocking library and the build files.
