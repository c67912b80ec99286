/** The values that flow into and out of a premium-account evaluation. */
module Applications {

  /** An application for the premium tier. The source's Amount is a C# decimal, an
      exact decimal number that the evaluator only compares, so it is a real here. */
  datatype GameAccountApplication = GameAccountApplication(
    amount: real,
    age: int,
    premiumAccountNumber: string)

  /** The three outcomes an evaluation can have. */
  datatype PremiumAccountApplicationDecision = AutoAccepted | AutoDeclined | ReferredToHuman

  /** How thoroughly the validator is asked to check an account number. */
  datatype ValidationMode = Quick | Detailed
}
