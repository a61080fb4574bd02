/**
 * Liveness decisions. The AWS SDK calls (session creation, IAM `GetUser`, S3
 * `ListBuckets`) are not modelled; what the decision sees of them is an `Outcome`.
 */
module Validation {

  /** What one probe with a candidate pair produced. */
  datatype Outcome =
    | SessionFailed           // session.NewSession returned an error
    | Succeeded               // the probe call returned without error
    | ServiceError(code: string)  // the call failed with an awserr.Error carrying this code
    | OtherFailure            // the call failed with an error that is not an awserr.Error

  /** A five-way reference classification of probe outcomes by the error codes the
      programs inspect. */
  datatype Liveness =
    | Confirmed
    | AuthenticatedNoPermission
    | InvalidIdentifier
    | MismatchedSecret
    | Inconclusive

  /** Reference classification: success confirms; "AccessDenied" means the
      credentials authenticated but lack the permission; "InvalidClientTokenId" and
      "SignatureDoesNotMatch" reject the identifier or the secret; anything else
      decides nothing. */
  function Classify(o: Outcome): Liveness
  {
    match o
    case Succeeded => Confirmed
    case ServiceError(code) =>
      if code == "AccessDenied" then AuthenticatedNoPermission
      else if code == "InvalidClientTokenId" then InvalidIdentifier
      else if code == "SignatureDoesNotMatch" then MismatchedSecret
      else Inconclusive
    case SessionFailed => Inconclusive
    case OtherFailure => Inconclusive
  }

  /** A pair is live when it authenticated, with or without permission. */
  predicate IsLive(l: Liveness)
  {
    l == Confirmed || l == AuthenticatedNoPermission
  }

  /** `validateIAMKeyWithAPI` of main_script.go: true only when the session is created
      and `GetUser` succeeds; the two recognised error codes and every other failure
      give false. */
  function ScriptValidate(o: Outcome): (live: bool)
    ensures live <==> Classify(o) == Confirmed
    ensures live ==> IsLive(Classify(o))
  {
    match o
    case SessionFailed => false
    case Succeeded => true
    case ServiceError(code) =>
      if code == "InvalidClientTokenId" then false
      else if code == "SignatureDoesNotMatch" then false
      else false
    case OtherFailure => false
  }

  /** `validateIAMKeyWithAPI` of main.go: `GetUser` succeeding, or failing with the
      code "AccessDenied", means live; a session error or any other failure does not. */
  function MainValidate(o: Outcome): (live: bool)
    ensures live <==> IsLive(Classify(o))
  {
    match o
    case SessionFailed => false
    case Succeeded => true
    case ServiceError(code) => code == "AccessDenied"
    case OtherFailure => false
  }

  /** `testIAMKeys` of main.go, the same rule applied to an S3 `ListBuckets` probe
      (the function is not called by the program). */
  function TestIAMKeys(o: Outcome): (live: bool)
    ensures live <==> IsLive(Classify(o))
  {
    match o
    case SessionFailed => false
    case Succeeded => true
    case ServiceError(code) => code == "AccessDenied"
    case OtherFailure => false
  }

  /** Which of the two programs is being modelled. */
  datatype Variant = ScriptProgram | MainProgram

  /** The decision each program applies to a probe outcome. */
  function Validate(v: Variant, o: Outcome): bool
  {
    match v
    case ScriptProgram => ScriptValidate(o)
    case MainProgram => MainValidate(o)
  }

  /** main_script.go accepts only what main.go accepts, and the one outcome on which
      they differ is an "AccessDenied" failure. */
  lemma ScriptNarrowerThanMain(o: Outcome)
    ensures ScriptValidate(o) ==> MainValidate(o)
    ensures MainValidate(o) && !ScriptValidate(o) <==> o == ServiceError("AccessDenied")
  {
  }
}
