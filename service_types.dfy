/**
 The value types the classic dynamic channel service manager works with. Their
 declarations live in headers that are not part of this model (psm.h,
 classic_dynamic_channel_service_impl.h, os/handler.h); here they are opaque
 tokens carrying only what the manager reads from them.
 */
module ServiceTypes {

  /** Protocol/Service Multiplexor: the key a service is registered under.
      Its integer type is declared in psm.h, which is not part of this model;
      the manager only compares PSMs and hands them to the validity check, so
      the value is kept as an unbounded integer inside an opaque key. */
  datatype Psm = Psm(value: int)

  /** Identity of an execution context (an os::Handler) onto which deferred
      work is posted. */
  datatype Handler = Handler(id: nat)

  /** Identity of a one-shot callback bound by the caller. */
  datatype Callback = Callback(id: nat)

  /** Outcome of a registration, delivered to the requester. */
  datatype RegistrationResult = Success | FailInvalidService | FailDuplicateService

  /** What an upper layer hands to Register: where to deliver the outcome,
      the outcome callback, and the callback for later inbound channel opens. */
  datatype PendingRegistration = PendingRegistration(
    userHandler: Handler,
    onRegistrationComplete: Callback,
    onConnectionOpen: Callback)

  /** The record stored per registered PSM: the requester's execution context
      and its connection-open callback. */
  datatype ServiceRecord = ServiceRecord(userHandler: Handler, onConnectionOpen: Callback)

  /** The record a successful registration stores. */
  function RecordOf(pr: PendingRegistration): ServiceRecord {
    ServiceRecord(pr.userHandler, pr.onConnectionOpen)
  }

  /** Which branch Register takes: the validity check comes first, then the
      duplicate check, and only then success. */
  function Outcome(psmValid: bool, registered: bool): (r: RegistrationResult)
    ensures r == Success <==> psmValid && !registered
    ensures r == FailInvalidService <==> !psmValid
    ensures r == FailDuplicateService <==> psmValid && registered
  {
    if !psmValid then FailInvalidService
    else if registered then FailDuplicateService
    else Success
  }
}
