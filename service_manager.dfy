/**
 The classic L2CAP dynamic channel service manager: a registry from PSM to
 service record, with asynchronous outcome delivery modelled as an outbox of
 posted work items.
 */
module ClassicDynamicChannelServiceManager {
  import opened ServiceTypes

  /** The user-facing service object handed over with a registration outcome:
      an empty (invalid) one on failure, or one bound to the PSM, the manager
      that issued it and the manager's L2CAP layer handler on success. */
  datatype ServiceHandle =
    | InvalidService
    | UserService(psm: Psm, manager: ServiceManager, layerHandler: Handler)

  /** A unit of work posted to an execution context. */
  datatype Delivery =
    | RegistrationComplete(handler: Handler, callback: Callback, result: RegistrationResult, service: ServiceHandle)
    | UnregisterComplete(handler: Handler, callback: Callback)

  /** The observable state of a manager: its service map and every delivery
      it has posted so far, oldest first. */
  datatype Registry = Registry(services: map<Psm, ServiceRecord>, posted: seq<Delivery>)

  /** Every registered PSM passes the validity predicate. */
  predicate AllKeysValid(isPsmValid: Psm -> bool, services: map<Psm, ServiceRecord>) {
    forall p :: p in services ==> isPsmValid(p)
  }

  /** The effect of Register(psm, pr) on a manager in state s. */
  function RegisterEffect(isPsmValid: Psm -> bool, manager: ServiceManager, s: Registry, psm: Psm, pr: PendingRegistration): (t: Registry)
    // exactly one delivery is posted, on every branch, to the requester's
    // handler and carrying the requester's completion callback
    ensures |t.posted| == |s.posted| + 1 && t.posted[..|s.posted|] == s.posted
    ensures var d := t.posted[|s.posted|];
      d.RegistrationComplete? && d.handler == pr.userHandler && d.callback == pr.onRegistrationComplete
    // invalid PSM: rejected before the duplicate check, map untouched
    ensures !isPsmValid(psm) ==>
      var d := t.posted[|s.posted|];
      d.result == FailInvalidService && d.service == InvalidService && t.services == s.services
    // valid but already registered: rejected, existing record kept
    ensures isPsmValid(psm) && psm in s.services ==>
      var d := t.posted[|s.posted|];
      d.result == FailDuplicateService && d.service == InvalidService && t.services == s.services
    // valid and free: exactly one new key, holding the requester's handler and
    // connection-open callback; every other entry unchanged
    ensures isPsmValid(psm) && psm !in s.services ==>
      var d := t.posted[|s.posted|];
      && d.result == Success
      && d.service == UserService(psm, manager, manager.l2capLayerHandler)
      && t.services.Keys == s.services.Keys + {psm}
      && t.services[psm] == RecordOf(pr)
      && forall p :: p in s.services ==> t.services[p] == s.services[p]
  {
    var result := Outcome(isPsmValid(psm), psm in s.services);
    var service := if result == Success then UserService(psm, manager, manager.l2capLayerHandler) else InvalidService;
    var services := if result == Success then s.services[psm := RecordOf(pr)] else s.services;
    Registry(services, s.posted + [RegistrationComplete(pr.userHandler, pr.onRegistrationComplete, result, service)])
  }

  /** The effect of Unregister(psm, callback, handler) on a manager in state s. */
  function UnregisterEffect(s: Registry, psm: Psm, callback: Callback, handler: Handler): (t: Registry)
    // afterwards the PSM is free; exactly that key is gone, others unchanged
    ensures psm !in t.services
    ensures t.services.Keys == s.services.Keys - {psm}
    ensures forall p :: p in t.services ==> t.services[p] == s.services[p]
    // the completion is posted once to the given handler, and only when a
    // record was removed
    ensures psm in s.services ==> t.posted == s.posted + [UnregisterComplete(handler, callback)]
    ensures psm !in s.services ==> t == s
  {
    if psm in s.services then
      Registry(s.services - {psm}, s.posted + [UnregisterComplete(handler, callback)])
    else
      s
  }

  /** Register p, unregister it, and register it again: the second
      registration succeeds and leaves no trace of the first. */
  lemma RegisterUnregisterRegister(
    isPsmValid: Psm -> bool, manager: ServiceManager, s: Registry, p: Psm,
    first: PendingRegistration, callback: Callback, handler: Handler, second: PendingRegistration)
    requires isPsmValid(p) && p !in s.services
    ensures var s1 := RegisterEffect(isPsmValid, manager, s, p, first);
      var s2 := UnregisterEffect(s1, p, callback, handler);
      var s3 := RegisterEffect(isPsmValid, manager, s2, p, second);
      && s1.posted[|s.posted|].result == Success
      && s2.services == s.services
      && s3.posted[|s2.posted|].result == Success
      && s3.services == s.services[p := RecordOf(second)]
  {
  }

  /** The registry object. `services` is service_map_; `posted` records every
      Post this object makes; `missedUnregisters` records the error log lines. */
  class ServiceManager {
    /** IsPsmValid from psm.h, which is not part of this model: the manager
        only ever asks it, so it is given as a parameter. */
    const isPsmValid: Psm -> bool
    /** The L2CAP layer handler bound into every service handle issued. */
    const l2capLayerHandler: Handler

    var services: map<Psm, ServiceRecord>
    var posted: seq<Delivery>
    var missedUnregisters: seq<Psm>

    /** Object invariant: only PSMs that pass the validity check are keys. */
    ghost predicate Valid()
      reads this
    {
      AllKeysValid(isPsmValid, services)
    }

    /** The abstract state of this manager. */
    function State(): Registry
      reads this
    {
      Registry(services, posted)
    }

    constructor (isPsmValid: Psm -> bool, l2capLayerHandler: Handler)
      ensures Valid()
      ensures this.isPsmValid == isPsmValid && this.l2capLayerHandler == l2capLayerHandler
      ensures services == map[] && posted == [] && missedUnregisters == []
    {
      this.isPsmValid := isPsmValid;
      this.l2capLayerHandler := l2capLayerHandler;
      services := map[];
      posted := [];
      missedUnregisters := [];
    }

    /** Claim `psm` for the pending registration, or reject it; either way
        post the outcome to the requester's handler. Implements
        RegisterEffect on the object's state. */
    method Register(psm: Psm, pr: PendingRegistration)
      requires Valid()
      modifies this
      ensures Valid()
      ensures State() == RegisterEffect(isPsmValid, this, old(State()), psm, pr)
      ensures IsServiceRegistered(psm) <==> isPsmValid(psm)
      ensures missedUnregisters == old(missedUnregisters)
    {
      if !isPsmValid(psm) {
        posted := posted + [RegistrationComplete(pr.userHandler, pr.onRegistrationComplete, FailInvalidService, InvalidService)];
      } else if IsServiceRegistered(psm) {
        posted := posted + [RegistrationComplete(pr.userHandler, pr.onRegistrationComplete, FailDuplicateService, InvalidService)];
      } else {
        services := services[psm := RecordOf(pr)];
        var userService := UserService(psm, this, l2capLayerHandler);
        posted := posted + [RegistrationComplete(pr.userHandler, pr.onRegistrationComplete, Success, userService)];
      }
    }

    /** Release `psm` and post the completion to `handler`; on a PSM that is
        not registered only log the miss. Implements UnregisterEffect on the
        object's state. */
    method Unregister(psm: Psm, callback: Callback, handler: Handler)
      requires Valid()
      modifies this
      ensures Valid()
      ensures State() == UnregisterEffect(old(State()), psm, callback, handler)
      ensures !IsServiceRegistered(psm)
      ensures missedUnregisters ==
        if old(IsServiceRegistered(psm)) then old(missedUnregisters) else old(missedUnregisters) + [psm]
    {
      if IsServiceRegistered(psm) {
        services := services - {psm};
        posted := posted + [UnregisterComplete(handler, callback)];
      } else {
        missedUnregisters := missedUnregisters + [psm];
      }
    }

    /** Whether `psm` currently has a record. */
    function IsServiceRegistered(psm: Psm): (r: bool)
      reads this
      ensures r <==> psm in services.Keys
    {
      psm in services
    }

    /** The record stored for `psm`; callers must know it is registered. */
    function GetService(psm: Psm): (r: ServiceRecord)
      reads this
      requires IsServiceRegistered(psm)
      ensures services[psm] == r
    {
      services[psm]
    }

    /** A snapshot of every registered PSM paired with its record. */
    method GetRegisteredServices() returns (results: seq<(Psm, ServiceRecord)>)
      // one pair per entry, no PSM twice
      ensures |results| == |services|
      ensures forall i, j :: 0 <= i < j < |results| ==> results[i].0 != results[j].0
      // exactly the registered PSMs, each with its stored record
      ensures forall p :: p in services ==> exists e :: e in results && e.0 == p
      ensures forall e :: e in results ==> e.0 in services && e.1 == services[e.0]
    {
      results := [];
      var remaining := services.Keys;
      while remaining != {}
        invariant remaining <= services.Keys
        invariant |results| + |remaining| == |services.Keys|
        invariant forall i, j :: 0 <= i < j < |results| ==> results[i].0 != results[j].0
        invariant forall p :: p in services && p !in remaining ==> exists e :: e in results && e.0 == p
        invariant forall e :: e in results ==> e.0 in services && e.0 !in remaining && e.1 == services[e.0]
        decreases |remaining|
      {
        var p :| p in remaining;
        results := results + [(p, services[p])];
        remaining := remaining - {p};
      }
    }
  }
}
