/**
 Properties of the service manager over any sequence of Register and
 Unregister calls, stated on the functional effects that the class methods
 are proved to implement.
 */
module ServiceManagerTraces {
  import opened ServiceTypes
  import opened ClassicDynamicChannelServiceManager

  /** One call into the manager's mutating interface. */
  datatype Call =
    | RegisterCall(psm: Psm, registration: PendingRegistration)
    | UnregisterCall(psm: Psm, callback: Callback, handler: Handler)

  function Apply(isPsmValid: Psm -> bool, manager: ServiceManager, s: Registry, c: Call): Registry {
    match c
    case RegisterCall(psm, pr) => RegisterEffect(isPsmValid, manager, s, psm, pr)
    case UnregisterCall(psm, callback, handler) => UnregisterEffect(s, psm, callback, handler)
  }

  /** The state reached from s by making the calls in order. */
  function Run(isPsmValid: Psm -> bool, manager: ServiceManager, s: Registry, calls: seq<Call>): Registry
    decreases |calls|
  {
    if calls == [] then s else Run(isPsmValid, manager, Apply(isPsmValid, manager, s, calls[0]), calls[1..])
  }

  /** The (handler, callback) target of every registration outcome posted, in order. */
  function Notices(posted: seq<Delivery>): seq<(Handler, Callback)> {
    if posted == [] then []
    else
      var d := posted[|posted| - 1];
      var rest := Notices(posted[..|posted| - 1]);
      if d.RegistrationComplete? then rest + [(d.handler, d.callback)] else rest
  }

  /** The (handler, callback) pair each Register call asks its outcome to go to, in order. */
  function Requests(calls: seq<Call>): seq<(Handler, Callback)> {
    if calls == [] then []
    else
      var c := calls[0];
      var rest := Requests(calls[1..]);
      if c.RegisterCall? then [(c.registration.userHandler, c.registration.onRegistrationComplete)] + rest else rest
  }

  lemma {:induction false} NoticesAppend(a: seq<Delivery>, b: seq<Delivery>)
    ensures Notices(a + b) == Notices(a) + Notices(b)
    decreases |b|
  {
    if b == [] {
      assert a + b == a;
    } else {
      var b' := b[..|b| - 1];
      assert (a + b)[..|a + b| - 1] == a + b';
      NoticesAppend(a, b');
    }
  }

  /** Exactly-once delivery: every Register call in a trace posts exactly one
      outcome, to the requester's own handler and callback, in call order;
      Unregister never posts a registration outcome. */
  lemma {:induction false} RunPostsOneOutcomePerRegister(
    isPsmValid: Psm -> bool, manager: ServiceManager, s: Registry, calls: seq<Call>)
    ensures Notices(Run(isPsmValid, manager, s, calls).posted) == Notices(s.posted) + Requests(calls)
    decreases |calls|
  {
    if calls != [] {
      var c := calls[0];
      var s' := Apply(isPsmValid, manager, s, c);
      match c {
        case RegisterCall(psm, pr) =>
          var d := s'.posted[|s.posted|];
          assert s'.posted == s.posted + [d];
          NoticesAppend(s.posted, [d]);
        case UnregisterCall(psm, callback, handler) =>
          if psm in s.services {
            NoticesAppend(s.posted, [UnregisterComplete(handler, callback)]);
          }
      }
      RunPostsOneOutcomePerRegister(isPsmValid, manager, s', calls[1..]);
    }
  }

  /** Only PSMs that pass the validity check are ever registered. */
  lemma {:induction false} RunKeepsKeysValid(
    isPsmValid: Psm -> bool, manager: ServiceManager, s: Registry, calls: seq<Call>)
    requires AllKeysValid(isPsmValid, s.services)
    ensures AllKeysValid(isPsmValid, Run(isPsmValid, manager, s, calls).services)
    decreases |calls|
  {
    if calls != [] {
      var s' := Apply(isPsmValid, manager, s, calls[0]);
      assert AllKeysValid(isPsmValid, s'.services);
      RunKeepsKeysValid(isPsmValid, manager, s', calls[1..]);
    }
  }

  /** A record is destroyed only by an explicit Unregister of its own PSM:
      as long as no call unregisters p, p stays registered with the very
      record it had, whatever Register calls (for p or not) come in between. */
  lemma {:induction false} RecordSurvivesUntilUnregistered(
    isPsmValid: Psm -> bool, manager: ServiceManager, s: Registry, calls: seq<Call>, p: Psm)
    requires p in s.services
    requires forall i :: 0 <= i < |calls| ==> !(calls[i].UnregisterCall? && calls[i].psm == p)
    ensures p in Run(isPsmValid, manager, s, calls).services
    ensures Run(isPsmValid, manager, s, calls).services[p] == s.services[p]
    decreases |calls|
  {
    if calls != [] {
      var s' := Apply(isPsmValid, manager, s, calls[0]);
      assert !(calls[0].UnregisterCall? && calls[0].psm == p);
      assert p in s'.services && s'.services[p] == s.services[p];
      forall i | 0 <= i < |calls[1..]|
        ensures !(calls[1..][i].UnregisterCall? && calls[1..][i].psm == p)
      {
        assert calls[1..][i] == calls[i + 1];
      }
      RecordSurvivesUntilUnregistered(isPsmValid, manager, s', calls[1..], p);
    }
  }

  /** A record is created only by a successful Register and lives until an
      Unregister of its own PSM: every record present after a trace either
      was there before, unchanged, with no Unregister of its PSM in the
      trace; or was stored by a Register call of that PSM that found the PSM
      valid and free, from that call's own request, with no Unregister of the
      PSM after it. */
  lemma {:induction false} RecordComesFromRegistration(
    isPsmValid: Psm -> bool, manager: ServiceManager, s: Registry, calls: seq<Call>, p: Psm)
    requires p in Run(isPsmValid, manager, s, calls).services
    ensures
      || (&& p in s.services
          && Run(isPsmValid, manager, s, calls).services[p] == s.services[p]
          && forall j :: 0 <= j < |calls| ==> !(calls[j].UnregisterCall? && calls[j].psm == p))
      || exists i :: 0 <= i < |calls| && calls[i].RegisterCall? && calls[i].psm == p
           && isPsmValid(p) && p !in Run(isPsmValid, manager, s, calls[..i]).services
           && Run(isPsmValid, manager, s, calls).services[p] == RecordOf(calls[i].registration)
           && forall j :: i < j < |calls| ==> !(calls[j].UnregisterCall? && calls[j].psm == p)
    decreases |calls|
  {
    if calls != [] {
      var s' := Apply(isPsmValid, manager, s, calls[0]);
      var t := Run(isPsmValid, manager, s, calls);
      assert t == Run(isPsmValid, manager, s', calls[1..]);
      RecordComesFromRegistration(isPsmValid, manager, s', calls[1..], p);
      if && p in s'.services && t.services[p] == s'.services[p]
         && forall j :: 0 <= j < |calls[1..]| ==> !(calls[1..][j].UnregisterCall? && calls[1..][j].psm == p)
      {
        forall j | 1 <= j < |calls|
          ensures !(calls[j].UnregisterCall? && calls[j].psm == p)
        {
          assert calls[j] == calls[1..][j - 1];
        }
        if !(p in s.services && s'.services[p] == s.services[p]) {
          // the record was stored by the first call
          assert calls[..0] == [];
          assert calls[0].RegisterCall? && calls[0].psm == p && isPsmValid(p) && p !in s.services;
          assert s'.services[p] == RecordOf(calls[0].registration);
        }
      } else {
        var i :| && 0 <= i < |calls[1..]| && calls[1..][i].RegisterCall? && calls[1..][i].psm == p
                 && isPsmValid(p) && p !in Run(isPsmValid, manager, s', calls[1..][..i]).services
                 && t.services[p] == RecordOf(calls[1..][i].registration)
                 && forall j :: i < j < |calls[1..]| ==> !(calls[1..][j].UnregisterCall? && calls[1..][j].psm == p);
        assert calls[i + 1] == calls[1..][i];
        assert calls[..i + 1][1..] == calls[1..][..i];
        assert Run(isPsmValid, manager, s, calls[..i + 1]) == Run(isPsmValid, manager, s', calls[1..][..i]);
        forall j | i + 1 < j < |calls|
          ensures !(calls[j].UnregisterCall? && calls[j].psm == p)
        {
          assert calls[j] == calls[1..][j - 1];
        }
      }
    }
  }
}
