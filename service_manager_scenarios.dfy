/**
 A client of the service manager that walks through the typical life of a
 PSM, using nothing but the class's contracts.
 */
module ServiceManagerScenarios {
  import opened ServiceTypes
  import opened ClassicDynamicChannelServiceManager

  /** On a fresh manager whose validity check accepts PSM 25 and rejects
      PSM 1: register 1 (rejected, map stays empty), register 25 (accepted),
      register 25 again (duplicate, first record kept), unregister 25 (one
      completion), unregister 99 (nothing posted, only the miss logged). */
  method RegistrationLifecycle(isPsmValid: Psm -> bool, layer: Handler, user: Handler, other: Handler)
    returns (outcomes: seq<RegistrationResult>, kept: ServiceRecord, completion: Delivery,
             posts: nat, misses: seq<Psm>, registeredAfter: bool)
    requires !isPsmValid(Psm(1)) && isPsmValid(Psm(25))
    ensures outcomes == [FailInvalidService, Success, FailDuplicateService]
    // the duplicate leaves the first registration's record in place
    ensures kept == ServiceRecord(user, Callback(2))
    // unregistering 25 posts its completion once; unregistering 99 posts nothing
    ensures completion == UnregisterComplete(user, Callback(5))
    ensures posts == 4
    ensures misses == [Psm(99)]
    ensures !registeredAfter
  {
    var manager := new ServiceManager(isPsmValid, layer);
    var first := PendingRegistration(user, Callback(1), Callback(2));
    var second := PendingRegistration(other, Callback(3), Callback(4));

    manager.Register(Psm(1), first);
    assert manager.services == map[];
    assert manager.posted[0].service == InvalidService;

    manager.Register(Psm(25), first);
    assert manager.IsServiceRegistered(Psm(25));
    assert manager.posted[1].service == UserService(Psm(25), manager, layer);

    manager.Register(Psm(25), second);
    kept := manager.GetService(Psm(25));
    outcomes := [manager.posted[0].result, manager.posted[1].result, manager.posted[2].result];

    manager.Unregister(Psm(25), Callback(5), user);
    completion := manager.posted[3];

    manager.Unregister(Psm(99), Callback(6), user);
    misses := manager.missedUnregisters;
    posts := |manager.posted|;
    registeredAfter := manager.IsServiceRegistered(Psm(25));
  }
}
