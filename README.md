# Classic L2CAP dynamic channel service manager, modelled in Dafny

This project models `ClassicDynamicChannelServiceManagerImpl` from the
Bluetooth stack's classic L2CAP layer. The class is the registry that
records which Protocol/Service Multiplexor (PSM) values are claimed by an
upper-layer user. For each claimed PSM it stores a service record: the
user's execution context (an `os::Handler`) and the callback to run when a
channel is opened to that PSM.

- `service_types.dfy` (module `ServiceTypes`): the PSM key, handler and
  callback identities, the pending registration, the stored record, the
  registration result, and `Outcome`, which fixes the branch order of
  registration.
- `service_manager.dfy` (module `ClassicDynamicChannelServiceManager`): the
  class `ServiceManager`. Its field `services` is `service_map_`. Its field
  `posted` is the outbox: every `Post` the manager makes is appended there as
  a `Delivery`. A successful registration hands over a `ServiceHandle` bound
  to the PSM, the manager and its L2CAP layer handler; a failed one hands
  over an invalid handle. `Register` and `Unregister` are proved against the
  pure functions `RegisterEffect` and `UnregisterEffect`, whose contracts
  state the behaviour of each branch. The queries are functions reading the
  object, and `GetRegisteredServices` is a loop, as in the source.
- `service_manager_traces.dfy` (module `ServiceManagerTraces`): properties
  of any sequence of Register and Unregister calls. These cover
  exactly-once outcome delivery, validity of every key, and the record
  lifecycle: a record is created only by a successful Register and
  destroyed only by an Unregister of its own PSM.
- `service_manager_scenarios.dfy`: a client that uses the class's contracts
  to walk one PSM through rejection, success, duplicate, unregistration and
  an unregistration miss.

`IsPsmValid` is declared in `l2cap/psm.h`, which is not part of this model.
The manager only asks it a question, so the model passes it as a parameter
(`isPsmValid`, fixed when the manager is constructed) rather than hard-coding
a rule. For reference, section 4.2 of Part A of Volume 3 of the Bluetooth
Core Specification requires a PSM to be odd and the least significant bit of
its upper octet to be zero. Under that rule PSM 1 is valid, so the scenario
states as an assumption that the predicate it is given rejects PSM 1.

## Model

| member | source | states |
|---|---|---|
| `ServiceTypes.Outcome` | gd/l2cap/internal/classic_dynamic_channel_service_manager_impl.cc:30-49 | The result is `FailInvalidService` exactly when the PSM is invalid, `FailDuplicateService` exactly when it is valid and already registered, and `Success` exactly when it is valid and free. So validity is checked before duplication. |
| `ClassicDynamicChannelServiceManager.RegisterEffect` | gd/l2cap/internal/classic_dynamic_channel_service_manager_impl.cc:28-50 | Every branch appends exactly one delivery and keeps the earlier ones. The delivery goes to the requester's `user_handler_` with its completion callback. An invalid PSM gives `FAIL_INVALID_SERVICE` with an invalid handle and an unchanged map. A duplicate gives `FAIL_DUPLICATE_SERVICE` with an invalid handle and an unchanged map, so the existing record is kept. Otherwise the result is `SUCCESS` with a handle bound to the PSM, this manager and its layer handler. Exactly one new key is added, holding the requester's handler and connection-open callback, and every other entry is unchanged. |
| `ClassicDynamicChannelServiceManager.UnregisterEffect` | gd/l2cap/internal/classic_dynamic_channel_service_manager_impl.cc:52-61 | Afterwards the PSM is not registered. Exactly that key is removed and the other entries are unchanged. When a record was removed, one completion is posted to the given handler. Otherwise the state is unchanged and nothing is posted. |
| `ClassicDynamicChannelServiceManager.RegisterUnregisterRegister` | gd/l2cap/internal/classic_dynamic_channel_service_manager_impl.cc:40-57 | If a PSM is registered successfully and then unregistered, the map is exactly as before. Registering the PSM again then succeeds and stores only the new record. |
| `ClassicDynamicChannelServiceManager.ServiceManager.Register` | gd/l2cap/internal/classic_dynamic_channel_service_manager_impl.cc:28-50 | The new map and outbox are `RegisterEffect` of the old ones. The invariant that every key passes `IsPsmValid` is kept. Afterwards the PSM is registered exactly when it is valid. The error log is untouched. |
| `ClassicDynamicChannelServiceManager.ServiceManager.Unregister` | gd/l2cap/internal/classic_dynamic_channel_service_manager_impl.cc:52-61 | The new map and outbox are `UnregisterEffect` of the old ones, and the key-validity invariant is kept. Afterwards `IsServiceRegistered(psm)` is false. A miss is appended to the error log, and only a miss is. |
| `ClassicDynamicChannelServiceManager.ServiceManager.IsServiceRegistered` | gd/l2cap/internal/classic_dynamic_channel_service_manager_impl.cc:63-65 | True exactly when the PSM is a key of the service map. As a function it has no side effects. |
| `ClassicDynamicChannelServiceManager.ServiceManager.GetService` | gd/l2cap/internal/classic_dynamic_channel_service_manager_impl.cc:67-70 | Requires `IsServiceRegistered(psm)`, which is the source's assertion, and returns the record stored for the PSM. |
| `ClassicDynamicChannelServiceManager.ServiceManager.GetRegisteredServices` | gd/l2cap/internal/classic_dynamic_channel_service_manager_impl.cc:72-79 | Returns one pair per map entry with no PSM twice. Every registered PSM appears, and every pair carries a registered PSM with its stored record. |
| `ServiceManagerTraces.RunPostsOneOutcomePerRegister` | gd/l2cap/internal/classic_dynamic_channel_service_manager_impl.cc:28-61 | Over any sequence of calls, the registration outcomes posted are exactly one per Register call, in call order. Each outcome goes to that call's own handler and completion callback. Unregister posts no registration outcome. |
| `ServiceManagerTraces.RunKeepsKeysValid` | gd/l2cap/internal/classic_dynamic_channel_service_manager_impl.cc:30-43 | Over any sequence of calls, only PSMs that pass `IsPsmValid` ever become keys. |
| `ServiceManagerTraces.RecordSurvivesUntilUnregistered` | gd/l2cap/internal/classic_dynamic_channel_service_manager_impl.cc:35-57 | A registered PSM stays registered with the very same record through any calls that do not unregister it, including duplicate registrations of it. |
| `ServiceManagerTraces.RecordComesFromRegistration` | gd/l2cap/internal/classic_dynamic_channel_service_manager_impl.cc:35-57 | Every record present after a sequence of calls comes from one of two places. Either it was already there, unchanged, and no call unregistered its PSM. Or a Register call of that PSM stored it from that call's own request: at that point the PSM was valid and not registered, and no later call unregistered it. |
| `ServiceManagerScenarios.RegistrationLifecycle` | gd/l2cap/internal/classic_dynamic_channel_service_manager_impl.cc:28-65 | On a fresh manager the registration outcomes come in this order. Registering an invalid PSM gives `FAIL_INVALID_SERVICE`. Registering 25 gives `SUCCESS`. Registering 25 again gives `FAIL_DUPLICATE_SERVICE`, and the record read back afterwards is still the first registration's. Unregistering 25 posts exactly its completion to the given handler. Unregistering the never-registered 99 posts nothing and is logged as the only miss. That makes four posts in all, and 25 ends unregistered. |

## Left out

- `IsPsmValid` (in `l2cap/psm.h`): not part of this model. It is a parameter of the manager, so no concrete PSM rule is assumed.
- The constructor and the declarations of `ClassicDynamicChannelServiceImpl`, `ClassicDynamicChannelService` and `Psm` live in headers that are not part of this model. The record is a (handler, connection-open callback) pair. The handle is either invalid or the triple (PSM, manager, layer handler). The PSM is an integer wrapped in a one-field datatype, and its width is not modelled.
- `os::Handler::Post` scheduling: posting appends a `Delivery` to the `posted` outbox. Execution of the posted work, FIFO dispatch per handler and single-thread confinement are not modelled.
- `LOG_ERROR` output: modelled only as the list `missedUnregisters` of PSMs whose unregistration missed; the log text and its sink are not modelled.
- `ASSERT` in `GetService`: a process abort in the source, modelled as the function's precondition.
- `unique_ptr` ownership, `std::move` of callbacks and pointer identity: records are returned by value, and the pointers that `GetService` and `GetRegisteredServices` return are not modelled.
- `ServiceManager.GetRegisteredServices`: the iteration order of `service_map_` depends on a container type declared in a header that is not part of this model. The result is specified only up to order, and the loop takes the remaining keys in an unspecified order.
