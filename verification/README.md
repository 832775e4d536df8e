# etl::delegate_service in Dafny

This project models `etl::delegate_service` from the Embedded Template Library. It is an
indexed callback dispatch table. An id in the half-open range `[Offset, Offset + Range)`
selects a stored `etl::delegate<void(size_t)>`, which is called with that id. Other ids
go to a fallback. The component comes in two variants:

- **Static table** (`StaticDelegateService`). The service is a stateless view over a
  caller-owned table, given as a bare pointer, of at least `Range + 1` delegates. An in-range id calls slot `id - Offset`.
  Any other id calls slot `Range`. No slot is ever checked for being bound.
- **Owned table** (`OwnedDelegateService`). The service owns `Range` slots and one
  "unhandled" delegate. The constructor fills every slot with a trampoline to the
  private member `unhandled`. That member calls the unhandled delegate if it is bound
  and otherwise does nothing. An out-of-range id applies the same policy directly,
  without looking at the table. The trampoline captures the address of the object it
  was constructed in, so it uses that object's unhandled delegate as it is at the time
  of the call.

Modules:

- `IdRange`: the parameters `Range` and `Offset`, the range test, and the map between
  ids and slots.
- `EtlDelegate`: delegates as opaque tokens (`Unbound` or `Bound(target)`), plus the
  `Effect` of one dispatch. An effect is `Invoked(target, id)`, `Dropped`, or
  `Undefined(id)`. `Undefined(id)` means an unbound delegate was called: the service
  does not guard against this.
- `StaticDelegateService` and `OwnedDelegateService`: the two variants. State is an
  immutable datatype. Registration and dispatch are pure functions.
- `RegistrationHistory`: an owned service built from a log of registration requests.
  It gives a reference dispatch rule read directly off the log: the latest
  registration for the id, else the latest unhandled delegate. It proves that
  `call(id)` follows that rule for every log and every id.
- `Scenarios`: two concrete configurations worked through.

The compile-time forms (`call<Id>()`, `register_delegate<Id>()`) take the id as an
ordinary argument. Their `ETL_STATIC_ASSERT`s become the precondition
`InRange(bounds, id)`. Each one is proved to agree with the runtime form.

The static-table variant calls the table's entry `Range` without checking it, so an
unbound fallback slot produces `Undefined(id)`. Only the owned variant checks
`is_valid()`, so only it drops a call.

`register_unhandled_delegate` accepts any delegate, including a default-constructed
one, so registering `Unbound` switches the fallback off again. A slot, in contrast, never returns to the trampoline
(`RegistrationHistory.RegisteredSlotNeverReverts`). Registering an unbound delegate
in a slot makes later calls of that id `Undefined`.

## Model

| member | source | states |
|---|---|---|
| IdRange.IndexOfIsBijective | include/etl/delegate_service.h:79-81 | distinct in-range ids use distinct slots `id - Offset`, and each slot maps back to its id |
| StaticDelegateService.Call | include/etl/delegate_service.h:77-87 | an in-range id calls `Delegates[id - Offset]` with the id; any other id calls `Delegates[Range]` with the id; the static variant never drops a call |
| StaticDelegateService.CallConst | include/etl/delegate_service.h:64-71 | `call<Id>()` needs `Offset <= Id < Offset + Range` and produces the same effect as `call(Id)` |
| StaticDelegateService.OutOfRangeReadsOnlyFallback | include/etl/delegate_service.h:83-86 | an out-of-range call reads only entry `Range`: tables that agree there dispatch it identically, whatever slots `0..Range-1` hold |
| StaticDelegateService.InRangeReadsOnlyOwnSlot | include/etl/delegate_service.h:79-82 | an in-range call reads only its own slot, not the fallback or any other id's slot |
| OwnedDelegateService.New | include/etl/delegate_service.h:105-110 | after construction there are exactly `Range` slots, all holding the trampoline, and the unhandled delegate is unbound |
| OwnedDelegateService.Unhandled | include/etl/delegate_service.h:189-195 | the trampoline target calls the unhandled delegate with the id exactly when it is bound, drops otherwise, and never calls an unbound delegate |
| OwnedDelegateService.Call | include/etl/delegate_service.h:168-181 | an in-range id calls its slot's entry, resolving a trampoline at call time; an out-of-range id follows the same policy as `unhandled` |
| OwnedDelegateService.CallConst | include/etl/delegate_service.h:155-162 | `call<Id>()` needs the id in range and produces the same effect as `call(Id)` |
| OwnedDelegateService.Register | include/etl/delegate_service.h:133-139 | an in-range id gets its slot set to the delegate, and no other slot and no unhandled delegate changes; an out-of-range id leaves the service unchanged |
| OwnedDelegateService.RegisterConst | include/etl/delegate_service.h:118-125 | `register_delegate<Id>` needs the id in range and gives the same state as the runtime form |
| OwnedDelegateService.RegisterUnhandled | include/etl/delegate_service.h:145-148 | only the unhandled delegate is replaced; the table is unchanged; afterwards `unhandled` calls the new delegate exactly when it is bound |
| OwnedDelegateService.FreshServiceDropsEveryCall | include/etl/delegate_service.h:105-110 | on a freshly constructed service every call is dropped, in range or not |
| OwnedDelegateService.LateFallbackReachesEveryId | include/etl/delegate_service.h:105-110 | a fallback registered after construction is seen through the trampolines: every id calls it with that id |
| OwnedDelegateService.TrampolineSlotActsAsOutOfRange | include/etl/delegate_service.h:170-195 | an in-range id whose slot still holds the trampoline behaves as an out-of-range id, using the unhandled delegate current at call time |
| OwnedDelegateService.OutOfRangeIgnoresTable | include/etl/delegate_service.h:174-180 | an out-of-range call never consults the table: services differing only in their tables dispatch it identically |
| OwnedDelegateService.RegisteredDelegateIsInvoked | include/etl/delegate_service.h:133-139 | after registering a delegate for an in-range id, calling that id invokes exactly that delegate, whatever the fallback |
| OwnedDelegateService.LastRegistrationWins | include/etl/delegate_service.h:133-139 | registering A then B for the same id equals registering B alone, so the call invokes B |
| OwnedDelegateService.RegisterLeavesOtherIdsAlone | include/etl/delegate_service.h:133-139 | registering for one id does not change the dispatch of any other id |
| OwnedDelegateService.RegistrationsCommute | include/etl/delegate_service.h:133-148 | registrations for different ids commute, and so do a registration and a change of the unhandled delegate |
| OwnedDelegateService.UnhandledChangeSparesUserSlots | include/etl/delegate_service.h:145-148 | replacing the unhandled delegate does not change the dispatch of an in-range id whose slot holds a user delegate |
| RegistrationHistory.Replay | include/etl/delegate_service.h:197-201 | however many registrations are performed, the table keeps exactly `Range` slots |
| RegistrationHistory.LatestForIsLastRegistration | include/etl/delegate_service.h:133-139 | the log's latest delegate for an id is `d` exactly when some request registers `d` for it and no later request registers that id |
| RegistrationHistory.ReplayState | include/etl/delegate_service.h:105-148 | after any log, every slot holds the latest delegate registered for its id, or the trampoline if there was none, and the unhandled delegate is the latest registered, or unbound |
| RegistrationHistory.ReplayDispatch | include/etl/delegate_service.h:168-195 | after any log, `call(id)` invokes the latest delegate registered for an in-range id; otherwise it calls the latest unhandled delegate if that is bound, and drops the call if not |
| RegistrationHistory.RegisteredSlotNeverReverts | include/etl/delegate_service.h:118-148 | no registration returns a slot to the trampoline once a user delegate is stored there |
| Scenarios.StaticTableScenario | include/etl/delegate_service.h:77-87 | with Offset 0, Range 2 and table [H0, H1, F], ids 0 and 1 reach H0 and H1 and id 5 reaches F |
| Scenarios.OwnedTableScenario | include/etl/delegate_service.h:168-181 | with Offset 10, Range 3 and a handler for 11, id 11 reaches it; ids 9, 10 and 13 are dropped until a fallback is registered, then reach it |

## Left out

- `size_t` arithmetic: ids, `Offset` and `Range` are unbounded naturals. Wrap-around of `Offset + Range` near `SIZE_MAX` is not modelled.
- The internals of `etl::delegate` (`create`, `is_valid`, `operator()`) and of `etl::array` (`fill`, indexing). Their headers are not part of this model. A delegate is a token that is bound or unbound, and the table is a `seq`.
- What an invoked callback does. It is opaque: an effect records only which target was called, and with which id. What calling an unbound delegate does is also up to the delegate type, so it is recorded only as `Undefined(id)`.
- The C++03 `#error` guard and the include plumbing. These are preprocessor configuration.
- Concurrency between registration and dispatch. The source has no synchronisation, and every operation is modelled as one atomic step.
- Copying or moving an owned service: a copy's trampolines still call the original object's `unhandled`, which reads the original's unhandled delegate and dangles once the original is gone. The model describes a single instance that is never copied.
- StaticDelegateService.Valid: a caller-supplied table shorter than `Range + 1` entries makes the C++ read out of bounds (undefined behaviour); the model requires at least `Range + 1` entries and does not describe that case. Longer tables are accepted, and entries past `Range` are never read.
- Range > 0 is not required anywhere. The code does not demand it, and with `Range = 0` every id is out of range.
