/** The owned-table variant of `etl::delegate_service` (`Delegates == nullptr`).

    The service owns `Range` slots and one "unhandled" delegate. The
    constructor fills every slot with a trampoline bound to the service's own
    private `unhandled` member; that member forwards to the unhandled
    delegate if it is bound and otherwise does nothing. Because the
    trampoline captures the address of the object it was constructed in, it
    reads that object's unhandled delegate as it is at the time of the call,
    not the one present at construction. The model describes one instance
    that is never copied or moved.
 */
module OwnedDelegateService {
  import opened IdRange
  import opened EtlDelegate

  /** A slot of the owned table: a delegate a user registered, or the
      trampoline to `unhandled` that the constructor stored. Users cannot
      build the trampoline themselves, since `unhandled` is private. */
  datatype Entry = User(d: Delegate) | Trampoline

  /** A service instance: its parameters, the fields `lookup` and
      `unhandled_delegate`. */
  datatype Service = Service(bounds: Bounds, lookup: seq<Entry>, unhandled: Delegate)

  /** The table has exactly `Range` slots (its C++ type fixes this). */
  predicate Valid(s: Service) {
    |s.lookup| == s.bounds.range
  }

  /** The default constructor: every slot holds the trampoline and the
      unhandled delegate is default-constructed, hence unbound. */
  function New(b: Bounds): (s: Service)
    ensures Valid(s) && s.bounds == b
    ensures forall k :: 0 <= k < |s.lookup| ==> s.lookup[k] == Trampoline
    ensures !IsValid(s.unhandled)
  {
    Service(b, seq(b.range, _ => Trampoline), Unbound)
  }

  /** The private member `unhandled(id)`: forward to the unhandled delegate
      when it is bound, otherwise drop. It never calls an unbound delegate. */
  function Unhandled(s: Service, id: nat): (e: Effect)
    ensures e.Dropped? <==> !IsValid(s.unhandled)
    ensures !e.Undefined?
    ensures e.Invoked? ==> e.target == s.unhandled.target && e.arg == id
  {
    if IsValid(s.unhandled) then Invoke(s.unhandled, id) else Dropped
  }

  /** Calling a slot's entry with an id. A trampoline is resolved against the
      service as it is at the time of the call. */
  function Resolve(s: Service, entry: Entry, id: nat): (e: Effect)
    ensures e.Undefined? <==> entry == User(Unbound)
    ensures e.Dropped? <==> entry.Trampoline? && !IsValid(s.unhandled)
    ensures e.Invoked? ==> e.arg == id
    ensures e.Invoked? ==> e.target == (if entry.User? then entry.d.target else s.unhandled.target)
  {
    match entry
    case User(d) => Invoke(d, id)
    case Trampoline => Unhandled(s, id)
  }

  /** `call(id)`, the runtime-checked dispatch. An in-range id calls its
      slot's entry; an out-of-range id skips the table and applies the same
      invoke-if-bound-else-drop policy as the trampoline. */
  function Call(s: Service, id: nat): (e: Effect)
    requires Valid(s)
    ensures InRange(s.bounds, id) ==> e == Resolve(s, s.lookup[IndexOf(s.bounds, id)], id)
    ensures !InRange(s.bounds, id) ==> e == Unhandled(s, id)
  {
    if InRange(s.bounds, id) then
      Resolve(s, s.lookup[IndexOf(s.bounds, id)], id)
    else if IsValid(s.unhandled) then
      Invoke(s.unhandled, id)
    else
      Dropped
  }

  /** `call<Id>()`, the compile-time-checked dispatch: the static assertions
      become the precondition, and the result agrees with `call(Id)`. */
  function CallConst(s: Service, id: nat): (e: Effect)
    requires Valid(s)
    requires InRange(s.bounds, id)
    ensures e == Call(s, id)
  {
    Resolve(s, s.lookup[id - s.bounds.offset], id)
  }

  /** `register_delegate(id, callback)`: an in-range id has its slot
      overwritten and nothing else changes; an out-of-range id is ignored. */
  function Register(s: Service, id: nat, d: Delegate): (r: Service)
    requires Valid(s)
    ensures Valid(r) && r.bounds == s.bounds && r.unhandled == s.unhandled
    ensures InRange(s.bounds, id) ==> r.lookup[IndexOf(s.bounds, id)] == User(d)
    ensures forall k :: 0 <= k < |r.lookup| && (!InRange(s.bounds, id) || k != IndexOf(s.bounds, id)) ==>
              r.lookup[k] == s.lookup[k]
    ensures !InRange(s.bounds, id) ==> r == s
  {
    if InRange(s.bounds, id) then s.(lookup := s.lookup[IndexOf(s.bounds, id) := User(d)]) else s
  }

  /** `register_delegate<Id>(callback)`: the static assertions become the
      precondition, and the result agrees with the runtime form. */
  function RegisterConst(s: Service, id: nat, d: Delegate): (r: Service)
    requires Valid(s)
    requires InRange(s.bounds, id)
    ensures r == Register(s, id, d)
  {
    s.(lookup := s.lookup[id - s.bounds.offset := User(d)])
  }

  /** `register_unhandled_delegate(callback)`: replaces the unhandled
      delegate (last write wins) and leaves the table alone. */
  function RegisterUnhandled(s: Service, d: Delegate): (r: Service)
    ensures r.bounds == s.bounds && r.lookup == s.lookup
    ensures Valid(s) ==> Valid(r)
    ensures IsValid(r.unhandled) <==> IsValid(d)
    ensures forall id :: Unhandled(r, id) == (if IsValid(d) then Invoked(d.target, id) else Dropped)
  {
    s.(unhandled := d)
  }

  /** A freshly constructed service drops every call, in range or not. */
  lemma FreshServiceDropsEveryCall(b: Bounds, id: nat)
    ensures Call(New(b), id) == Dropped
  {
  }

  /** A fallback registered after construction is seen by the trampoline
      slots: every id, in range or not, reaches it. */
  lemma LateFallbackReachesEveryId(b: Bounds, h: HandlerId, id: nat)
    ensures Call(RegisterUnhandled(New(b), Bound(h)), id) == Invoked(h, id)
  {
  }

  /** An in-range id whose slot still holds the trampoline behaves exactly
      as an out-of-range id does: both go through the unhandled policy with
      the unhandled delegate current at the time of the call. */
  lemma TrampolineSlotActsAsOutOfRange(s: Service, id: nat, d: Delegate)
    requires Valid(s)
    requires InRange(s.bounds, id)
    requires s.lookup[IndexOf(s.bounds, id)] == Trampoline
    ensures Call(s, id) == Unhandled(s, id)
    ensures Call(RegisterUnhandled(s, d), id) == (if IsValid(d) then Invoked(d.target, id) else Dropped)
  {
  }

  /** An out-of-range call never consults the table: services that differ
      only in their tables dispatch it identically. */
  lemma OutOfRangeIgnoresTable(s: Service, t: Service, id: nat)
    requires Valid(s) && Valid(t)
    requires s.bounds == t.bounds && s.unhandled == t.unhandled
    requires !InRange(s.bounds, id)
    ensures Call(s, id) == Call(t, id)
  {
  }

  /** Registering a user delegate for an in-range id makes calls of that id
      invoke exactly that delegate, whatever the unhandled delegate is. */
  lemma RegisteredDelegateIsInvoked(s: Service, id: nat, d: Delegate)
    requires Valid(s)
    requires InRange(s.bounds, id)
    ensures Call(Register(s, id, d), id) == Invoke(d, id)
  {
  }

  /** Last write wins: a second registration for the same id erases every
      trace of the first. */
  lemma LastRegistrationWins(s: Service, id: nat, a: Delegate, b: Delegate)
    requires Valid(s)
    ensures Register(Register(s, id, a), id, b) == Register(s, id, b)
    ensures InRange(s.bounds, id) ==> Call(Register(Register(s, id, a), id, b), id) == Invoke(b, id)
  {
  }

  /** Registering for one id does not change how any other id dispatches. */
  lemma RegisterLeavesOtherIdsAlone(s: Service, id: nat, other: nat, d: Delegate)
    requires Valid(s)
    requires id != other
    ensures Call(Register(s, id, d), other) == Call(s, other)
  {
  }

  /** Registrations for different ids commute, and so do a registration and
      a change of the unhandled delegate. */
  lemma RegistrationsCommute(s: Service, i: nat, j: nat, a: Delegate, b: Delegate, f: Delegate)
    requires Valid(s)
    requires i != j
    ensures Register(Register(s, i, a), j, b) == Register(Register(s, j, b), i, a)
    ensures RegisterUnhandled(Register(s, i, a), f) == Register(RegisterUnhandled(s, f), i, a)
  {
  }

  /** Changing the unhandled delegate affects only ids that reach it: an
      in-range id whose slot holds a user delegate dispatches as before. */
  lemma UnhandledChangeSparesUserSlots(s: Service, id: nat, f: Delegate)
    requires Valid(s)
    requires InRange(s.bounds, id)
    requires s.lookup[IndexOf(s.bounds, id)].User?
    ensures Call(RegisterUnhandled(s, f), id) == Call(s, id)
  {
  }
}
