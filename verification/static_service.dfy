/** The static-table variant of `etl::delegate_service`.

    The service owns nothing: it indexes a caller-owned table of
    `Range + 1` delegates. Slots `0 .. Range-1` serve the ids
    `Offset .. Offset+Range-1`, and slot `Range` is the fallback for every
    other id. The service never checks that a slot is bound.
 */
module StaticDelegateService {
  import opened IdRange
  import opened EtlDelegate

  /** A service instance: its parameters and the table it views. */
  datatype Service = Service(bounds: Bounds, table: seq<Delegate>)

  /** The caller must supply at least `Range + 1` entries: the service holds
      only a bare pointer to the table and reads entries `0 .. Range`. Entries
      past `Range` are never read. */
  predicate Valid(s: Service) {
    |s.table| > s.bounds.range
  }

  /** The out-of-range fallback, entry `Range` of the table. */
  function Fallback(s: Service): Delegate
    requires Valid(s)
  {
    s.table[s.bounds.range]
  }

  /** The table entry a runtime call reads: the id's own slot when the id is
      in range, and the fallback slot otherwise. */
  function SlotFor(s: Service, id: nat): (k: nat)
    requires Valid(s)
    ensures k < |s.table|
    ensures k < s.bounds.range <==> InRange(s.bounds, id)
    ensures InRange(s.bounds, id) ==> k == IndexOf(s.bounds, id)
  {
    if InRange(s.bounds, id) then IndexOf(s.bounds, id) else s.bounds.range
  }

  /** `call(id)`, the runtime-checked dispatch. */
  function Call(s: Service, id: nat): (e: Effect)
    requires Valid(s)
    ensures InRange(s.bounds, id) ==> e == Invoke(s.table[id - s.bounds.offset], id)
    ensures !InRange(s.bounds, id) ==> e == Invoke(Fallback(s), id)
    ensures !e.Dropped?
  {
    Invoke(s.table[SlotFor(s, id)], id)
  }

  /** `call<Id>()`, the compile-time-checked dispatch: the static assertions
      become the precondition, and the result agrees with `call(Id)`. */
  function CallConst(s: Service, id: nat): (e: Effect)
    requires Valid(s)
    requires InRange(s.bounds, id)
    ensures e == Call(s, id)
  {
    Invoke(s.table[id - s.bounds.offset], id)
  }

  /** An out-of-range call reads only the fallback entry: tables that agree
      on entry `Range` dispatch it identically, whatever slots
      `0 .. Range-1` hold. */
  lemma OutOfRangeReadsOnlyFallback(s: Service, t: Service, id: nat)
    requires Valid(s) && Valid(t) && s.bounds == t.bounds
    requires Fallback(s) == Fallback(t)
    requires !InRange(s.bounds, id)
    ensures Call(s, id) == Call(t, id)
  {
  }

  /** An in-range call reads only the id's own slot, never the fallback or
      the slot of any other id. */
  lemma InRangeReadsOnlyOwnSlot(s: Service, t: Service, id: nat)
    requires Valid(s) && Valid(t) && s.bounds == t.bounds
    requires InRange(s.bounds, id)
    requires s.table[IndexOf(s.bounds, id)] == t.table[IndexOf(t.bounds, id)]
    ensures Call(s, id) == Call(t, id)
  {
  }
}
