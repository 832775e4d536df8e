/** Owned-table services as the result of their registration history.

    A service is constructed and then changed only by `register_delegate`
    and `register_unhandled_delegate`. Replaying any log of such requests
    from a fresh service gives a state that is described here without
    reference to the registration functions: each slot holds the delegate
    most recently registered for its id, or still the trampoline when there
    was none, and the unhandled delegate is the one most recently
    registered, or unbound. `Expected` gives the resulting dispatch rule
    directly from the log, and `ReplayDispatch` proves `call(id)` follows it.
 */
module RegistrationHistory {
  import opened IdRange
  import opened EtlDelegate
  import opened OwnedDelegateService

  datatype Option<T> = None | Some(value: T)

  /** One mutating call on an owned-table service. */
  datatype Request = RegisterAt(id: nat, d: Delegate) | SetUnhandled(d: Delegate)

  /** Performs one request. */
  function Apply(s: Service, q: Request): (r: Service)
    requires Valid(s)
    ensures Valid(r) && r.bounds == s.bounds
  {
    match q
    case RegisterAt(id, d) => Register(s, id, d)
    case SetUnhandled(d) => RegisterUnhandled(s, d)
  }

  /** Performs the requests of a log in order. */
  function Replay(s: Service, qs: seq<Request>): (r: Service)
    requires Valid(s)
    ensures Valid(r) && r.bounds == s.bounds
    decreases |qs|
  {
    if |qs| == 0 then s else Apply(Replay(s, qs[..|qs| - 1]), qs[|qs| - 1])
  }

  /** Registers `d` for exactly the id `id`. */
  predicate Registers(q: Request, id: nat) {
    q.RegisterAt? && q.id == id
  }

  /** The delegate most recently registered for `id` in the log, if any. */
  function LatestFor(qs: seq<Request>, id: nat): Option<Delegate>
    decreases |qs|
  {
    if |qs| == 0 then None
    else if Registers(qs[|qs| - 1], id) then Some(qs[|qs| - 1].d)
    else LatestFor(qs[..|qs| - 1], id)
  }

  /** The unhandled delegate most recently registered in the log, if any. */
  function LatestUnhandled(qs: seq<Request>): Option<Delegate>
    decreases |qs|
  {
    if |qs| == 0 then None
    else if qs[|qs| - 1].SetUnhandled? then Some(qs[|qs| - 1].d)
    else LatestUnhandled(qs[..|qs| - 1])
  }

  /** What slot `k` of a replayed fresh service should hold. */
  function ExpectedEntry(b: Bounds, qs: seq<Request>, k: nat): Entry
    requires k < b.range
  {
    match LatestFor(qs, IdOf(b, k))
    case Some(d) => User(d)
    case None => Trampoline
  }

  /** What the unhandled delegate of a replayed fresh service should be. */
  function ExpectedUnhandled(qs: seq<Request>): Delegate {
    match LatestUnhandled(qs)
    case Some(d) => d
    case None => Unbound
  }

  /** The dispatch rule implied by a log: an in-range id with a registration
      calls the latest delegate registered for it; every other id goes to the
      latest unhandled delegate when that is bound, and is dropped otherwise. */
  function Expected(b: Bounds, qs: seq<Request>, id: nat): Effect {
    if InRange(b, id) && LatestFor(qs, id).Some? then
      Invoke(LatestFor(qs, id).value, id)
    else
      match LatestUnhandled(qs)
      case Some(Bound(t)) => Invoked(t, id)
      case _ => Dropped
  }

  /** `LatestFor` finds the last registration for the id: it returns `d`
      exactly when some request registers `d` for the id and no later
      request registers anything for it. */
  lemma {:induction false} LatestForIsLastRegistration(qs: seq<Request>, id: nat, d: Delegate)
    ensures LatestFor(qs, id) == Some(d) <==>
              exists k :: 0 <= k < |qs| && qs[k] == RegisterAt(id, d) &&
                          forall j :: k < j < |qs| ==> !Registers(qs[j], id)
    decreases |qs|
  {
    if |qs| > 0 {
      var n := |qs| - 1;
      var p := qs[..n];
      LatestForIsLastRegistration(p, id, d);
      if Registers(qs[n], id) {
        if LatestFor(qs, id) == Some(d) {
          assert qs[n] == RegisterAt(id, d);
        } else {
          forall k | 0 <= k < |qs| && qs[k] == RegisterAt(id, d)
            ensures exists j :: k < j < |qs| && Registers(qs[j], id)
          {
            assert k != n;
            assert Registers(qs[n], id);
          }
        }
      } else {
        if LatestFor(qs, id) == Some(d) {
          var k :| 0 <= k < |p| && p[k] == RegisterAt(id, d) &&
                   forall j :: k < j < |p| ==> !Registers(p[j], id);
          assert qs[k] == p[k];
          forall j | k < j < |qs| ensures !Registers(qs[j], id) {
            if j < n {
              assert qs[j] == p[j];
            }
          }
        } else {
          forall k | 0 <= k < |qs| && qs[k] == RegisterAt(id, d)
            ensures exists j :: k < j < |qs| && Registers(qs[j], id)
          {
            assert k != n;
            assert p[k] == qs[k];
            var j :| k < j < |p| && Registers(p[j], id);
            assert qs[j] == p[j];
          }
        }
      }
    }
  }

  /** Replaying a log on a fresh service yields the state the log
      describes, slot by slot, and the expected unhandled delegate. */
  lemma {:induction false} ReplayState(b: Bounds, qs: seq<Request>)
    ensures Replay(New(b), qs).unhandled == ExpectedUnhandled(qs)
    ensures forall k :: 0 <= k < b.range ==> Replay(New(b), qs).lookup[k] == ExpectedEntry(b, qs, k)
    decreases |qs|
  {
    if |qs| > 0 {
      var n := |qs| - 1;
      var p := qs[..n];
      ReplayState(b, p);
      var before := Replay(New(b), p);
      var after := Replay(New(b), qs);
      assert after == Apply(before, qs[n]);
      forall k | 0 <= k < b.range
        ensures after.lookup[k] == ExpectedEntry(b, qs, k)
      {
        var id := IdOf(b, k);
        match qs[n]
        case SetUnhandled(_) =>
          assert LatestFor(qs, id) == LatestFor(p, id);
        case RegisterAt(j, d) =>
          if j == id {
            assert LatestFor(qs, id) == Some(d);
          } else {
            assert LatestFor(qs, id) == LatestFor(p, id);
            assert !InRange(b, j) || IndexOf(b, j) != k;
          }
      }
    }
  }

  /** `call(id)` on a service built from a log follows the log's dispatch
      rule, for every id, in range or not. */
  lemma ReplayDispatch(b: Bounds, qs: seq<Request>, id: nat)
    ensures Call(Replay(New(b), qs), id) == Expected(b, qs, id)
  {
    ReplayState(b, qs);
    var s := Replay(New(b), qs);
    if InRange(b, id) {
      var k := IndexOf(b, id);
      assert IdOf(b, k) == id;
      assert s.lookup[k] == ExpectedEntry(b, qs, k);
    }
  }

  /** No request returns a slot to the trampoline: once a slot holds a user
      delegate it keeps holding one, whatever is registered afterwards. */
  lemma {:induction false} RegisteredSlotNeverReverts(s: Service, qs: seq<Request>, k: nat)
    requires Valid(s)
    requires k < |s.lookup| && s.lookup[k].User?
    ensures Replay(s, qs).lookup[k].User?
    decreases |qs|
  {
    if |qs| > 0 {
      RegisteredSlotNeverReverts(s, qs[..|qs| - 1], k);
    }
  }
}
