/** The callable collaborator of the delegate service, seen from outside.

    An `etl::delegate<void(size_t)>` is either default-constructed (unbound)
    or bound to a target; the service only asks whether it is bound
    (`is_valid`) and calls it with one id. Targets are opaque tokens, and
    what a target does when called is not modelled: a dispatch is described
    by the `Effect` it produces.
 */
module EtlDelegate {

  /** Opaque identity of a callback target (a free function, or an object
      together with a member function). */
  type HandlerId = nat

  /** A delegate as a user of the service can build it. */
  datatype Delegate = Unbound | Bound(target: HandlerId)

  /** The observable outcome of one dispatch:
      - `Invoked(t, a)`: target `t` was called with argument `a`;
      - `Dropped`: nothing was called;
      - `Undefined(a)`: an unbound delegate was called with `a`. The service
        never checks for this; what happens is up to the delegate type. */
  datatype Effect = Invoked(target: HandlerId, arg: nat) | Dropped | Undefined(arg: nat)

  /** `delegate::is_valid()`. */
  predicate IsValid(d: Delegate) {
    d.Bound?
  }

  /** `delegate::operator()(id)`: calling a delegate always does something
      with the id; it is never a silent drop. */
  function Invoke(d: Delegate, id: nat): (e: Effect)
    ensures !e.Dropped?
    ensures e.arg == id
    ensures e.Invoked? <==> IsValid(d)
    ensures e.Invoked? ==> e.target == d.target
  {
    match d
    case Bound(t) => Invoked(t, id)
    case Unbound => Undefined(id)
  }
}
