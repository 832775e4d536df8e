/** Identifier ranges of a delegate service.

    A service is configured with `Range` (how many ids it handles) and `Offset`
    (the lowest id). The valid ids form the half-open interval
    [Offset, Offset + Range), and id `Offset + k` lives in table slot `k`.
    Ids are unbounded naturals here; the C++ `size_t` is not modelled.
 */
module IdRange {

  /** The compile-time parameters `Range` and `Offset` of a service. */
  datatype Bounds = Bounds(range: nat, offset: nat)

  /** The guard `(id >= Offset) && (id < (Offset + Range))` used by every
      runtime call and runtime registration, and the condition the
      compile-time assertions impose on a template `Id`. */
  predicate InRange(b: Bounds, id: nat) {
    b.offset <= id && id < b.offset + b.range
  }

  /** The table slot that serves an in-range id (`id - Offset`). */
  function IndexOf(b: Bounds, id: nat): (k: nat)
    requires InRange(b, id)
    ensures k < b.range
    ensures b.offset + k == id
  {
    id - b.offset
  }

  /** The id served by slot `k`. */
  function IdOf(b: Bounds, k: nat): (id: nat)
    requires k < b.range
    ensures InRange(b, id)
    ensures IndexOf(b, id) == k
  {
    b.offset + k
  }

  /** Slots and in-range ids are in one-to-one correspondence: two different
      ids never share a slot, and every slot is reached by exactly one id. */
  lemma IndexOfIsBijective(b: Bounds, i: nat, j: nat)
    requires InRange(b, i) && InRange(b, j)
    ensures IndexOf(b, i) == IndexOf(b, j) <==> i == j
    ensures IdOf(b, IndexOf(b, i)) == i
  {
  }
}
