/** Two small configurations worked through end to end. */
module Scenarios {
  import opened IdRange
  import opened EtlDelegate
  import StaticDelegateService
  import OwnedDelegateService

  /** A static table for ids {0, 1}: handlers 100 and 101, fallback 199. */
  lemma StaticTableScenario()
    ensures var s := StaticDelegateService.Service(Bounds(2, 0), [Bound(100), Bound(101), Bound(199)]);
      && StaticDelegateService.Call(s, 0) == Invoked(100, 0)
      && StaticDelegateService.Call(s, 1) == Invoked(101, 1)
      && StaticDelegateService.Call(s, 5) == Invoked(199, 5)
  {
    var s := StaticDelegateService.Service(Bounds(2, 0), [Bound(100), Bound(101), Bound(199)]);
    assert s.table[0] == Bound(100) && s.table[1] == Bound(101);
    assert StaticDelegateService.Fallback(s) == Bound(199);
  }

  /** An owned table for ids {10, 11, 12} with handler 7 registered for 11:
      id 11 reaches it, ids 9, 10 and 13 are dropped until a fallback (42)
      is registered, and then they all reach the fallback. */
  lemma OwnedTableScenario()
    ensures var s := OwnedDelegateService.Register(OwnedDelegateService.New(Bounds(3, 10)), 11, Bound(7));
      var f := OwnedDelegateService.RegisterUnhandled(s, Bound(42));
      && OwnedDelegateService.Call(s, 11) == Invoked(7, 11)
      && OwnedDelegateService.Call(s, 9) == Dropped
      && OwnedDelegateService.Call(s, 10) == Dropped
      && OwnedDelegateService.Call(s, 13) == Dropped
      && OwnedDelegateService.Call(f, 11) == Invoked(7, 11)
      && OwnedDelegateService.Call(f, 9) == Invoked(42, 9)
      && OwnedDelegateService.Call(f, 10) == Invoked(42, 10)
      && OwnedDelegateService.Call(f, 13) == Invoked(42, 13)
  {
  }
}
