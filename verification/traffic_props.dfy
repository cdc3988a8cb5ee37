/**
 * Properties of the intersection policy that relate several hook calls.
 */
module TrafficProps {
  import opened Traffic

  /** The selection rule names at most one direction: the first maximal count
      is unique. */
  lemma FirstMaxUnique(q: seq<int>, a: int, b: int)
    requires IsFirstMax(q, a) && IsFirstMax(q, b)
    ensures a == b
  {
    assert q[a] <= q[b] && q[b] <= q[a];
  }

  /** Mutual exclusion between directions: once a vehicle from `d1` has been
      let in, a vehicle arriving from another direction is held back. */
  lemma EntryExcludesOtherDirections(s: State, d1: Direction, d2: Direction)
    requires |s.qcount| == NumDirections
    requires Enter(s, d1).granted
    requires d2 != d1
    ensures !Enter(Enter(s, d1).state, d2).granted
    ensures Enter(Enter(s, d1).state, d2).state.light == d1
  {
  }

  /** The greedy policy can starve other directions: while the light's own
      direction keeps a vehicle inside, a new arrival from it followed by one
      departure from it returns the intersection to exactly the same state. */
  lemma HolderEnterExitIsIdentity(s: State, d: Direction)
    requires Valid(s)
    requires s.light == d
    ensures Exit(Enter(s, d).state, d) == s
  {
    var e := Enter(s, d).state;
    assert e.qcount[d] > 1;
    var x := Exit(e, d);
    assert x.light == s.light;
    assert x.qcount == s.qcount;
  }

  /** When the last vehicle of the only busy direction leaves, the light goes
      idle and the next vehicle from any direction is let in at once. */
  lemma LastExitIdlesThenAnyEntryGranted(s: State, origin: Direction, next: Direction)
    requires Valid(s)
    requires s.qcount[origin] == 1
    requires forall d :: 0 <= d < NumDirections && d != origin ==> s.qcount[d] == 0
    ensures Exit(s, origin).light == NoLight
    ensures Valid(Exit(s, origin))
    ensures Enter(Exit(s, origin), next).granted
  {
    var r := Exit(s, origin);
    assert forall d :: 0 <= d < NumDirections ==> r.qcount[d] <= 0;
  }

  /** The trace enter(0), enter(0), enter(1), exit(0), exit(0) from the
      initial state: both vehicles from direction 0 are let in before the one
      from direction 1, which gets the light at the second exit because the
      first exit leaves a tie that the lower index wins. */
  lemma TieKeepsLowerDirection()
    ensures var e1 := Enter(Init(), 0);
            var e2 := Enter(e1.state, 0);
            var e3 := Enter(e2.state, 1);
            var x1 := Exit(e3.state, 0);
            var x2 := Exit(x1, 0);
            && e1.granted && e2.granted && !e3.granted
            && x1.light == 0
            && x2.light == 1
  {
    var e1 := Enter(Init(), 0);
    var e2 := Enter(e1.state, 0);
    var e3 := Enter(e2.state, 1);
    assert e3.state.qcount == [2, 1, 0, 0];
    var x1 := Exit(e3.state, 0);
    assert x1.qcount == [1, 1, 0, 0];
    var x2 := Exit(x1, 0);
    assert x2.qcount == [0, 1, 0, 0];
    assert IsFirstMax(x2.qcount, 1);
    FirstMaxUnique(x2.qcount, 1, x2.light);
  }
}
