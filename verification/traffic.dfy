/**
 * The admission policy of the traffic intersection
 * (os161-1.99/kern/synchprobs/traffic_synch.c).
 *
 * The intersection state is the traffic light plus one counter per direction.
 * A counter covers every vehicle from that direction that has called the entry
 * hook and not yet the exit hook, whether it is still waiting or already
 * inside. Each hook is modelled as one atomic step, and a vehicle that would
 * block on its direction's condition variable is reported as "not granted"
 * instead.
 */
module Traffic {

  /** The four directions are indexed 0..3 (north, east, south, west). */
  const NumDirections: int := 4

  type Direction = d: int | 0 <= d < NumDirections

  /** The value of the light while no direction holds the intersection. */
  const NoLight: int := -1

  datatype State = State(light: int, qcount: seq<int>)

  /** Outcome of the entry hook: the new state and whether the caller may
      enter now (otherwise it sleeps on its direction's condition variable). */
  datatype Entry = Entry(state: State, granted: bool)

  predicate AllZero(q: seq<int>) {
    forall i :: 0 <= i < |q| ==> q[i] == 0
  }

  /** The state invariant the hooks maintain: counts are non-negative, the
      light is idle exactly when nobody is waiting or inside, and a set light
      names a direction that has vehicles. */
  predicate Valid(s: State) {
    && |s.qcount| == NumDirections
    && (forall i :: 0 <= i < |s.qcount| ==> s.qcount[i] >= 0)
    && (s.light == NoLight || 0 <= s.light < NumDirections)
    && (s.light == NoLight <==> AllZero(s.qcount))
    && (s.light != NoLight ==> s.qcount[s.light] > 0)
  }

  /** `k` is the first index holding the largest count of `q`. */
  predicate IsFirstMax(q: seq<int>, k: int) {
    && 0 <= k < |q|
    && (forall j :: 0 <= j < |q| ==> q[j] <= q[k])
    && (forall j :: 0 <= j < k ==> q[j] < q[k])
  }

  /** The counter and light part of `intersection_sync_init`. */
  function Init(): (s: State)
    ensures s.light == NoLight
    ensures |s.qcount| == NumDirections && AllZero(s.qcount)
    ensures Valid(s)
  {
    State(NoLight, [0, 0, 0, 0])
  }

  /** `intersection_before_entry`: count the vehicle in, claim an idle light,
      and let it through only if the light shows its direction. */
  function Enter(s: State, origin: Direction): (r: Entry)
    requires |s.qcount| == NumDirections
    ensures |r.state.qcount| == NumDirections
    ensures r.state.qcount[origin] == s.qcount[origin] + 1
    ensures forall d :: 0 <= d < NumDirections && d != origin ==> r.state.qcount[d] == s.qcount[d]
    ensures s.light == NoLight ==> r.state.light == origin
    ensures s.light != NoLight ==> r.state.light == s.light
    ensures r.granted <==> (s.light == NoLight || s.light == origin)
    ensures Valid(s) ==> Valid(r.state)
  {
    var q := s.qcount[origin := s.qcount[origin] + 1];
    var light := if s.light == NoLight then origin else s.light;
    Entry(State(light, q), light == origin)
  }

  /** The scan of `intersection_after_exit` over q[0..n): start at index 0 and
      move only on a strictly larger count, so ties keep the lower index. */
  function ArgMax(q: seq<int>, n: int): (k: int)
    requires 1 <= n <= |q|
    ensures IsFirstMax(q[..n], k)
    decreases n
  {
    if n == 1 then 0
    else
      var k := ArgMax(q, n - 1);
      assert q[..n - 1] == q[..n][..n - 1];
      if q[n - 1] > q[k] then n - 1 else k
  }

  /** The light chosen once a direction drains: idle when the largest count is
      zero, otherwise the first direction holding the largest count. */
  function NextLight(q: seq<int>): (light: int)
    requires |q| == NumDirections
    ensures light == NoLight || IsFirstMax(q, light)
    ensures (exists i :: 0 <= i < |q| && q[i] > 0) ==> light != NoLight && q[light] > 0
    ensures light == NoLight ==> forall i :: 0 <= i < |q| ==> q[i] <= 0
    ensures AllZero(q) ==> light == NoLight
  {
    var k := ArgMax(q, NumDirections);
    assert q[..NumDirections] == q;
    if q[k] == 0 then NoLight else k
  }

  /** `intersection_after_exit`: count the vehicle out; when its direction has
      drained, hand the light to the busiest direction or make it idle. */
  function Exit(s: State, origin: Direction): (r: State)
    requires |s.qcount| == NumDirections
    requires s.qcount[origin] > 0
    ensures |r.qcount| == NumDirections
    ensures r.qcount[origin] == s.qcount[origin] - 1
    ensures forall d :: 0 <= d < NumDirections && d != origin ==> r.qcount[d] == s.qcount[d]
    ensures r.qcount[origin] > 0 ==> r.light == s.light
    ensures r.qcount[origin] == 0 ==>
              (r.light == NoLight <==> forall d :: 0 <= d < NumDirections ==> r.qcount[d] <= 0)
    ensures r.qcount[origin] == 0 && r.light != NoLight ==> IsFirstMax(r.qcount, r.light)
    ensures Valid(s) ==> Valid(r)
  {
    var q := s.qcount[origin := s.qcount[origin] - 1];
    if q[origin] == 0 then State(NextLight(q), q) else State(s.light, q)
  }
}
