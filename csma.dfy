/**
 * The persistent-sensing CSMA/CD step of app_simulator.c, stated on values:
 * the state of every node (its pending timestamps and its collision counter),
 * the one-slot shared bus, the node that last sent on it, and the two packet
 * counters. AppSimulator's methods are proved to compute exactly these
 * functions; the lemmas here say what the functions mean.
 *
 * The functions follow the code as written, which differs from textbook
 * CSMA/CD in ways flagged where they occur.
 */
module Csma {
  import opened Queues

  /** A pick above this drops the head packet (app_simulator.c tests the pick, not the counter). */
  const RETRY_LIMIT: nat := 10
  /** The backoff wait is K * 512 added to the head time; the code does not divide by the bit rate. */
  const SLOT_TIME: real := 512.0
  /** The shared bus is a queue of capacity 1 (Queue_Init(1, -1)). */
  const BUS_CAPACITY: nat := 1
  /** The generated time that replaces the first arrival at or past the horizon. */
  const SENTINEL: real := -1.0

  datatype Timing = Timing(tProp: real, tTrans: real)

  /** One node's queue of pending attempt times, oldest first, and its collision counter. */
  datatype Node = Node(pending: seq<real>, collisions: nat)

  datatype Sim = Sim(nodes: seq<Node>, bus: seq<real>, sender: int, transmitted: nat, successful: nat)

  /** |a - b|, as abs() on the node indices. */
  function Dist(a: int, b: int): (d: nat)
    ensures a + d == b || b + d == a
  {
    if a < b then b - a else a - b
  }

  /** return_random(upper): rand() % (upper + 1), the raw rand() value being an oracle input. */
  function RandomPick(upper: nat, raw: nat): (k: nat)
    ensures k <= upper
  {
    raw % (upper + 1)
  }

  /** Every value of [0, upper] is a possible pick. */
  lemma RandomPickCovers(upper: nat, k: nat)
    requires k <= upper
    ensures RandomPick(upper, k) == k
  {
  }

  // ---------------------------------------------------------------------
  // Bus clearing

  /**
   * The time up to which node i defers while the bus clears: T_trans plus
   * the propagation delay over the index distance. It is not anchored to the
   * time the send started.
   */
  function ClearanceTime(c: Timing, sender: int, i: int): (t: real)
    ensures 0.0 <= c.tProp ==> c.tTrans <= t
    ensures i == sender ==> t == c.tTrans
  {
    c.tTrans + c.tProp * (Dist(sender, i) as real)
  }

  /** What app_simulator_bus_busy does to a node's queue: when its head is below t, every entry below t is raised to t. */
  function Defer(p: seq<real>, t: real): (r: seq<real>)
    ensures |r| == |p|
    ensures p == [] || t <= p[0] ==> r == p
    ensures p != [] && p[0] < t ==> r[0] == t && forall k :: 0 <= k < |p| ==> t <= r[k]
    ensures p != [] && p[0] < t ==> forall k :: 0 <= k < |p| && p[k] < t ==> r[k] == t
    ensures forall k :: 0 <= k < |p| && t <= p[k] ==> r[k] == p[k]
  {
    if p != [] && p[0] < t then RaiseBelow(p, t) else p
  }

  /** app_simulator_bus_busy: defer the node if its head is below t. */
  function BusBusy(n: Node, t: real): (r: Node)
    ensures r.collisions == n.collisions && |r.pending| == |n.pending|
    ensures n.pending != [] && n.pending[0] < t ==>
      (forall k :: 0 <= k < |r.pending| ==> t <= r.pending[k]) && r.pending[0] == t
    ensures n.pending != [] && n.pending[0] < t ==>
      forall k :: 0 <= k < |n.pending| && n.pending[k] < t ==> r.pending[k] == t
    ensures n.pending == [] || t <= n.pending[0] ==> r == n
    ensures forall k :: 0 <= k < |n.pending| && t <= n.pending[k] ==> r.pending[k] == n.pending[k]
  {
    n.(pending := Defer(n.pending, t))
  }

  function ClearedNode(c: Timing, s: Sim, i: nat): Node
    requires i < |s.nodes|
  {
    if i == s.sender then s.nodes[i] else BusBusy(s.nodes[i], ClearanceTime(c, s.sender, i))
  }

  /**
   * The first phase of the step: when the bus holds a send, every node but
   * the sender is deferred to its clearance time, and the bus is emptied.
   */
  function ClearBus(c: Timing, s: Sim): (r: Sim)
    ensures |r.nodes| == |s.nodes| && r.sender == s.sender
    ensures r.transmitted == s.transmitted && r.successful == s.successful
    ensures s.bus == [] ==> r == s
    ensures s.bus != [] ==> r.bus == s.bus[1..]
    ensures |s.bus| <= BUS_CAPACITY ==> r.bus == []
    ensures forall i :: 0 <= i < |s.nodes| ==>
      r.nodes[i].collisions == s.nodes[i].collisions && |r.nodes[i].pending| == |s.nodes[i].pending|
    ensures 0 <= s.sender < |s.nodes| ==> r.nodes[s.sender] == s.nodes[s.sender]
    ensures s.bus != [] ==> forall i :: 0 <= i < |s.nodes| && i != s.sender ==>
      r.nodes[i] == BusBusy(s.nodes[i], ClearanceTime(c, s.sender, i))
  {
    if s.bus == [] then s
    else s.(nodes := seq(|s.nodes|, i requires 0 <= i < |s.nodes| => ClearedNode(c, s, i)), bus := s.bus[1..])
  }

  // ---------------------------------------------------------------------
  // Earliest selection and collision test

  /** The step is defined when there is a node and every node has a pending entry. */
  ghost predicate Ready(s: Sim) {
    |s.nodes| >= 1 && forall i :: 0 <= i < |s.nodes| ==> s.nodes[i].pending != []
  }

  /** The node_heads snapshot. */
  function Heads(nodes: seq<Node>): seq<real>
    requires forall i :: 0 <= i < |nodes| ==> nodes[i].pending != []
  {
    seq(|nodes|, i requires 0 <= i < |nodes| => nodes[i].pending[0])
  }

  /**
   * The index the left-to-right scan with a strict < settles on: the minimum,
   * the lowest index among equal minima. A -1 head is not skipped.
   */
  function Earliest(h: seq<real>): (m: nat)
    requires |h| >= 1
    ensures m < |h|
    ensures forall j :: 0 <= j < |h| ==> h[m] <= h[j]
    ensures forall j :: 0 <= j < m ==> h[m] < h[j]
  {
    if |h| == 1 then 0
    else
      var k := Earliest(h[..|h| - 1]);
      if h[|h| - 1] < h[k] then |h| - 1 else k
  }

  /** Earliest is the only index holding a minimum that no earlier entry reaches. */
  lemma EarliestIsFirstMinimum(h: seq<real>, m: nat)
    requires m < |h|
    requires forall j :: 0 <= j < |h| ==> h[m] <= h[j]
    requires forall j :: 0 <= j < m ==> h[m] < h[j]
    ensures m == Earliest(h)
  {
  }

  /** Nothing filters the sentinel: a node whose head is -1 wins whenever no head is lower. */
  lemma SentinelIsSelected(h: seq<real>, i: nat)
    requires i < |h| && h[i] == SENTINEL
    requires forall j :: 0 <= j < |h| ==> SENTINEL <= h[j]
    ensures h[Earliest(h)] == SENTINEL && Earliest(h) <= i
  {
  }

  /**
   * Node i collides with the selected node m when its snapshotted head is
   * strictly earlier than the time m's first bit reaches it.
   */
  function Collides(tProp: real, h: seq<real>, m: nat, i: nat): (b: bool)
    requires m < |h| && i < |h|
    ensures b ==> i != m
  {
    i != m && h[i] < h[m] + tProp * (Dist(m, i) as real)
  }

  /** How many of the nodes 0..n-1 collide with m. */
  function CountColliders(tProp: real, h: seq<real>, m: nat, n: nat): (c: nat)
    requires m < |h| && n <= |h|
    ensures c <= n
    ensures m < n ==> c < n
  {
    if n == 0 then 0
    else CountColliders(tProp, h, m, n - 1) + (if Collides(tProp, h, m, n - 1) then 1 else 0)
  }

  /** No node collides exactly when the count of colliders is zero. */
  lemma {:induction false} NoCollidersIff(tProp: real, h: seq<real>, m: nat, n: nat)
    requires m < |h| && n <= |h|
    ensures CountColliders(tProp, h, m, n) == 0 <==> forall i :: 0 <= i < n ==> !Collides(tProp, h, m, i)
  {
    if n > 0 {
      NoCollidersIff(tProp, h, m, n - 1);
    }
  }

  // ---------------------------------------------------------------------
  // Collision handling

  /**
   * app_simulator_collision_detected: count the collision, pick K in
   * [0, counter]; K > 10 drops the head packet and resets the counter,
   * otherwise every entry below K*512 + head is deferred to that time.
   */
  function CollisionDetected(n: Node, raw: nat): (r: Node)
    requires n.pending != []
    ensures r.collisions == 0 || r.collisions == n.collisions + 1
    ensures r.collisions == 0 ==> n.collisions + 1 > RETRY_LIMIT && r.pending == n.pending[1..]
    ensures r.collisions != 0 ==>
      var k := RandomPick(r.collisions, raw);
      && k <= RETRY_LIMIT
      && |r.pending| == |n.pending|
      && r.pending[0] == (k as real) * SLOT_TIME + n.pending[0]
  {
    var count := n.collisions + 1;
    var k := RandomPick(count, raw);
    if k > RETRY_LIMIT then Node(n.pending[1..], 0)
    else Node(RaiseBelow(n.pending, (k as real) * SLOT_TIME + n.pending[0]), count)
  }

  /**
   * The two outcomes of a collision, decided by the pick for the incremented
   * counter: above 10 the head packet is dropped and the counter reset;
   * otherwise the counter is kept and every entry below K*512 + head is
   * raised to that time.
   */
  lemma CollisionDetectedCases(n: Node, raw: nat)
    requires n.pending != []
    ensures var k := RandomPick(n.collisions + 1, raw);
      && (k > RETRY_LIMIT ==> CollisionDetected(n, raw) == Node(n.pending[1..], 0))
      && (k <= RETRY_LIMIT ==>
            CollisionDetected(n, raw) == Node(RaiseBelow(n.pending, (k as real) * SLOT_TIME + n.pending[0]), n.collisions + 1))
  {
    var k := RandomPick(n.collisions + 1, raw);
    if k > RETRY_LIMIT {
      assert CollisionDetected(n, raw) == Node(n.pending[1..], 0);
    } else {
      var w := (k as real) * SLOT_TIME + n.pending[0];
      assert CollisionDetected(n, raw) == Node(RaiseBelow(n.pending, w), n.collisions + 1);
    }
  }

  /** With counter 10 and a zero pick the counter reaches 11 without a drop: no ceiling of 10 holds. */
  lemma CounterPassesTen()
    ensures CollisionDetected(Node([1.0], 10), 0) == Node([1.0], 11)
  {
  }

  /** The collision branch: every colliding peer is handled, the selected node never is. */
  function ApplyCollisions(c: Timing, s: Sim, m: nat, raws: seq<nat>): (r: Sim)
    requires Ready(s) && m < |s.nodes| && |raws| == |s.nodes|
    ensures |r.nodes| == |s.nodes| && r.nodes[m] == s.nodes[m]
    ensures r.bus == s.bus && r.sender == s.sender && r.successful == s.successful
    ensures r.transmitted == s.transmitted + CountColliders(c.tProp, Heads(s.nodes), m, |s.nodes|)
    ensures forall i :: 0 <= i < |s.nodes| ==>
      r.nodes[i] == if Collides(c.tProp, Heads(s.nodes), m, i) then CollisionDetected(s.nodes[i], raws[i]) else s.nodes[i]
  {
    var h := Heads(s.nodes);
    s.(nodes := seq(|s.nodes|, i requires 0 <= i < |s.nodes| =>
         if Collides(c.tProp, h, m, i) then CollisionDetected(s.nodes[i], raws[i]) else s.nodes[i]),
       transmitted := s.transmitted + CountColliders(c.tProp, h, m, |h|))
  }

  // ---------------------------------------------------------------------
  // Commit

  /** The number of leading entries of s equal to v. */
  function RunLength(s: seq<real>, v: real): (k: nat)
    ensures k <= |s|
    ensures forall j :: 0 <= j < k ==> s[j] == v
    ensures k < |s| ==> s[k] != v
  {
    if s == [] || s[0] != v then 0 else 1 + RunLength(s[1..], v)
  }

  /** Queue_Enqueue on the bus: refused when the bus is full. */
  function BusEnqueue(bus: seq<real>, v: real): seq<real>
  {
    if |bus| < BUS_CAPACITY then bus + [v] else bus
  }

  /**
   * The commit branch: node m's head goes onto the bus together with every
   * entry right behind it that has the same time, each counted as one
   * transmitted and one successful packet. The counter is not reset.
   */
  function Commit(s: Sim, m: nat): (r: Sim)
    requires m < |s.nodes| && s.nodes[m].pending != []
    ensures |r.nodes| == |s.nodes| && r.sender == m
    ensures s.transmitted < r.transmitted && r.transmitted - s.transmitted == r.successful - s.successful
    ensures s.bus == [] ==> r.bus == [s.nodes[m].pending[0]]
    ensures forall i :: 0 <= i < |s.nodes| && i != m ==> r.nodes[i] == s.nodes[i]
    ensures r.nodes[m].collisions == s.nodes[m].collisions
    ensures |r.nodes[m].pending| < |s.nodes[m].pending|
  {
    var p := s.nodes[m].pending;
    var k := RunLength(p, p[0]);
    s.(nodes := s.nodes[m := s.nodes[m].(pending := p[k..])],
       bus := BusEnqueue(s.bus, p[0]),
       sender := m,
       transmitted := s.transmitted + k,
       successful := s.successful + k)
  }

  /** The second phase: select, test every peer, then back off the peers or commit. */
  function Resolve(c: Timing, s: Sim, raws: seq<nat>): (r: Sim)
    requires Ready(s) && |raws| == |s.nodes|
    ensures |r.nodes| == |s.nodes|
    ensures s.transmitted < r.transmitted && s.successful <= r.successful
    ensures r.successful == s.successful ==> r.sender == s.sender && r.bus == s.bus
  {
    var h := Heads(s.nodes);
    var m := Earliest(h);
    if CountColliders(c.tProp, h, m, |h|) > 0 then ApplyCollisions(c, s, m, raws) else Commit(s, m)
  }

  /** ClearBus keeps every node's queue length, so a ready state stays ready. */
  lemma ClearBusKeepsReady(c: Timing, s: Sim)
    requires Ready(s)
    ensures Ready(ClearBus(c, s))
  {
  }

  /** app_simulator_persistent_sensing: clear a busy bus, then resolve. */
  function Step(c: Timing, s: Sim, raws: seq<nat>): (r: Sim)
    requires Ready(s) && |raws| == |s.nodes|
    ensures |r.nodes| == |s.nodes|
    ensures s.transmitted < r.transmitted && s.successful <= r.successful
  {
    ClearBusKeepsReady(c, s);
    Resolve(c, ClearBus(c, s), raws)
  }

  // ---------------------------------------------------------------------
  // What one step does

  /** The index the selection phase settles on. */
  function Selected(c: Timing, s: Sim): (m: nat)
    requires Ready(s)
    ensures m < |s.nodes|
  {
    ClearBusKeepsReady(c, s);
    Earliest(Heads(ClearBus(c, s).nodes))
  }

  /** How many peers collide with the selected node. */
  function Hits(c: Timing, s: Sim): (n: nat)
    requires Ready(s)
    ensures n < |s.nodes|
  {
    ClearBusKeepsReady(c, s);
    CountColliders(c.tProp, Heads(ClearBus(c, s).nodes), Selected(c, s), |s.nodes|)
  }

  /** The state the step keeps: a valid sender, at most one send on the bus, successes never above attempts. */
  ghost predicate Invariant(s: Sim) {
    && |s.nodes| >= 1
    && 0 <= s.sender < |s.nodes|
    && |s.bus| <= BUS_CAPACITY
    && s.successful <= s.transmitted
  }

  /** On a collision: one more attempt per colliding peer, no success, the bus left empty, the selected node untouched. */
  lemma StepOnCollision(c: Timing, s: Sim, raws: seq<nat>)
    requires Ready(s) && Invariant(s) && |raws| == |s.nodes|
    requires Hits(c, s) > 0
    ensures var r := Step(c, s, raws);
      && r.transmitted == s.transmitted + Hits(c, s)
      && r.successful == s.successful
      && r.bus == [] && r.sender == s.sender
      && r.nodes[Selected(c, s)] == ClearBus(c, s).nodes[Selected(c, s)]
    ensures var r := Step(c, s, raws); var s1 := ClearBus(c, s);
      forall i :: 0 <= i < |s.nodes| ==>
        r.nodes[i] == if Collides(c.tProp, Heads(s1.nodes), Selected(c, s), i)
                      then CollisionDetected(s1.nodes[i], raws[i]) else s1.nodes[i]
  {
  }

  /**
   * On a commit: node m loses its head and the k - 1 equal entries right
   * behind it, both counters grow by k, and the bus holds the head alone.
   */
  lemma StepOnCommit(c: Timing, s: Sim, raws: seq<nat>)
    requires Ready(s) && Invariant(s) && |raws| == |s.nodes|
    requires Hits(c, s) == 0
    ensures ClearBus(c, s).nodes[Selected(c, s)].pending != []
    ensures var r := Step(c, s, raws); var m := Selected(c, s);
      var p := ClearBus(c, s).nodes[m].pending; var k := RunLength(p, p[0]);
      && 1 <= k <= |p| && r.nodes[m].pending == p[k..]
      && (forall j :: 0 <= j < k ==> p[j] == p[0])
      && r.nodes[m].collisions == ClearBus(c, s).nodes[m].collisions
      && r.transmitted == s.transmitted + k && r.successful == s.successful + k
      && r.bus == [p[0]] && r.sender == m
      && forall i :: 0 <= i < |s.nodes| && i != m ==> r.nodes[i] == ClearBus(c, s).nodes[i]
  {
  }

  /** The step keeps the invariant. */
  lemma StepPreservesInvariant(c: Timing, s: Sim, raws: seq<nat>)
    requires Ready(s) && Invariant(s) && |raws| == |s.nodes|
    ensures Invariant(Step(c, s, raws))
    ensures Step(c, s, raws).transmitted >= s.transmitted && Step(c, s, raws).successful >= s.successful
  {
  }

  // ---------------------------------------------------------------------
  // Population (the fill loop of app_simulator_init)

  /** What one node's fill loop produced, the generator's last time, and how many draws it has used. */
  datatype Fill = Fill(entries: seq<real>, time: real, draws: nat)

  /**
   * One call of timestamp_generate and the horizon test after it: the last
   * time plus the gap, or -1 once that reaches the horizon.
   */
  function Generated(prev: real, g: real, horizon: real): real
  {
    if prev + g >= horizon then SENTINEL else prev + g
  }

  /**
   * The do-while loop filling one node: from time t, with the generator at
   * draw j and with room free slots, add the next gap; a time at or past the
   * horizon becomes -1, is enqueued and ends the loop; a full queue ends it too.
   */
  function Arrivals(t: real, j: nat, room: nat, horizon: real, gap: nat -> real): (f: Fill)
    requires room >= 1
    ensures 1 <= |f.entries| <= room
    decreases room
  {
    var v := Generated(t, gap(j), horizon);
    if v == SENTINEL || room == 1 then Fill([v], v, j + 1)
    else
      var rest := Arrivals(v, j + 1, room - 1, horizon, gap);
      Fill([v] + rest.entries, rest.time, rest.draws)
  }

  /**
   * Which times a fill holds: entry k is what the generator's call j + k
   * makes of the entry before it (of t for the first entry).
   */
  ghost predicate GeneratedFrom(e: seq<real>, t: real, j: nat, horizon: real, gap: nat -> real) {
    forall k :: 0 <= k < |e| ==> e[k] == Generated(if k == 0 then t else e[k - 1], gap(j + k), horizon)
  }

  /** A fill holds exactly the times the generator makes, each from the one before. */
  lemma {:induction false} ArrivalsValues(t: real, j: nat, room: nat, horizon: real, gap: nat -> real)
    requires room >= 1
    ensures GeneratedFrom(Arrivals(t, j, room, horizon, gap).entries, t, j, horizon, gap)
    decreases room
  {
    var e := Arrivals(t, j, room, horizon, gap).entries;
    var v := Generated(t, gap(j), horizon);
    if v != SENTINEL && room != 1 {
      var rest := Arrivals(v, j + 1, room - 1, horizon, gap).entries;
      assert e == [v] + rest;
      ArrivalsValues(v, j + 1, room - 1, horizon, gap);
      forall k | 0 < k < |e| ensures e[k] == Generated(e[k - 1], gap(j + k), horizon) {
        var k' := k - 1;
        assert e[k] == rest[k'] && e[k - 1] == if k' == 0 then v else rest[k' - 1];
        assert rest[k'] == Generated(if k' == 0 then v else rest[k' - 1], gap((j + 1) + k'), horizon);
      }
    }
  }

  /** The sentinel, if present, is the last entry, and no entry other than it reaches the horizon. */
  ghost predicate SentinelLastBelowHorizon(e: seq<real>, horizon: real) {
    && (forall k :: 0 <= k < |e| - 1 ==> e[k] != SENTINEL)
    && (forall k :: 0 <= k < |e| ==> e[k] == SENTINEL || e[k] < horizon)
  }

  /**
   * A node's fill takes one generator call per entry, ends on the sentinel or
   * on a full queue, leaves currentTime at its last entry, holds the sentinel
   * only at the end and holds only times before the horizon.
   */
  lemma {:induction false} ArrivalsShape(t: real, j: nat, room: nat, horizon: real, gap: nat -> real)
    requires room >= 1
    ensures var f := Arrivals(t, j, room, horizon, gap);
      && f.draws == j + |f.entries|
      && f.time == f.entries[|f.entries| - 1]
      && (f.time == SENTINEL || |f.entries| == room)
      && SentinelLastBelowHorizon(f.entries, horizon)
    decreases room
  {
    var v := Generated(t, gap(j), horizon);
    if v != SENTINEL && room != 1 {
      var rest := Arrivals(v, j + 1, room - 1, horizon, gap).entries;
      ArrivalsShape(v, j + 1, room - 1, horizon, gap);
      assert Arrivals(t, j, room, horizon, gap).entries == [v] + rest;
    }
  }

  /** Every timestamp of e other than the sentinel lies after t. */
  ghost predicate AllAfter(e: seq<real>, t: real) {
    forall a :: 0 <= a < |e| && e[a] != SENTINEL ==> t < e[a]
  }

  /** Every timestamp of e lies below each later one other than the sentinel. */
  ghost predicate IncreasingToSentinel(e: seq<real>) {
    forall a, b :: 0 <= a < b < |e| && e[b] != SENTINEL ==> e[a] < e[b]
  }

  /** With positive gaps a node's timestamps other than the sentinel lie after its start time. */
  lemma {:induction false} ArrivalsAfterStart(t: real, j: nat, room: nat, horizon: real, gap: nat -> real)
    requires room >= 1
    requires forall n :: gap(n) > 0.0
    ensures AllAfter(Arrivals(t, j, room, horizon, gap).entries, t)
    decreases room
  {
    var e := Arrivals(t, j, room, horizon, gap).entries;
    var v := Generated(t, gap(j), horizon);
    if v != SENTINEL && room != 1 {
      var rest := Arrivals(v, j + 1, room - 1, horizon, gap).entries;
      assert e == [v] + rest;
      ArrivalsAfterStart(v, j + 1, room - 1, horizon, gap);
      forall a | 0 <= a < |e| && e[a] != SENTINEL ensures t < e[a] {
        if a > 0 {
          assert e[a] == rest[a - 1];
        }
      }
    }
  }

  /** With positive gaps a node's timestamps strictly increase up to the sentinel. */
  lemma {:induction false} ArrivalsIncrease(t: real, j: nat, room: nat, horizon: real, gap: nat -> real)
    requires room >= 1
    requires forall n :: gap(n) > 0.0
    ensures IncreasingToSentinel(Arrivals(t, j, room, horizon, gap).entries)
    decreases room
  {
    var e := Arrivals(t, j, room, horizon, gap).entries;
    var v := Generated(t, gap(j), horizon);
    if v != SENTINEL && room != 1 {
      var rest := Arrivals(v, j + 1, room - 1, horizon, gap).entries;
      assert e == [v] + rest;
      ArrivalsIncrease(v, j + 1, room - 1, horizon, gap);
      ArrivalsAfterStart(v, j + 1, room - 1, horizon, gap);
      forall a, b | 0 <= a < b < |e| && e[b] != SENTINEL ensures e[a] < e[b] {
        assert e[b] == rest[b - 1];
        if a > 0 {
          assert e[a] == rest[a - 1];
        }
      }
    }
  }

  /** The fill loops of all n nodes; currentTime and the generator carry over from node to node. */
  function Populate(n: nat, t: real, j: nat, room: nat, horizon: real, gap: nat -> real): (fs: seq<Fill>)
    requires room >= 1
    ensures |fs| == n
    ensures n > 0 ==> fs[0] == Arrivals(t, j, room, horizon, gap)
    ensures forall i :: 0 <= i < n ==> fs[i].entries != []
    ensures forall i :: 0 < i < n ==> fs[i] == Arrivals(fs[i - 1].time, fs[i - 1].draws, room, horizon, gap)
    decreases n
  {
    if n == 0 then []
    else
      var f := Arrivals(t, j, room, horizon, gap);
      [f] + Populate(n - 1, f.time, f.draws, room, horizon, gap)
  }

  /** The state app_simulator_init leaves: filled nodes, counters zero, an empty bus, sender 0. */
  function InitialState(n: nat, horizon: real, room: nat, gap: nat -> real): (s: Sim)
    requires room >= 1
    ensures |s.nodes| == n && s.bus == [] && s.sender == 0 && s.transmitted == 0 && s.successful == 0
    ensures forall i :: 0 <= i < n ==>
      s.nodes[i].collisions == 0 && s.nodes[i].pending == Populate(n, 0.0, 0, room, horizon, gap)[i].entries
  {
    var fs := Populate(n, 0.0, 0, room, horizon, gap);
    Sim(seq(n, i requires 0 <= i < n => Node(fs[i].entries, 0)), [], 0, 0, 0)
  }

  /** Init leaves a state the step can run on and that satisfies the invariant. */
  lemma InitialStateIsReady(n: nat, horizon: real, room: nat, gap: nat -> real)
    requires n >= 1 && room >= 1
    ensures Ready(InitialState(n, horizon, room, gap)) && Invariant(InitialState(n, horizon, room, gap))
  {
  }

  /**
   * currentTime is not reset between nodes: when node 0 ends on the
   * sentinel, node 1's first time is -1 plus a gap, here below zero.
   */
  lemma SecondNodeStartsFromSentinel()
    ensures Populate(2, 0.0, 0, 10, 1.0, (n: nat) => 0.5)[1].entries[0] == -0.5
  {
  }

  // ---------------------------------------------------------------------
  // Two concrete steps

  /**
   * Two nodes with equal heads and no propagation delay do not collide: the
   * test is a strict <, so node 0 (the lower index) commits.
   */
  lemma SimultaneousHeadsDoNotCollide()
    ensures Step(Timing(0.0, 1.0), Sim([Node([5.0, -1.0], 0), Node([5.0, -1.0], 0)], [], 0, 0, 0), [0, 0])
         == Sim([Node([-1.0], 0), Node([5.0, -1.0], 0)], [5.0], 0, 1, 1)
  {
  }

  /** A lone node commits its first arrival directly; the next step empties the bus. */
  lemma SingleNodeCommits(c: Timing)
    ensures var r := Step(c, Sim([Node([2.0, -1.0], 0)], [], 0, 0, 0), [0]);
      && r == Sim([Node([-1.0], 0)], [2.0], 0, 1, 1)
      && ClearBus(c, r) == Sim([Node([-1.0], 0)], [], 0, 1, 1)
  {
  }
}
