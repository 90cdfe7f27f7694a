/**
 * app_simulator.c: the simulator state (app_simulator_data_S) as a class
 * holding one Queue per node and the one-slot shared-bus queue, and the
 * functions that update it in place. Each method is proved to compute the
 * corresponding function of module Csma on the abstract state State().
 *
 * The random draws and the arrival generator are inputs: `raws[i]` is the
 * rand() value return_random uses if node i collides in this step, and
 * `gap(j)` is what the j-th call of timestamp_generate adds to currentTime.
 */
module AppSimulator {
  import opened Queues
  import Csma

  /** APP_SIMULATOR_QUEUE_DEFAULT_SIZE, the capacity of every node queue. */
  const QUEUE_DEFAULT_SIZE: nat := 1000000000

  /** app_simulator_bus_busy: a node whose head is before localSendTime is deferred to it. */
  method BusBusy(node: Queue, localSendTime: real)
    requires node.Valid() && node.capacity > 0
    modifies node`Contents, node.arr
    ensures node.Valid() && node.Contents == Csma.Defer(old(node.Contents), localSendTime)
  {
    if node.PeekHead() < localSendTime {
      node.UpdateTimes(localSendTime);
    }
  }

  /** app_simulator_collision_detected. */
  method CollisionDetected(node: Queue, raw: nat)
    requires node.Valid() && node.Contents != []
    modifies node, node.arr
    ensures node.Valid()
    ensures Csma.Node(node.Contents, node.collisions)
         == Csma.CollisionDetected(Csma.Node(old(node.Contents), old(node.collisions)), raw)
  {
    node.IncrementCollision();
    var kPick := Csma.RandomPick(node.collisions, raw);
    if kPick > Csma.RETRY_LIMIT {
      var _ := node.Dequeue();
      node.ResetCollision();
    } else {
      var waitTime := (kPick as real) * Csma.SLOT_TIME + node.PeekHead();
      node.UpdateTimes(waitTime);
    }
  }

  /**
   * The do-while loop of app_simulator_init for one node: generate, replace
   * a time at or past the horizon by -1, enqueue, stop on -1 or on a full queue.
   */
  method PopulateNode(q: Queue, startTime: real, startDraw: nat, horizon: real, gap: nat -> real)
    returns (currentTime: real, draws: nat)
    requires q.Valid() && q.Contents == [] && q.capacity >= 1
    modifies q, q.arr
    ensures q.Valid() && q.collisions == old(q.collisions)
    ensures var f := Csma.Arrivals(startTime, startDraw, q.capacity, horizon, gap);
      q.Contents == f.entries && currentTime == f.time && draws == f.draws
  {
    ghost var f := Csma.Arrivals(startTime, startDraw, q.capacity, horizon, gap);
    currentTime, draws := startTime, startDraw;
    while true
      invariant q.Valid() && q.collisions == old(q.collisions)
      invariant q.size < q.capacity
      invariant FillsTo(q.Contents, currentTime, draws, q.capacity - q.size, horizon, gap, f)
      decreases q.capacity - q.size
    {
      ghost var room := q.capacity - q.size;
      ghost var before := q.Contents;
      FillStep(before, currentTime, draws, room, horizon, gap, f);
      currentTime, draws := FillOnce(q, currentTime, draws, horizon, gap);
      if currentTime == Csma.SENTINEL || q.IsFull() {
        break;
      }
    }
  }

  /**
   * The body of the fill loop: the generator adds the next gap, a time at or
   * past the horizon becomes -1, and the result is enqueued.
   */
  method FillOnce(q: Queue, currentTime: real, draws: nat, horizon: real, gap: nat -> real) returns (t: real, d: nat)
    requires q.Valid() && q.size < q.capacity
    modifies q, q.arr
    ensures q.Valid() && q.collisions == old(q.collisions)
    ensures t == Csma.Generated(currentTime, gap(draws), horizon) && d == draws + 1
    ensures q.Contents == old(q.Contents) + [t] && q.size == old(q.size) + 1
  {
    t := currentTime + gap(draws);
    d := draws + 1;
    if t >= horizon {
      t := Csma.SENTINEL;
    }
    var _ := q.Enqueue(t);
  }

  /**
   * The queue so far, `before`, followed by what the generator still adds
   * from time t at draw j with `room` free slots, is the whole fill f.
   */
  ghost predicate FillsTo(before: seq<real>, t: real, j: nat, room: nat, horizon: real, gap: nat -> real, f: Csma.Fill)
    requires room >= 1
  {
    var rest := Csma.Arrivals(t, j, room, horizon, gap);
    before + rest.entries == f.entries && rest.time == f.time && rest.draws == f.draws
  }

  /**
   * One pass of the fill loop: it enqueues v, the generator's next time; then
   * either that was the last entry, and the queue is the whole fill, or what
   * is left to generate from v completes the fill.
   */
  lemma FillStep(before: seq<real>, t: real, j: nat, room: nat, horizon: real, gap: nat -> real, f: Csma.Fill)
    requires room >= 1 && FillsTo(before, t, j, room, horizon, gap, f)
    ensures var v := Csma.Generated(t, gap(j), horizon);
      && ((v == Csma.SENTINEL || room == 1) ==> before + [v] == f.entries && f.time == v && f.draws == j + 1)
      && (v != Csma.SENTINEL && room > 1 ==> FillsTo(before + [v], v, j + 1, room - 1, horizon, gap, f))
  {
    var v := Csma.Generated(t, gap(j), horizon);
    if v != Csma.SENTINEL && room > 1 {
      var g := Csma.Arrivals(v, j + 1, room - 1, horizon, gap);
      assert (before + [v]) + g.entries == before + ([v] + g.entries);
    }
  }

  /**
   * The node queues lie in `fp` with their arrays, are valid and non-zero-sized,
   * and are pairwise distinct, down to their arrays.
   */
  ghost predicate NodesValid(qs: seq<Queue>, fp: set<object>)
    reads fp
  {
    && (forall i :: 0 <= i < |qs| ==> qs[i] in fp && qs[i].arr in fp && qs[i].Valid() && qs[i].capacity > 0)
    && (forall i, j :: 0 <= i < j < |qs| ==> qs[i] != qs[j] && qs[i].arr != qs[j].arr)
  }

  /**
   * The node-population loop of app_simulator_init: one new queue per node,
   * filled in turn, with currentTime carried from one node to the next.
   * `fp` collects the new queues and their arrays.
   */
  method PopulateNodes(n: nat, horizon: real, gap: nat -> real) returns (qs: seq<Queue>, ghost fp: set<object>)
    ensures |qs| == n && NodesValid(qs, fp) && fresh(fp)
    ensures forall k :: 0 <= k < n ==>
      && qs[k].collisions == 0 && qs[k].capacity == QUEUE_DEFAULT_SIZE
      && qs[k].Contents == Csma.Populate(n, 0.0, 0, QUEUE_DEFAULT_SIZE, horizon, gap)[k].entries
  {
    ghost var fills := Csma.Populate(n, 0.0, 0, QUEUE_DEFAULT_SIZE, horizon, gap);
    qs, fp := [], {};
    var currentTime := 0.0;
    var draws: nat := 0;
    for i := 0 to n
      invariant |qs| == i && fresh(fp)
      invariant forall k :: 0 <= k < i ==>
        && qs[k] in fp && qs[k].arr in fp && qs[k].Valid()
        && qs[k].capacity == QUEUE_DEFAULT_SIZE && qs[k].collisions == 0
        && qs[k].Contents == fills[k].entries
      invariant forall k, l :: 0 <= k < l < i ==> qs[k] != qs[l] && qs[k].arr != qs[l].arr
      invariant i == 0 ==> currentTime == 0.0 && draws == 0
      invariant i > 0 ==> currentTime == fills[i - 1].time && draws == fills[i - 1].draws
    {
      var q := new Queue(QUEUE_DEFAULT_SIZE);
      currentTime, draws := PopulateNode(q, currentTime, draws, horizon, gap);
      qs, fp := qs + [q], fp + {q, q.arr};
    }
  }

  /**
   * The bus-clearing loop of app_simulator_persistent_sensing: every node but
   * the sender goes through app_simulator_bus_busy at its clearance time.
   * `fp` holds the node queues and their arrays.
   */
  method DeferPeers(qs: seq<Queue>, sender: nat, c: Csma.Timing, ghost fp: set<object>)
    requires NodesValid(qs, fp)
    modifies fp
    ensures NodesValid(qs, fp)
    ensures forall j :: 0 <= j < |qs| ==>
      && qs[j].collisions == old(qs[j].collisions)
      && qs[j].Contents == if j == sender then old(qs[j].Contents)
                           else Csma.Defer(old(qs[j].Contents), Csma.ClearanceTime(c, sender, j))
  {
    for i := 0 to |qs|
      invariant forall j :: 0 <= j < |qs| ==>
        && qs[j].Valid() && qs[j].collisions == old(qs[j].collisions)
        && qs[j].Contents == if j < i && j != sender then Csma.Defer(old(qs[j].Contents), Csma.ClearanceTime(c, sender, j))
                             else old(qs[j].Contents)
    {
      if i != sender {
        var localSendTime := c.tTrans + c.tProp * (Csma.Dist(sender, i) as real);
        assert localSendTime == Csma.ClearanceTime(c, sender, i);
        BusBusy(qs[i], localSendTime);
      }
    }
  }

  /**
   * The snapshot loop of app_simulator_persistent_sensing: every node's head
   * into node_heads, and the first node holding the smallest head.
   */
  method ScanHeads(qs: seq<Queue>) returns (heads: array<real>, minTimeNode: nat, minTimeStamp: real)
    requires |qs| >= 1
    requires forall j :: 0 <= j < |qs| ==> qs[j].Valid() && qs[j].capacity > 0 && qs[j].Contents != []
    ensures fresh(heads) && heads.Length == |qs|
    ensures forall j :: 0 <= j < |qs| ==> heads[j] == qs[j].Contents[0]
    ensures minTimeNode < |qs| && minTimeStamp == heads[minTimeNode]
    ensures forall j :: 0 <= j < |qs| ==> minTimeStamp <= heads[j]
    ensures forall j :: 0 <= j < minTimeNode ==> minTimeStamp < heads[j]
  {
    heads := new real[|qs|];
    minTimeStamp := 0.0;
    minTimeNode := 0;
    var found := false;
    for i := 0 to |qs|
      invariant found <==> i > 0
      invariant forall j :: 0 <= j < i ==> heads[j] == qs[j].Contents[0]
      invariant minTimeNode <= i && (found ==> minTimeNode < i && minTimeStamp == heads[minTimeNode])
      invariant forall j :: 0 <= j < i ==> minTimeStamp <= heads[j]
      invariant forall j :: 0 <= j < minTimeNode ==> minTimeStamp < heads[j]
    {
      heads[i] := qs[i].PeekHead();
      if !found || heads[i] < minTimeStamp {
        minTimeStamp := heads[i];
        minTimeNode := i;
        found := true;
      }
    }
  }

  /**
   * One pass of the collision loop: node i, whose snapshotted head is `head`,
   * collides when that head is before the selected send reaches it, and then
   * backs off. `h` is the whole node_heads snapshot.
   */
  method ResolvePeer(q: Queue, i: nat, head: real, minTimeNode: nat, minTimeStamp: real,
                     tProp: real, raw: nat, ghost h: seq<real>, ghost n: Csma.Node)
    returns (hit: bool)
    requires q.Valid() && q.capacity > 0 && Csma.Node(q.Contents, q.collisions) == n && n.pending != []
    requires i < |h| && minTimeNode < |h| && minTimeStamp == h[minTimeNode] && head == h[i]
    modifies q, q.arr
    ensures q.Valid()
    ensures hit == Csma.Collides(tProp, h, minTimeNode, i)
    ensures Csma.Node(q.Contents, q.collisions) == if hit then Csma.CollisionDetected(n, raw) else n
  {
    if i == minTimeNode {
      return false;
    }
    var localSendTime := minTimeStamp + tProp * (Csma.Dist(minTimeNode, i) as real);
    hit := head < localSendTime;
    if hit {
      CollisionDetected(q, raw);
    }
  }

  /**
   * The collision loop of app_simulator_persistent_sensing: every node but the
   * selected one is checked against the snapshot; `hits` is how many collided,
   * the amount the loop adds to transmitted_packets.
   */
  method ResolvePeers(qs: seq<Queue>, heads: array<real>, minTimeNode: nat, minTimeStamp: real,
                      tProp: real, raws: seq<nat>, ghost h: seq<real>, ghost pre: seq<Csma.Node>, ghost fp: set<object>)
    returns (collided: bool, hits: nat)
    requires NodesValid(qs, fp) && |raws| == |qs| && |pre| == |qs|
    requires forall j :: 0 <= j < |qs| ==> Csma.Node(qs[j].Contents, qs[j].collisions) == pre[j] && pre[j].pending != []
    requires heads[..] == h && |h| == |qs| && minTimeNode < |qs| && minTimeStamp == h[minTimeNode]
    requires heads !in fp
    modifies fp
    ensures NodesValid(qs, fp)
    ensures hits == Csma.CountColliders(tProp, h, minTimeNode, |qs|) && (collided <==> hits > 0)
    ensures forall j :: 0 <= j < |qs| ==>
      Csma.Node(qs[j].Contents, qs[j].collisions)
        == if Csma.Collides(tProp, h, minTimeNode, j) then Csma.CollisionDetected(pre[j], raws[j]) else pre[j]
  {
    collided, hits := false, 0;
    for i := 0 to |qs|
      invariant hits == Csma.CountColliders(tProp, h, minTimeNode, i) && (collided <==> hits > 0)
      invariant forall j :: 0 <= j < |qs| ==>
        && qs[j].Valid()
        && Csma.Node(qs[j].Contents, qs[j].collisions)
             == if j < i && Csma.Collides(tProp, h, minTimeNode, j) then Csma.CollisionDetected(pre[j], raws[j]) else pre[j]
    {
      var hit := ResolvePeer(qs[i], i, heads[i], minTimeNode, minTimeStamp, tProp, raws[i], h, pre[i]);
      if hit {
        collided := true;
        hits := hits + 1;
      }
    }
  }

  /**
   * The commit loop of app_simulator_persistent_sensing: dequeue the head and
   * every following entry equal to it (`sent` of them), then offer the time
   * to the bus.
   */
  method SendRun(q: Queue, bus: Queue) returns (sent: nat)
    requires q.Valid() && q.capacity > 0 && q.Contents != []
    requires bus.Valid() && bus.capacity == Csma.BUS_CAPACITY
    requires q != bus && q.arr != bus.arr
    modifies q, bus, bus.arr
    ensures q.Valid() && q.collisions == old(q.collisions) && bus.Valid()
    ensures var p := old(q.Contents);
      && sent == Csma.RunLength(p, p[0]) && q.Contents == p[sent..]
      && bus.Contents == Csma.BusEnqueue(old(bus.Contents), p[0])
  {
    ghost var p := q.Contents;
    var localSendTime := q.Dequeue();
    sent := 1;
    while q.size > 0 && q.PeekHead() == localSendTime
      invariant q.Valid() && q.collisions == old(q.collisions)
      invariant 1 <= sent <= |p| && q.Contents == p[sent..] && localSendTime == p[0]
      invariant forall j :: 0 <= j < sent ==> p[j] == p[0]
      invariant bus.Valid() && bus.Contents == old(bus.Contents)
      decreases q.size
    {
      localSendTime := q.Dequeue();
      sent := sent + 1;
    }
    assert sent == Csma.RunLength(p, p[0]);
    var _ := bus.Enqueue(localSendTime);
  }

  /** The filled nodes, read as abstract state, are the nodes of the initial state. */
  lemma InitialNodes(qs: seq<Queue>, n: nat, horizon: real, gap: nat -> real, s: Csma.Sim)
    requires |qs| == n && |s.nodes| == n && s.bus == [] && s.sender == 0 && s.transmitted == 0 && s.successful == 0
    requires forall k :: 0 <= k < n ==> qs[k].collisions == 0
    requires forall k :: 0 <= k < n ==> qs[k].Contents == Csma.Populate(n, 0.0, 0, QUEUE_DEFAULT_SIZE, horizon, gap)[k].entries
    requires forall k :: 0 <= k < n ==> s.nodes[k] == Csma.Node(qs[k].Contents, qs[k].collisions)
    ensures s == Csma.InitialState(n, horizon, QUEUE_DEFAULT_SIZE, gap)
  {
  }

  /** A state whose nodes are the deferred ones and whose bus has lost its send is the cleared state. */
  lemma ClearedState(c: Csma.Timing, s: Csma.Sim, r: Csma.Sim)
    requires s.bus != [] && r.bus == s.bus[1..] && |r.nodes| == |s.nodes|
    requires r.sender == s.sender && r.transmitted == s.transmitted && r.successful == s.successful
    requires forall j :: 0 <= j < |s.nodes| ==>
      r.nodes[j] == if j == s.sender then s.nodes[j] else Csma.BusBusy(s.nodes[j], Csma.ClearanceTime(c, s.sender, j))
    ensures r == Csma.ClearBus(c, s)
  {
  }

  /**
   * After the collision loop, which counted `hits` colliders: with a
   * collision the state is the snapshot with the colliders backed off and
   * counted; without one it is the snapshot itself.
   */
  lemma ResolvedState(c: Csma.Timing, s: Csma.Sim, raws: seq<nat>, h: seq<real>, m: nat, hits: nat, collided: bool, r: Csma.Sim)
    requires Csma.Ready(s) && |raws| == |s.nodes| && h == Csma.Heads(s.nodes) && m < |h|
    requires hits == Csma.CountColliders(c.tProp, h, m, |h|) && (collided <==> hits > 0)
    requires |r.nodes| == |s.nodes| && r.bus == s.bus && r.sender == s.sender && r.successful == s.successful
    requires r.transmitted == s.transmitted + hits
    requires forall j :: 0 <= j < |s.nodes| ==>
      r.nodes[j] == if Csma.Collides(c.tProp, h, m, j) then Csma.CollisionDetected(s.nodes[j], raws[j]) else s.nodes[j]
    ensures collided ==> r == Csma.ApplyCollisions(c, s, m, raws)
    ensures !collided ==> r == s
  {
    if collided {
      assert r.nodes == Csma.ApplyCollisions(c, s, m, raws).nodes;
    } else {
      Csma.NoCollidersIff(c.tProp, h, m, |h|);
      assert r.nodes == s.nodes;
    }
  }

  /** The state after a send: node m lost its run, the bus was offered the time, the counters grew by the run. */
  lemma CommittedState(s: Csma.Sim, m: nat, sent: nat, r: Csma.Sim)
    requires m < |s.nodes| && s.nodes[m].pending != [] && |r.nodes| == |s.nodes|
    requires var p := s.nodes[m].pending;
      && sent == Csma.RunLength(p, p[0])
      && r.nodes[m] == s.nodes[m].(pending := p[sent..])
      && r.bus == Csma.BusEnqueue(s.bus, p[0])
    requires forall j :: 0 <= j < |s.nodes| && j != m ==> r.nodes[j] == s.nodes[j]
    requires r.sender == m && r.transmitted == s.transmitted + sent && r.successful == s.successful + sent
    ensures r == Csma.Commit(s, m)
  {
  }

  class Simulator {
    // The simulation parameters of app_simulator_init.
    const simulationTimeSecs: real
    const arrivalRate: real
    const frameLength: real
    const bitRate: real
    const N: nat
    const distance: real
    const propagationSpeed: real
    const maxBufferSize: int

    const nodes: seq<Queue>
    const sharedBus: Queue

    var transmitted: nat
    var successful: nat

    const tProp: real
    const tTrans: real
    var sendingNode: nat

    ghost const Repr: set<object>
    /** The node queues and their arrays: Repr without the bus. */
    ghost const NodeRepr: set<object>

    ghost predicate Valid()
      reads this, Repr
    {
      && this !in Repr
      && Repr == NodeRepr + {sharedBus, sharedBus.arr}
      && sharedBus !in NodeRepr && sharedBus.arr !in NodeRepr
      && N >= 1 && |nodes| == N
      && sharedBus.Valid() && sharedBus.capacity == Csma.BUS_CAPACITY
      && NodesValid(nodes, NodeRepr)
      && sendingNode < N
      && successful <= transmitted
    }

    function Delays(): Csma.Timing
    {
      Csma.Timing(tProp, tTrans)
    }

    /** The abstract state: every node's pending times and counter, the bus, the sender, the counters. */
    ghost function State(): Csma.Sim
      reads this, Repr
      requires Valid()
    {
      var qs := nodes;
      Csma.Sim(seq(|qs|, i requires 0 <= i < |qs| reads qs => Csma.Node(qs[i].Contents, qs[i].collisions)),
               sharedBus.Contents, sendingNode, transmitted, successful)
    }

    lemma StateNodes()
      requires Valid()
      ensures |State().nodes| == N && State().bus == sharedBus.Contents
      ensures State().sender == sendingNode && State().transmitted == transmitted && State().successful == successful
      ensures forall i :: 0 <= i < N ==> State().nodes[i] == Csma.Node(nodes[i].Contents, nodes[i].collisions)
      ensures Csma.Ready(State()) <==> forall i :: 0 <= i < N ==> nodes[i].Contents != []
    {
    }

    /** app_simulator_init: store the parameters, create the bus, fill every node queue. */
    constructor (simulationTimeSecs: real, A: real, L: real, R: real, N: nat, D: real, S: real,
                 maxBufferSize: int, gap: nat -> real)
      requires N >= 1 && R != 0.0 && S != 0.0
      ensures Valid() && fresh(Repr)
      ensures this.N == N && this.simulationTimeSecs == simulationTimeSecs
      ensures arrivalRate == A && frameLength == L && bitRate == R
      ensures distance == D && propagationSpeed == S && this.maxBufferSize == maxBufferSize
      ensures tProp == D / S && tTrans == L / R
      ensures State() == Csma.InitialState(N, simulationTimeSecs, QUEUE_DEFAULT_SIZE, gap)
    {
      this.simulationTimeSecs := simulationTimeSecs;
      arrivalRate, frameLength, bitRate, this.N, distance, propagationSpeed := A, L, R, N, D, S;
      tProp := D / S;
      tTrans := L / R;
      this.maxBufferSize := maxBufferSize;
      transmitted, successful, sendingNode := 0, 0, 0;
      var bus := new Queue(Csma.BUS_CAPACITY);
      sharedBus := bus;
      var qs, fp := PopulateNodes(N, simulationTimeSecs, gap);
      nodes := qs;
      NodeRepr := fp;
      Repr := fp + {bus, bus.arr};
      new;
      assert Valid();
      StateNodes();
      InitialNodes(qs, N, simulationTimeSecs, gap, State());
    }

    /**
     * The first phase of app_simulator_persistent_sensing: when the bus holds
     * a send, defer every node but the sender up to its clearance time, then
     * take the send off the bus.
     */
    method ClearSharedBus()
      requires Valid()
      modifies Repr
      ensures Valid()
      ensures State() == Csma.ClearBus(Delays(), old(State()))
    {
      ghost var s0 := State();
      StateNodes();
      if !sharedBus.IsEmpty() {
        DeferPeers(nodes, sendingNode, Delays(), NodeRepr);
        var _ := sharedBus.Dequeue();
        StateNodes();
        ClearedState(Delays(), s0, State());
      }
    }

    /**
     * The commit branch: node m's whole run of equal times leaves the node,
     * the time is offered to the bus, and each packet of the run counts as
     * transmitted and successful.
     */
    method Transmit(m: nat, ghost s: Csma.Sim)
      requires Valid() && s == State() && Csma.Ready(s) && m < N
      modifies this`transmitted, this`successful, this`sendingNode, nodes[m], sharedBus, sharedBus.arr
      ensures Valid()
      ensures State() == Csma.Commit(s, m)
    {
      StateNodes();
      var sent := SendRun(nodes[m], sharedBus);
      transmitted := transmitted + sent;
      successful := successful + sent;
      sendingNode := m;
      StateNodes();
      CommittedState(s, m, sent, State());
    }

    /**
     * The snapshot loop and the selection: node_heads holds every node's head
     * and the selected node is the first with the smallest one.
     */
    method SelectEarliest() returns (heads: array<real>, minTimeNode: nat, minTimeStamp: real)
      requires Valid() && Csma.Ready(State())
      ensures fresh(heads) && heads[..] == Csma.Heads(State().nodes)
      ensures minTimeNode == Csma.Earliest(heads[..]) && minTimeStamp == heads[minTimeNode]
    {
      StateNodes();
      heads, minTimeNode, minTimeStamp := ScanHeads(nodes);
      assert heads[..] == Csma.Heads(State().nodes);
      Csma.EarliestIsFirstMinimum(heads[..], minTimeNode);
    }

    /**
     * The collision loop: every peer whose snapshotted head `h` is before the
     * selected send reaches it backs off, and each counts as transmitted.
     */
    method BackOffPeers(heads: array<real>, minTimeNode: nat, minTimeStamp: real, raws: seq<nat>,
                        ghost s: Csma.Sim, ghost h: seq<real>)
      returns (collided: bool)
      requires Valid() && s == State() && Csma.Ready(s) && |raws| == N && heads !in Repr
      requires heads[..] == h && h == Csma.Heads(s.nodes) && minTimeNode < N && minTimeStamp == h[minTimeNode]
      modifies this`transmitted, Repr
      ensures Valid()
      ensures collided <==> Csma.CountColliders(Delays().tProp, h, minTimeNode, N) > 0
      ensures collided ==> State() == Csma.ApplyCollisions(Delays(), s, minTimeNode, raws)
      ensures !collided ==> State() == s
    {
      StateNodes();
      var hits;
      collided, hits := ResolvePeers(nodes, heads, minTimeNode, minTimeStamp, tProp, raws, h, s.nodes, NodeRepr);
      transmitted := transmitted + hits;
      StateNodes();
      ResolvedState(Delays(), s, raws, h, minTimeNode, hits, collided, State());
    }

    /**
     * The second phase of app_simulator_persistent_sensing: select the
     * earliest node, test every peer, then either back off the colliding
     * peers or transmit from the selected node.
     */
    method ResolveContention(raws: seq<nat>)
      requires Valid() && Csma.Ready(State()) && |raws| == N
      modifies this`transmitted, this`successful, this`sendingNode, Repr
      ensures Valid()
      ensures State() == Csma.Resolve(Delays(), old(State()), raws)
    {
      var heads, minTimeNode, minTimeStamp := SelectEarliest();
      ghost var s := State();
      var collided := BackOffPeers(heads, minTimeNode, minTimeStamp, raws, s, heads[..]);
      if !collided {
        Transmit(minTimeNode, s);
      }
    }

    /** app_simulator_persistent_sensing: one step of the simulation. */
    method PersistentSensing(raws: seq<nat>)
      requires Valid() && Csma.Ready(State()) && |raws| == N
      modifies this`transmitted, this`successful, this`sendingNode, Repr
      ensures Valid()
      ensures State() == Csma.Step(Delays(), old(State()), raws)
    {
      Csma.ClearBusKeepsReady(Delays(), State());
      ClearSharedBus();
      ResolveContention(raws);
    }
  }
}
