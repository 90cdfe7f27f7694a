# ECE358 Lab 2: a verified model of the CSMA/CD simulator core

ECE358_Lab2 simulates N stations on a shared bus that use persistent
carrier sensing with collision detection. Each station (node) keeps a
queue of pending transmission times. The bus is a one-slot queue that
holds the send in progress. One call of `app_simulator_persistent_sensing`
advances the simulation by one step:

1. **Clear the bus.** If the bus holds a send, every other node is deferred
   to its clearance time, and the bus is emptied.
2. **Select.** The node with the earliest head time is selected.
3. **Detect collisions.** Every other node whose head is before the selected
   send reaches it collides. Each collided node backs off or drops its head
   packet.
4. **Commit.** With no collision, the selected node's send goes onto the
   bus, and both packet counters grow.

The project has three modules:

- `Queues` (queues.dfy): the circular-buffer FIFO of `queue.c`, a class over
  an `array<real>` with `head`, `tail`, `size` and `capacity`. A ghost
  sequence `Contents` holds the queued times, oldest first. The class also
  has two extensions the simulator calls:
  - a collision counter;
  - `Queue_update_times`, modelled by `RaiseBelow`. The bodies of both
    extensions are not in `queue.c`, so their contracts here are the assumed
    behaviour: entries below t become t, the others stay, the order is kept.
- `Csma` (csma.dfy): the step on values. A `Sim` holds every node's pending
  times and collision counter, the bus, the sending node and the two
  counters. `Step` is `Resolve` after `ClearBus`. The lemmas state what one
  step does, the invariant it keeps, and how the initial fill is shaped.
- `AppSimulator` (simulator.dfy): the C functions as methods over a
  `Simulator` class that mirrors `app_simulator_data_S`. It holds a sequence
  of `Queue` objects and the bus queue. Each method is proved to compute
  the matching `Csma` function on the abstract state `State()`. The top-level
  result is `PersistentSensing`: `State() == Csma.Step(Delays(), old(State()), raws)`.

Timestamps are `real`. The two sources of randomness are inputs:
- `raws[i]` is the `rand()` value that `return_random` reduces when node i
  collides;
- `gap(j)` is what the j-th call of `timestamp_generate` adds to the
  current time.

The model follows the code. Where the code departs from textbook
persistent CSMA/CD with binary exponential backoff, the model departs too:
- **Collision test.** A peer collides when its head is strictly earlier
  than the moment the selected send reaches it (`<`). So two simultaneous
  heads with no propagation delay do not collide:
  `Csma.SimultaneousHeadsDoNotCollide`.
- **Backoff pick.** It is `rand() % (count + 1)`, which lies in `[0, count]`.
  Binary exponential backoff would pick from `[0, 2^count - 1]`.
- **Backoff wait.** It is `K * 512 + head`. The textbook wait is K times
  512 bit times, that is 512 divided by the bit rate.
- **Drop test.** The drop tests the pick (`K > 10`), not a ceiling on the
  collision counter. So the counter can pass 10: `Csma.CounterPassesTen`.
- **Commit.**
  - A commit removes the head and every entry right behind it that equals it.
    Both counters grow by that number, not by exactly one.
  - The selected node's collision counter is not reset.
- **Sentinel.** The `-1` sentinel is not skipped when selecting the earliest
  node: `Csma.SentinelIsSelected`.
- **Deferral time.** The bus-clear deferral time is `T_trans + T_prop * |sender - i|`.
  It is not anchored to the time the send started.
- **Filling the nodes.**
  - Filling a node stops silently on a full queue. There is no overflow error.
  - `currentTime` is not reset between nodes, so after a sentinel the next
    node starts from -1: `Csma.SecondNodeStartsFromSentinel`.

## Model

| member | source | states |
|---|---|---|
| Queues.Queue.constructor | queue.c:36-46 | a new queue is empty: head, tail and size are 0, the capacity is the argument, the array has that length, and the counter is 0 |
| Queues.Queue.TailIsModular | queue.c:59-80 | the representation invariant in the C fields: head and tail are below the capacity, and tail == (head + size) % capacity |
| Queues.Queue.Enqueue | queue.c:59-71 | a full queue returns -1 and changes no field and no array cell; otherwise val is appended to the FIFO and the new size, old size + 1, is returned |
| Queues.Queue.Dequeue | queue.c:73-80 | on a non-empty queue, returns the front of the FIFO and removes exactly it; the rest keep their order; the invariant is kept |
| Queues.Queue.IsEmpty | queue.c:82-89 | true iff the FIFO is empty |
| Queues.Queue.IsFull | queue.c:91-98 | true iff the FIFO holds capacity entries |
| Queues.Queue.PeekHead | queue.c:100-103 | reads the head slot without changing anything; on a non-empty queue that slot is the front entry |
| Queues.Queue.PeekTail | queue.c:105-108 | reads the next write slot without changing anything; on a full queue that slot is the front entry |
| Queues.RoundTrip | queue.c:59-80 | enqueueing v1..vk into an empty queue of capacity at least k, then dequeueing until empty, gives v1..vk back in order |
| Queues.Queue.IncrementCollision | app_simulator.c:103 | the collision counter grows by exactly one; the queue is unchanged |
| Queues.Queue.ResetCollision | app_simulator.c:111 | the collision counter becomes 0; the queue is unchanged |
| Queues.RaiseBelow | app_simulator.c:118 | the assumed meaning of Queue_update_times: the length is kept, every entry below t becomes t, every other entry stays |
| Queues.RaiseBelowMonotone | app_simulator.c:128 | after raising, no entry is below t or below its old value, and entries that were in order stay in order |
| Queues.RaiseBelowCompose | app_simulator.c:118 | raising to t and then to u is raising once to the later of the two |
| Queues.Queue.UpdateTimes | app_simulator.c:128 | the in-place walk over the occupied slots leaves the FIFO equal to RaiseBelow of the old one |
| Csma.RandomPick | timestamp_generator.c:53-56 | the pick is at most upper |
| Csma.RandomPickCovers | timestamp_generator.c:53-56 | every value in [0, upper] is a possible pick |
| Csma.ClearanceTime | app_simulator.c:151 | the deferral time is at least T_trans, given a non-negative T_prop, and is exactly T_trans at the sender |
| Csma.Defer | app_simulator.c:124-130 | a queue whose head is below t keeps its length and gets head t; every entry below t becomes exactly t and every entry at or above t is unchanged, so no entry is below t afterwards; an empty queue, or one whose head is at least t, is unchanged |
| Csma.BusBusy | app_simulator.c:124-130 | a node whose head is below t has every entry below t set to exactly t, and no entry below t afterwards; an entry at or above t is unchanged; a node whose head is at least t is unchanged; the counter and length are kept either way |
| Csma.ClearBus | app_simulator.c:139-157 | with an empty bus nothing changes; otherwise the send is taken off the bus (the new bus is the old bus without its first entry, so a bus within its capacity of one ends empty), the sender is untouched, every other node is BusBusy at its clearance time, and the counters and queue lengths are kept |
| Csma.Earliest | app_simulator.c:162-173 | the selected index holds the minimum head, and every lower index holds a strictly larger head (ties go to the lowest index) |
| Csma.EarliestIsFirstMinimum | app_simulator.c:162-173 | the first index holding the minimum is the only one Earliest can return |
| Csma.SentinelIsSelected | app_simulator.c:166-171 | a -1 head wins whenever no head is lower: the sentinel is not skipped |
| Csma.Collides | app_simulator.c:179-187 | the selected node never collides with itself |
| Csma.CountColliders | app_simulator.c:176-194 | at most n peers collide, and fewer than n when the selected node is among them (it never collides with itself) |
| Csma.NoCollidersIff | app_simulator.c:187-196 | the collider count is zero iff no node collides |
| Csma.CollisionDetected | app_simulator.c:100-121 | the counter becomes old + 1, or 0 after a drop; a drop (counter 0) needs old + 1 > 10 and removes exactly the head; otherwise the pick K for the new counter is at most 10, the length is kept, and the head becomes K * 512 + the old head; which branch each pick takes is Csma.CollisionDetectedCases |
| Csma.CollisionDetectedCases | app_simulator.c:100-121 | the two branches in full, decided by the pick K for the incremented counter: K > 10 gives the queue without its head and counter 0; K <= 10 gives the whole queue raised with RaiseBelow to K * 512 + the old head, and counter old + 1 |
| Csma.CounterPassesTen | app_simulator.c:103-112 | with counter 10 and a zero pick the counter becomes 11 without a drop |
| Csma.ApplyCollisions | app_simulator.c:176-194 | every node that collides with the snapshot goes through CollisionDetected and every other node, the selected one included, is unchanged; transmitted grows by the collider count; the bus, the sender and successful are unchanged |
| Csma.RunLength | app_simulator.c:199-203 | the first k entries equal v, and the entry after them (if any) does not |
| Csma.Commit | app_simulator.c:196-210 | the sender becomes the selected node; transmitted strictly grows, by the same amount as successful; an empty bus ends holding exactly the head; the selected node keeps its counter and loses at least one entry; every other node is unchanged |
| Csma.Resolve | app_simulator.c:159-210 | the node count is kept, transmitted strictly grows and successful never falls; a phase that adds no success (a collision) leaves the bus and the sender as they were |
| Csma.Step | app_simulator.c:132-212 | the node count is kept, transmitted strictly grows and successful never falls |
| Csma.Hits | app_simulator.c:176-194 | fewer peers than nodes collide in one step |
| Csma.ClearBusKeepsReady | app_simulator.c:139-157 | clearing the bus keeps every node's queue non-empty |
| Csma.StepOnCollision | app_simulator.c:176-196 | on a collision step transmitted grows by exactly the number of colliders, successful is unchanged, the bus stays empty, the sender is kept, the selected node is untouched, and each peer is backed off iff it collides |
| Csma.StepOnCommit | app_simulator.c:196-210 | on a commit the selected node loses its head and the k - 1 equal entries behind it (k >= 1), its counter is kept, both counters grow by k, the bus holds exactly the committed time, the sender becomes the selected node, and the other nodes are unchanged |
| Csma.StepPreservesInvariant | app_simulator.c:132-212 | a step keeps a valid sender, at most one send on the bus and successful <= transmitted, and neither counter decreases |
| Csma.SimultaneousHeadsDoNotCollide | app_simulator.c:187 | two nodes with equal heads and T_prop = 0 do not collide; node 0 commits |
| Csma.SingleNodeCommits | app_simulator.c:196-210 | a lone node commits its first arrival, and the next bus clear only empties the bus |
| Csma.Arrivals | app_simulator.c:249-266 | one node's fill produces at least one and at most room entries |
| Csma.ArrivalsValues | app_simulator.c:249-266 | a fill holds exactly the generated times: entry k is entry k - 1 (the start time for entry 0) plus the gap of generator call j + k when that is below the horizon, and -1 when it reaches the horizon |
| Csma.ArrivalsShape | app_simulator.c:249-266 | a fill uses one generator call per entry, leaves currentTime at its last entry, ends on the sentinel or a full queue, holds the sentinel only last, and holds only times below the horizon otherwise |
| Csma.ArrivalsAfterStart | app_simulator.c:252 | with positive gaps every non-sentinel entry lies after the start time |
| Csma.ArrivalsIncrease | app_simulator.c:249-266 | with positive gaps the entries strictly increase up to the sentinel |
| Csma.Populate | app_simulator.c:244-269 | one fill per node, each non-empty; node 0 starts at time 0, and node i starts from node i - 1's last time and draw count |
| Csma.InitialState | app_simulator.c:219-269 | init leaves n nodes, each with counter 0 and holding its fill from Populate started at time 0 and draw 0, an empty bus, sender 0, and both counters 0 |
| Csma.InitialStateIsReady | app_simulator.c:219-269 | the state init leaves has a non-empty queue at every node and satisfies the step invariant |
| Csma.SecondNodeStartsFromSentinel | app_simulator.c:244-262 | currentTime is not reset: after node 0 ends on -1, node 1's first time is -1 + gap, here -0.5 |
| AppSimulator.BusBusy | app_simulator.c:124-130 | the node's queue becomes Csma.Defer of the old one at the given time, and the queue stays valid |
| AppSimulator.CollisionDetected | app_simulator.c:100-121 | the node's queue and counter become Csma.CollisionDetected of the old ones with this raw draw |
| AppSimulator.PopulateNode | app_simulator.c:249-266 | the do-while loop enqueues exactly Csma.Arrivals from the given time and draw, and returns the generator's last time and draw count |
| AppSimulator.FillOnce | app_simulator.c:252-260 | one pass enqueues exactly Generated of the current time and gap, returns that time and the next draw, and leaves the counter unchanged |
| AppSimulator.FillStep | app_simulator.c:249-266 | if the queue so far (`before`) followed by the rest of Arrivals from time t is the whole fill, then after enqueuing the next generated time v either the loop stops (v is -1 or the queue became full) and the queue is the whole fill, with its last time and draw count, or the same holds again from v with one slot fewer |
| AppSimulator.PopulateNodes | app_simulator.c:244-269 | creates n fresh, distinct, valid queues of capacity 1000000000 with counter 0, holding the fills of Csma.Populate from time 0 |
| AppSimulator.DeferPeers | app_simulator.c:142-153 | every node but the sender is deferred to its clearance time; the sender and all counters are unchanged |
| AppSimulator.ScanHeads | app_simulator.c:162-173 | node_heads holds every node's head, and the selected node holds the smallest, with every lower index strictly larger |
| AppSimulator.ResolvePeer | app_simulator.c:179-192 | reports a hit iff the node collides with the snapshot; on a hit the node becomes Csma.CollisionDetected of its old value with this raw draw, otherwise it is unchanged |
| AppSimulator.ResolvePeers | app_simulator.c:176-194 | the collision loop counts exactly the colliders and reports whether there was any; each collider goes through CollisionDetected and every other node is unchanged, all checked against the snapshot taken before the loop |
| AppSimulator.SendRun | app_simulator.c:199-207 | the do-while loop dequeues exactly the run of entries equal to the head, and the bus is offered the head |
| AppSimulator.InitialNodes | app_simulator.c:244-269 | the filled queues, read as abstract nodes, form Csma.InitialState |
| AppSimulator.ClearedState | app_simulator.c:139-157 | deferred peers together with a bus that lost its send form Csma.ClearBus |
| AppSimulator.ResolvedState | app_simulator.c:176-196 | after the collision loop, a collision gives exactly Csma.ApplyCollisions of the old state; no collision leaves the state unchanged |
| AppSimulator.CommittedState | app_simulator.c:196-210 | a node that sent its run, with the bus offered the time and the counters grown by the run, forms Csma.Commit |
| AppSimulator.Simulator.constructor | app_simulator.c:219-269 | init stores N, the horizon and the parameters A, L, R, D, S and the buffer size, computes T_prop = D / S and T_trans = L / R, and leaves State() equal to Csma.InitialState |
| AppSimulator.Simulator.ClearSharedBus | app_simulator.c:139-157 | the new state is Csma.ClearBus of the old one |
| AppSimulator.Simulator.SelectEarliest | app_simulator.c:162-173 | node_heads is the head snapshot of State(), and the selected node is Csma.Earliest of it |
| AppSimulator.Simulator.BackOffPeers | app_simulator.c:176-194 | reports a collision iff the collider count is positive; with a collision the new state is Csma.ApplyCollisions of the old one, without one the state is unchanged |
| AppSimulator.Simulator.Transmit | app_simulator.c:196-210 | the new state is Csma.Commit of the old one at the selected node |
| AppSimulator.Simulator.ResolveContention | app_simulator.c:159-210 | the new state is Csma.Resolve of the old one |
| AppSimulator.Simulator.PersistentSensing | app_simulator.c:132-212 | one call leaves State() equal to Csma.Step of the old state, and the simulator stays valid |

## Left out

- `Queue_Delete`, `malloc` and `free`: memory management. The model never releases a queue.
- `app_simulator_deinit`, `app_simulator_run`, `app_simulator_outputResults` and main.c: the driver and the printed results. `app_simulator_deinit` deletes queues through fields the simulator state does not have (`arrivalEvents`, `observerEvents`, `departureEvents`). `app_simulator_run` calls functions and uses enum values that are not defined (`app_simulator_private_getNextQueue`, `APP_SIMULATOR_QUEUE_ARRIVAL` and the others). `app_simulator_outputResults` only prints metrics from fields the modelled functions never update.
- `exp_generate` and `timestamp_generate`: floating-point sampling with `rand()` and `logf`. They are replaced by the gap input `gap(j)`.
- `rand()` in `return_random`: replaced by the raw-draw input `raws[i]`. The reduction `% (upper + 1)` is modelled.
- IEEE double rounding: timestamps are `real`. The counters `transmitted_packets` and `successfully_transmitted_packets` are doubles in C, so their `++` stops being exact past 2^53; the model makes them `nat`.
- `DBL_MAX`: the minimum scan uses a "nothing seen yet" flag in its place. It selects the same node as the C scan whenever some head is below `DBL_MAX`. If every head is at least `DBL_MAX`, the C code leaves minTimeNode uninitialised, while the model selects node 0.
- The metric fields `departurePackets`, `droppedPackets`, `totalObservations`, `totalArrivals`, `idleTime` and `averagePacketsInBuffer`, and non-persistent sensing: no code in the modelled functions updates them.
- The stored configuration values `A`, `L`, `R`, `D`, `S` and `maxBufferSize`: the model keeps them as fields. Only `N`, `T_prop`, `T_trans` and the horizon are used.
- The body of `Queue_update_times`: it is not in queue.c. `Queues.Queue.UpdateTimes` is one plausible in-place walk over the occupied slots, proved against the assumed contract `RaiseBelow`.
- N as a double, and a zero N: N is a natural number of at least 1. With N = 0 the C code would read an uninitialised minTimeNode.
- Zero divisors in `D / S` and `L / R`: the constructor requires `R` and `S` to be non-zero.
- An empty node queue:
  - The step requires every node queue to be non-empty (`Csma.Ready`).
  - In C, `Queue_PeekHead` and `Queue_Dequeue` on an empty queue read the slot at `head`, which holds no entry. On a node queue (capacity 1000000000, never wrapped) that slot was never written: it is uninitialised memory from `malloc` (queue.c:43). `Queue_Dequeue` also drives `size` below zero.
  - The model therefore does not continue a run after a node has sent its last entry.
- AppSimulator.SendRun: the do-while condition also checks `size > 0` before peeking. The C loop peeks the head slot of an emptied queue, which holds no entry (uninitialised memory on a node queue), and would dequeue again if that value equalled the sent time.
- AppSimulator.Simulator.BackOffPeers: adds the number of colliders to `transmitted_packets` once, after the loop. The C loop increments it at each collision. The final value is the same, because nothing else reads the counter during the loop.
- Queues.Queue.PeekTail: states the full-queue case only. On a queue that is not full the tail slot is not an entry, and nothing more can be said.
