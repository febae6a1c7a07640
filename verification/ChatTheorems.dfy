// The guarantees of the chat service, over every run: one order for everybody, a commit only
// after every vote, and a shutdown that always ends.
module ChatTheorems {
  import opened ChatProtocol
  import opened ChatInvariants
  import opened ChatVotes

  // ---------- every reachable state ----------

  lemma InvInit(s: State)
    requires Init(s)
    ensures Inv(s)
  {
    forall c | 0 <= c < |s.clients| ensures ClientOk(s, c) {
      assert FreshClient(s.clients[c]);
    }
    NoVotesYet(s.clients);
    assert OrderInv(s) by {
      forall c | 0 <= c < |s.clients| ensures s.clients[c].written == [] {
        assert FreshClient(s.clients[c]);
      }
    }
  }

  lemma NoVotesYet(clients: seq<Client>)
    requires forall c | 0 <= c < |clients| :: !clients[c].counted
    ensures Votes(clients) == 0
  {
  }

  lemma InvStep(s: State, a: Action)
    requires Inv(s) && Enabled(s, a)
    ensures Inv(Apply(s, a))
  {
    LockStep(s, a);
    QueueStep(s, a);
    FallStep(s, a);
    OrderStep(s, a);
    JoinStep(s, a);
    VoteStep(s, a);
    hide LockInv, QueueInv, FallInv, OrderInv, JoinInv, VoteInv, Apply, Enabled;
  }

  lemma {:induction false} InvReachable(states: seq<State>, actions: seq<Action>, n: nat)
    requires IsRun(states, actions) && n < |states|
    ensures Inv(states[n])
  {
    if n == 0 {
      InvInit(states[0]);
    } else {
      InvReachable(states, actions, n - 1);
      InvStep(states[n - 1], actions[n - 1]);
    }
  }

  // ---------- total order ----------

  predicate Grows(s: State, t: State) {
    && s.log <= t.log
    && |s.clients| == |t.clients|
    && forall c | 0 <= c < |s.clients| :: s.clients[c].written <= t.clients[c].written
  }

  lemma StepGrows(s: State, a: Action)
    requires Enabled(s, a)
    ensures Grows(s, Apply(s, a))
  {
    match a
    case Io => IoGrows(s);
    case Work => WorkGrows(s);
    case _ =>
  }

  lemma IoGrows(s: State)
    requires IoEnabled(s)
    ensures Grows(s, IoStep(s))
  {
  }

  lemma WorkGrows(s: State)
    requires WorkEnabled(s)
    ensures Grows(s, WorkStep(s))
  {
  }

  // The log only grows, and so does what each client has been sent.
  lemma {:induction false} RunGrows(states: seq<State>, actions: seq<Action>, m: nat, n: nat)
    requires IsRun(states, actions) && m <= n < |states|
    ensures Grows(states[m], states[n])
    decreases n
  {
    hide Apply, Enabled, Init;
    if m < n {
      RunGrows(states, actions, m, n - 1);
      StepGrows(states[n - 1], actions[n - 1]);
    }
  }

  // Each client has been sent a stretch of the one log, from its join point on.
  lemma WrittenIsLogStretch(states: seq<State>, actions: seq<Action>, n: nat, c: nat)
    requires IsRun(states, actions) && n < |states| && c < |states[n].clients|
    ensures var x := states[n].clients[c];
            x.written == [] ||
            (x.joinPoint + |x.written| <= |states[n].log| &&
             x.written == states[n].log[x.joinPoint..x.joinPoint + |x.written|])
  {
    var s := states[n];
    InvReachable(states, actions, n);
    if s.clients[c].written != [] {
      assert c in s.slots;
      var i: nat :| i < |s.slots| && s.slots[i] == c;
      assert Delivered(s, i);
    }
  }

  // Total order: at any two moments of a run, any two clients agree on every log position that
  // both have been sent.
  lemma TotalOrder(states: seq<State>, actions: seq<Action>, m: nat, n: nat, c: nat, d: nat, p: nat)
    requires IsRun(states, actions) && m <= n < |states|
    requires c < |states[m].clients| && d < |states[n].clients|
    requires var x := states[m].clients[c]; x.joinPoint <= p < x.joinPoint + |x.written|
    requires var y := states[n].clients[d]; y.joinPoint <= p < y.joinPoint + |y.written|
    ensures var x := states[m].clients[c];
            var y := states[n].clients[d];
            x.written[p - x.joinPoint] == y.written[p - y.joinPoint]
  {
    WrittenIsLogStretch(states, actions, m, c);
    WrittenIsLogStretch(states, actions, n, d);
    RunGrows(states, actions, m, n);
    assert states[m].log[p] == states[n].log[p];
  }

  // ---------- vote, then commit ----------

  predicate AllVoted(s: State) {
    forall c | 0 <= c < |s.clients| :: s.clients[c].voted && s.clients[c].sent == |s.clients[c].script|
  }

  // The lines before the commit interleave the complete scripts of all the clients.
  predicate Interleaves(front: seq<Down>, clients: seq<Client>) {
    && (forall i | 0 <= i < |front| :: front[i].Chat? && front[i].sender < |clients|)
    && (forall c | 0 <= c < |clients| :: LinesOf(front, c) == clients[c].script)
  }

  // A commit is enqueued at most once, as the last message, after every client has sent its
  // lines and voted, and the log before it is an interleaving of all the scripts.
  lemma CommitTheorem(states: seq<State>, actions: seq<Action>, n: nat)
    requires IsRun(states, actions) && n < |states| && Commit in states[n].log
    ensures var s := states[n]; var k := |s.log| - 1;
            s.log[k] == Commit && Commit !in s.log[..k] && AllVoted(s) && Interleaves(s.log[..k], s.clients)
  {
    InvReachable(states, actions, n);
    CommitSealed(states[n]);
  }

  lemma CommitSealed(s: State)
    requires Inv(s) && Commit in s.log
    ensures var k := |s.log| - 1;
            s.log[k] == Commit && Commit !in s.log[..k] && AllVoted(s) && Interleaves(s.log[..k], s.clients)
  {
    var i: nat :| i < |s.log| && s.log[i] == Commit;
    assert Announced(s)[i] == Commit;
    assert Final(s.io);
    assert Announced(s) == s.log by {
      assert Announced(s)[..|s.log|] == s.log;
    }
    var k := |s.log| - 1;
    forall c | 0 <= c < |s.clients|
      ensures s.clients[c].voted && s.clients[c].sent == |s.clients[c].script|
      ensures LinesOf(s.log[..k], c) == s.clients[c].script
    {
      assert ClientOk(s, c);
      assert s.clients[c].counted;
      assert LinesOf(s.log, c) == LinesOf(s.log[..k], c) + [];
    }
    forall j | 0 <= j < k ensures s.log[..k][j].Chat? && s.log[..k][j].sender < |s.clients| {
      assert Announced(s)[j] == s.log[..k][j];
    }
  }

  // Until the commit the log holds, of each client, the lines handled so far, in script order.
  lemma LogFollowsScripts(states: seq<State>, actions: seq<Action>, n: nat, c: nat)
    requires IsRun(states, actions) && n < |states| && c < |states[n].clients|
    ensures LinesOf(states[n].log, c) <= states[n].clients[c].script
  {
    InvReachable(states, actions, n);
    var s := states[n];
    assert ClientOk(s, c);
    LoggedIsAnnounced(s, c);
    hide Inv, Announced, LinesOf, SenderOk, ReceiverOk;
  }

  lemma LoggedIsAnnounced(s: State, c: nat)
    ensures LinesOf(s.log, c) <= LinesOf(Announced(s), c)
  {
    if s.io.WantQueue? || s.io.HasQueue? {
      LinesOfAppend(s.log, s.io.m, c);
    } else {
      assert Announced(s) == s.log;
    }
  }

  // A client's keep_running falls only when every client has voted and the commit is out.
  lemma NoEarlyFall(states: seq<State>, actions: seq<Action>, n: nat, c: nat)
    requires IsRun(states, actions) && n < |states| && c < |states[n].clients|
    requires !states[n].clients[c].keepRunning
    ensures Commit in states[n].log && AllVoted(states[n])
  {
    var s := states[n];
    InvReachable(states, actions, n);
    StoppedHasVoted(s, c);
    WrittenIsLogStretch(states, actions, n, c);
    var x := s.clients[c];
    assert ClientOk(s, c);
    var j: nat :| j < x.received && x.written[j] == Commit;
    assert s.log[x.joinPoint + j] == Commit;
    CommitSealed(s);
  }

  // ---------- shutdown ----------

  // No lost wakeup: once server_running has fallen the worker neither sleeps on queue_cond nor is
  // about to after having seen the flag up, the queue never turns out empty, and at most one more
  // broadcast is completed.
  lemma NoLostWakeup(states: seq<State>, actions: seq<Action>, n: nat)
    requires IsRun(states, actions) && n < |states| && !states[n].running
    ensures !states[n].worker.WSleep? && !states[n].worker.WWait? && !states[n].worker.WNull?
    ensures states[n].castAtFall <= states[n].cast <= states[n].castAtFall + 1
  {
    InvReachable(states, actions, n);
  }

  predicate Ended(s: State) {
    s.io.Closed? && s.worker.WExit?
  }

  predicate ServerStep(a: Action) {
    a.Io? || a.Work?
  }

  function IoRank(io: IoPc): nat {
    match io
    case WantQueue(_) => 8
    case HasQueue(_) => 7
    case Appended(_) => 6
    case Signalled(_) => 5
    case Committed => 4
    case Fallen => 3
    case Leave => 2
    case Joining => 1
    case _ => 0
  }

  function WorkerRank(s: State): nat {
    match s.worker
    case WTop => if s.running then |s.slots| + 9 else 1
    case WWantLock => |s.slots| + 8
    case WWake => |s.slots| + 8
    case WCheck => |s.slots| + 7
    case WTake => |s.slots| + 6
    case WPopped(_) => |s.slots| + 5
    case WGot(_) => |s.slots| + 4
    case WCast(_, i) => if i <= |s.slots| then |s.slots| - i + 3 else 0
    case WFlag => 5
    case WSleep => 4
    case WNull => 3
    case WNullBack => 2
    case WUnlock => 2
    case WWait => 0
    case WExit => 0
  }

  function RoundCost(s: State): nat {
    |s.slots| + 10
  }

  // A bound on the server steps still to come, once the last vote has been handled.
  function Rank(s: State): nat {
    IoRank(s.io) * RoundCost(s) + WorkerRank(s)
  }

  lemma ShutdownIo(s: State)
    requires Final(s.io) && IoEnabled(s)
    ensures Final(IoStep(s).io) && IoStep(s).slots == s.slots && Rank(IoStep(s)) < Rank(s)
  {
    var t := IoStep(s);
    assert IoRank(t.io) + 1 == IoRank(s.io);
    assert WorkerRank(t) <= WorkerRank(s) + RoundCost(s) - 1;
    OneRound(IoRank(t.io), RoundCost(s));
  }

  lemma OneRound(r: nat, k: nat)
    ensures (r + 1) * k == r * k + k
  {
  }

  lemma ShutdownWork(s: State)
    requires LockInv(s) && QueueInv(s) && FallInv(s) && Final(s.io) && WorkEnabled(s)
    requires CastIndex(s.worker) <= |s.slots|
    ensures Final(WorkStep(s).io) && WorkStep(s).slots == s.slots && Rank(WorkStep(s)) < Rank(s)
  {
    var t := WorkStep(s);
    assert WorkerRank(t) < WorkerRank(s);
  }

  // The server is never stuck on the way out.
  lemma ShutdownProgress(s: State)
    requires LockInv(s) && QueueInv(s) && Final(s.io)
    ensures Ended(s) <==> !IoEnabled(s) && !WorkEnabled(s)
  {
  }

  // Kinds of steps that are counted.
  datatype Kind = OfServer | OfWorker | Wakeup

  predicate Is(a: Action, kind: Kind) {
    match kind
    case OfServer => ServerStep(a)
    case OfWorker => a.Work?
    case Wakeup => a.Spurious?
  }

  function Tally(a: Action, kind: Kind): nat {
    if Is(a, kind) then 1 else 0
  }

  // How many steps of a kind there are among the actions.
  function Count(actions: seq<Action>, kind: Kind): nat {
    if actions == [] then 0
    else Count(actions[..|actions| - 1], kind) + Tally(actions[|actions| - 1], kind)
  }

  lemma CountLast(actions: seq<Action>, m: nat, n: nat, kind: Kind)
    requires m < n <= |actions|
    ensures Count(actions[m..n], kind) == Count(actions[m..n - 1], kind) + Tally(actions[n - 1], kind)
  {
    assert actions[m..n][..n - 1 - m] == actions[m..n - 1];
    assert actions[m..n][n - 1 - m] == actions[n - 1];
  }

  lemma ShutdownElsewhere(s: State, a: Action)
    requires LockInv(s) && Final(s.io) && Enabled(s, a) && !ServerStep(a)
    ensures var t := Apply(s, a);
      && Final(t.io) && t.slots == s.slots
      && Rank(t) <= Rank(s) + Tally(a, Wakeup) * RoundCost(s)
  {
    if a.Spurious? {
      assert IoRank(Apply(s, a).io) == IoRank(s.io);
    }
  }

  // Every server step uses up some of the rank, and only a spurious wakeup adds to it.
  lemma ShutdownStep(s: State, a: Action)
    requires Inv(s) && Final(s.io) && Enabled(s, a)
    ensures var t := Apply(s, a);
      && Final(t.io) && t.slots == s.slots
      && Rank(t) + Tally(a, OfServer) <= Rank(s) + Tally(a, Wakeup) * RoundCost(s)
  {
    hide LogInv, SleepInv, FallInv, VoteInv, JoinInv, Delivered, WorkStep, IoStep, Final, Rank;
    match a
    case Io => ShutdownIo(s);
    case Work => ShutdownWork(s);
    case _ => ShutdownElsewhere(s, a);
  }

  // From the last vote on, the two server threads take a bounded number of steps, so they come
  // to an end, and the end they come to is the exit of both: the join returns.
  lemma {:induction false} ShutdownBound(states: seq<State>, actions: seq<Action>, m: nat, n: nat)
    requires IsRun(states, actions) && m <= n < |states| && Final(states[m].io)
    ensures Final(states[n].io) && states[n].slots == states[m].slots
    ensures Count(actions[m..n], OfServer) + Rank(states[n])
         <= Rank(states[m]) + Count(actions[m..n], Wakeup) * RoundCost(states[m])
    decreases n
  {
    hide Final, Rank, Count, Tally, Apply, Enabled, Inv;
    if m < n {
      ShutdownBound(states, actions, m, n - 1);
      InvReachable(states, actions, n - 1);
      var s, a := states[n - 1], actions[n - 1];
      assert Enabled(s, a) && states[n] == Apply(s, a);
      ShutdownStep(s, a);
      CountLast(actions, m, n, OfServer);
      CountLast(actions, m, n, Wakeup);
      Accrue(Count(actions[m..n - 1], OfServer), Tally(a, OfServer), Rank(states[m]), Rank(s), Rank(states[n]),
             Count(actions[m..n - 1], Wakeup), Tally(a, Wakeup), RoundCost(s));
    } else {
      CountNone(actions, m, OfServer);
      CountNone(actions, m, Wakeup);
    }
  }

  lemma CountNone(actions: seq<Action>, m: nat, kind: Kind)
    requires m <= |actions|
    ensures Count(actions[m..m], kind) == 0
  {
  }

  lemma Accrue(count: nat, tally: nat, rank0: nat, rank1: nat, rank2: nat, wakes: nat, wake: nat, cost: nat)
    requires count + rank1 <= rank0 + wakes * cost
    requires rank2 + tally <= rank1 + wake * cost
    ensures count + tally + rank2 <= rank0 + (wakes + wake) * cost
  {
    assert (wakes + wake) * cost == wakes * cost + wake * cost;
  }

  // A run that can go no further after the last vote has ended with both threads gone.
  lemma ShutdownEnds(states: seq<State>, actions: seq<Action>, m: nat, n: nat)
    requires IsRun(states, actions) && m <= n < |states| && Final(states[m].io)
    ensures Ended(states[n]) <==> !Enabled(states[n], Io) && !Enabled(states[n], Work)
    ensures Ended(states[n]) ==> !states[n].running && Commit in states[n].log
  {
    ShutdownBound(states, actions, m, n);
    InvReachable(states, actions, n);
    ShutdownProgress(states[n]);
    if Ended(states[n]) {
      assert Announced(states[n]) == states[n].log;
    }
  }

  // ---------- what becomes of the commit ----------

  lemma {:induction false} SettledAtFall(states: seq<State>, actions: seq<Action>, m: nat, n: nat)
    requires IsRun(states, actions) && m <= n < |states| && !states[m].running
    ensures !states[n].running && states[n].log == states[m].log
    ensures states[n].cast + StillToCome(states[n].worker) == states[m].cast + StillToCome(states[m].worker)
    decreases n
  {
    hide Apply, Enabled, Init, LogInv, SleepInv, OrderInv, VoteInv, JoinInv, StillToCome;
    if m < n {
      SettledAtFall(states, actions, m, n - 1);
      InvReachable(states, actions, n - 1);
      FallStep(states[n - 1], actions[n - 1]);
    }
  }

  // Delivery of the commit is not guaranteed. It is broadcast in the end exactly when, at the
  // fall of the flag, it was the only message outstanding and the worker had passed its loop
  // test; all or none of the connected clients get it.
  lemma CommitDelivered(states: seq<State>, actions: seq<Action>, m: nat, n: nat, i: nat)
    requires IsRun(states, actions) && m <= n < |states|
    requires !states[m].running && Ended(states[n]) && i < |states[n].slots|
    ensures states[n].slots[i] < |states[n].clients|
    ensures Commit in states[n].clients[states[n].slots[i]].written
       <==> states[m].cast + StillToCome(states[m].worker) == |states[m].log|
  {
    var s := states[n];
    SettledAtFall(states, actions, m, n);
    InvReachable(states, actions, n);
    assert Announced(s) == s.log;
    assert Delivered(s, i);
    var x := s.clients[s.slots[i]];
    var k := |s.log| - 1;
    assert s.log[..k] <= s.log;
    if s.cast == |s.log| {
      assert x.written[k - x.joinPoint] == Commit;
    } else {
      forall j | 0 <= j < |x.written| ensures x.written[j] != Commit {
        assert x.written[j] == s.log[..k][x.joinPoint + j];
      }
    }
  }

  // A run that has reached state s.
  ghost predicate Reached(states: seq<State>, actions: seq<Action>, s: State) {
    IsRun(states, actions) && states[|actions|] == s
  }

  lemma Extend(states: seq<State>, actions: seq<Action>, s: State, a: Action)
    returns (more: seq<State>, done: seq<Action>, t: State)
    requires Reached(states, actions, s) && Enabled(s, a)
    ensures Reached(more, done, t) && t == Apply(s, a)
  {
    t := Apply(s, a);
    more, done := states + [t], actions + [a];
    forall i | 0 <= i < |done|
      ensures Enabled(more[i], done[i]) && more[i + 1] == Apply(more[i], done[i])
    {
      if i < |actions| {
        assert Enabled(states[i], actions[i]);
      }
    }
  }

  lemma Start(s: State)
    requires Init(s)
    ensures Reached([s], [], s)
  {
  }

  function Quiet(sender: SenderPc, up: seq<Up>): Client {
    Client([], 0, sender, true, up, [], 0, 0, sender.SendDone?, false)
  }

  function Lone(c: Client, slots: seq<nat>, io: IoPc): State {
    State([c], slots, [], 0, true, Nobody, Nobody, io, WTop, [], 0, 0)
  }

  lemma LoneSends(c: Client, slots: seq<nat>)
    requires c.sender != SendDone
    ensures Enabled(Lone(c, slots, Top), Sender(0))
    ensures Apply(Lone(c, slots, Top), Sender(0)) == Lone(SenderStep(c), slots, Top)
  {
    assert [c][0 := SenderStep(c)] == [SenderStep(c)];
  }

  lemma LoneServerPolls() returns (states: seq<State>, actions: seq<Action>)
    ensures Reached(states, actions, Lone(Quiet(SendTest, []), [], Polling))
  {
    var s := Lone(Quiet(SendTest, []), [], Top);
    Start(s);
    hide Reached;
    states, actions := [s], [];
    states, actions, s := Extend(states, actions, s, Io);
    states, actions, s := Extend(states, actions, s, Io);
    states, actions, s := Extend(states, actions, s, Io);
  }

  // One client, with nothing to say, joins.
  lemma LoneClientJoins() returns (states: seq<State>, actions: seq<Action>)
    ensures Reached(states, actions, Lone(Quiet(SendTest, []), [0], Top))
  {
    states, actions := LoneServerPolls();
    hide Reached;
    var s := Lone(Quiet(SendTest, []), [], Polling);
    states, actions, s := Extend(states, actions, s, Accept(0));
    states, actions, s := Extend(states, actions, s, Io);
    states, actions, s := Extend(states, actions, s, Io);
    assert s.slots == [0];
    assert s.clients == [Quiet(SendTest, [])];
  }

  // It sends its vote.
  lemma LoneClientVotes() returns (states: seq<State>, actions: seq<Action>)
    ensures Reached(states, actions, Lone(Quiet(SendDone, [Vote]), [0], Top))
  {
    states, actions := LoneClientJoins();
    hide Reached;
    LoneSends(Quiet(SendTest, []), [0]);
    LoneSends(Quiet(VoteTest, []), [0]);
    LoneSends(Quiet(VoteWrite, []), [0]);
    assert SenderStep(Quiet(VoteWrite, [])) == Quiet(SendDone, [Vote]) by {
      var none: seq<Up> := [];
      assert none + [Vote] == [Vote];
    }
    hide Apply, Enabled;
    var s := Lone(Quiet(SendTest, []), [0], Top);
    states, actions, s := Extend(states, actions, s, Sender(0));
    states, actions, s := Extend(states, actions, s, Sender(0));
    states, actions, s := Extend(states, actions, s, Sender(0));
  }

  function LastVoteHandled(): State {
    Lone(Quiet(SendDone, []).(counted := true), [0], WantQueue(Commit)).(finished := 1, listLock := IoThread)
  }

  // The vote is handled while the worker is held up before its first loop test.
  lemma LoneVoteHandled() returns (states: seq<State>, actions: seq<Action>)
    ensures Reached(states, actions, LastVoteHandled())
  {
    states, actions := LoneClientVotes();
    hide Reached;
    var s := Lone(Quiet(SendDone, [Vote]), [0], Top);
    states, actions, s := Extend(states, actions, s, Io);
    states, actions, s := Extend(states, actions, s, Io);
    states, actions, s := Extend(states, actions, s, Io);
    states, actions, s := Extend(states, actions, s, Data);
    states, actions, s := Extend(states, actions, s, Io);
    states, actions, s := Extend(states, actions, s, Take(0));
    var one: seq<Up> := [Vote];
    assert one[1..] == [];
    assert s.clients == [Quiet(SendDone, []).(counted := true)];
  }

  // The I/O thread enqueues the commit and is about to clear the flag.
  lemma LoneCommitQueued() returns (states: seq<State>, actions: seq<Action>, s: State)
    ensures Reached(states, actions, s) && s.io == Committed && s.worker == WTop
    ensures s.queue == s.log == [Commit] && s.clients == [Quiet(SendDone, []).(counted := true)]
    ensures s.slots == [0] && s.listLock == IoThread && s.queueLock == Nobody
  {
    states, actions := LoneVoteHandled();
    hide Reached;
    s := LastVoteHandled();
    states, actions, s := Extend(states, actions, s, Io);
    states, actions, s := Extend(states, actions, s, Io);
    states, actions, s := Extend(states, actions, s, Io);
    states, actions, s := Extend(states, actions, s, Io);
  }

  // Its commit never reaches it: the worker leaves at its loop test, with the commit queued.
  lemma CommitCanBeLost() returns (states: seq<State>, actions: seq<Action>, s: State)
    ensures Reached(states, actions, s) && Ended(s)
    ensures s.slots == [0] && |s.clients| == 1 && s.clients[0].voted && s.clients[0].written == []
    ensures s.queue == [Commit]
  {
    states, actions, s := LoneCommitQueued();
    hide Reached;
    states, actions, s := Extend(states, actions, s, Io);
    states, actions, s := Extend(states, actions, s, Io);
    states, actions, s := Extend(states, actions, s, Io);
    states, actions, s := Extend(states, actions, s, Work);
    states, actions, s := Extend(states, actions, s, Io);
  }
}
