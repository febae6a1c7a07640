// What the chat service is sure to do while it runs: every message that has been enqueued is
// broadcast after a bounded number of worker steps, and nobody gets stuck on the way.
module ChatProgress {
  import opened ChatProtocol
  import opened ChatInvariants
  import opened ChatVotes
  import opened ChatTheorems

  // ---------- the worker ----------

  // The worker does not leave its loop while the server runs.
  lemma WorkerStays(states: seq<State>, actions: seq<Action>, n: nat)
    requires IsRun(states, actions) && n < |states| && states[n].running
    ensures !states[n].worker.WExit?
  {
    InvReachable(states, actions, n);
  }

  // A broadcast takes no more worker steps than this.
  const ROUND: nat := MAX_CLIENTS + 9

  // Worker steps until the broadcast under way, or else the next one, is complete.
  function ToBroadcast(w: WorkerPc): nat {
    match w
    case WUnlock => MAX_CLIENTS + 8
    case WTop => MAX_CLIENTS + 7
    case WWait => MAX_CLIENTS + 7
    case WWantLock => MAX_CLIENTS + 6
    case WWake => MAX_CLIENTS + 6
    case WCheck => MAX_CLIENTS + 5
    case WTake => MAX_CLIENTS + 4
    case WPopped(_) => MAX_CLIENTS + 3
    case WGot(_) => MAX_CLIENTS + 2
    case WCast(_, i) => if i <= MAX_CLIENTS then MAX_CLIENTS - i + 1 else 0
    case _ => 0
  }

  // Worker steps until the message at log position p has been broadcast.
  function WorkLeft(s: State, p: nat): nat {
    if s.cast <= p then (p - s.cast) * ROUND + ToBroadcast(s.worker) else 0
  }

  lemma OneRoundLess(p: nat, cast: nat)
    requires cast < p
    ensures (p - cast) * ROUND == (p - (cast + 1)) * ROUND + ROUND
  {
  }

  // Every step of the worker brings the broadcast of message p closer.
  lemma WorkDown(s: State, p: nat)
    requires Inv(s) && s.running && s.cast <= p < |s.log| && WorkEnabled(s)
    ensures WorkLeft(WorkStep(s), p) < WorkLeft(s, p)
  {
    hide FallInv, VoteInv, JoinInv, Delivered;
    var t := WorkStep(s);
    assert s.log[s.cast..] != [];
    if t.cast > s.cast && s.cast < p {
      OneRoundLess(p, s.cast);
    }
  }

  lemma NoWorkUp(s: State, a: Action, p: nat)
    requires Enabled(s, a) && !a.Work?
    ensures WorkLeft(Apply(s, a), p) <= WorkLeft(s, p)
  {
    match a
    case Io =>
      assert IoStep(s).cast == s.cast;
    case _ =>
  }

  lemma RunningBefore(s: State, a: Action)
    requires Enabled(s, a) && Apply(s, a).running
    ensures s.running
  {
  }

  // The broadcast of a message in the log is a bounded number of worker steps away, whatever the
  // other threads do.
  lemma {:induction false} BroadcastBound(states: seq<State>, actions: seq<Action>, m: nat, n: nat, p: nat)
    requires IsRun(states, actions) && m <= n < |states|
    requires p < |states[m].log| && states[n].running && states[n].cast <= p
    ensures Count(actions[m..n], OfWorker) + WorkLeft(states[n], p) <= WorkLeft(states[m], p)
    decreases n
  {
    hide WorkLeft, Count, Apply, Enabled, Inv;
    if m < n {
      var s, a := states[n - 1], actions[n - 1];
      assert Enabled(s, a) && states[n] == Apply(s, a);
      RunningBefore(s, a);
      CastGrows(s, a);
      BroadcastBound(states, actions, m, n - 1, p);
      CountLast(actions, m, n, OfWorker);
      InvReachable(states, actions, n - 1);
      RunGrows(states, actions, m, n - 1);
      BroadcastStep(s, a, p);
    } else {
      CountNone(actions, m, OfWorker);
    }
  }

  lemma CastGrows(s: State, a: Action)
    requires Enabled(s, a)
    ensures s.cast <= Apply(s, a).cast
  {
  }

  lemma BroadcastStep(s: State, a: Action, p: nat)
    requires Inv(s) && s.running && s.cast <= p < |s.log| && Enabled(s, a)
    ensures WorkLeft(Apply(s, a), p) + Tally(a, OfWorker) <= WorkLeft(s, p)
  {
    hide WorkLeft, Inv, WorkStep, WorkEnabled;
    if a.Work? {
      WorkDown(s, p);
    } else {
      NoWorkUp(s, a, p);
    }
  }

  // So it reaches everybody: once the worker has taken that many steps, each client that joined
  // in time has been sent the message.
  lemma BroadcastReaches(states: seq<State>, actions: seq<Action>, m: nat, n: nat, p: nat, i: nat)
    requires IsRun(states, actions) && m <= n < |states| && p < |states[m].log| && states[n].running
    requires Count(actions[m..n], OfWorker) > WorkLeft(states[m], p)
    requires i < |states[n].slots| && states[n].slots[i] < |states[n].clients|
    requires states[n].clients[states[n].slots[i]].joinPoint <= p
    ensures var x := states[n].clients[states[n].slots[i]];
      p - x.joinPoint < |x.written| && x.written[p - x.joinPoint] == states[m].log[p]
  {
    hide WorkLeft, Count;
    if states[n].cast <= p {
      BroadcastBound(states, actions, m, n, p);
    }
    InvReachable(states, actions, n);
    RunGrows(states, actions, m, n);
    assert Delivered(states[n], i);
  }

  // With a message to broadcast, the worker is held up only by a lock of the I/O thread, or
  // asleep with the signal that wakes it the I/O thread's next step.
  lemma WorkerWaitsForIo(states: seq<State>, actions: seq<Action>, n: nat)
    requires IsRun(states, actions) && n < |states|
    requires states[n].running && states[n].cast < |states[n].log| && !Enabled(states[n], Work)
    ensures var s := states[n];
      || (s.worker.WWait? && s.io.Appended? && !Apply(s, Io).worker.WWait?)
      || (s.queueLock == IoThread && (s.worker.WWantLock? || s.worker.WWake?))
      || (s.listLock == IoThread && s.worker.WGot?)
  {
    InvReachable(states, actions, n);
    var s := states[n];
    assert s.log[s.cast..] != [];
    hide FallInv, VoteInv, JoinInv, OrderInv;
  }

  // While the worker sleeps and no signal is pending, every connected client has been sent all
  // that has been enqueued since it joined.
  lemma AsleepIsCaughtUp(states: seq<State>, actions: seq<Action>, n: nat, i: nat)
    requires IsRun(states, actions) && n < |states| && i < |states[n].slots|
    requires states[n].worker.WWait? && !states[n].io.Appended?
    ensures var s := states[n];
      s.slots[i] < |s.clients| && s.clients[s.slots[i]].joinPoint <= |s.log|
      && s.clients[s.slots[i]].written == s.log[s.clients[s.slots[i]].joinPoint..]
  {
    InvReachable(states, actions, n);
    var s := states[n];
    assert s.log[s.cast..] == [];
    assert Delivered(s, i);
  }

  // ---------- the I/O thread ----------

  // Steps of the I/O thread until it next waits for input, or is gone.
  function IoLeft(io: IoPc): nat {
    match io
    case WantQueue(_) => 8
    case HasQueue(_) => 7
    case Appended(_) => 6
    case Signalled(_) => 5
    case Committed => 4
    case Fallen => 3
    case Leave => 2
    case Joining => 1
    case WantJoin(_) => 5
    case InJoin(_) => 4
    case Top => 3
    case WantFd => 2
    case InFd => 1
    case WantScan => 1
    case Polling => 0
    case Scan => 0
    case Closed => 0
  }

  lemma IoDown(s: State)
    requires IoEnabled(s)
    ensures IoLeft(IoStep(s).io) < IoLeft(s.io)
  {
  }

  // The two threads never block each other: until both are gone, one of them can take a step or
  // the I/O thread is waiting for input.
  lemma NeverStuck(states: seq<State>, actions: seq<Action>, n: nat)
    requires IsRun(states, actions) && n < |states|
    ensures var s := states[n];
      Ended(s) || Enabled(s, Io) || Enabled(s, Work) || s.io == Polling || s.io == Scan
  {
    InvReachable(states, actions, n);
    hide LogInv, VoteInv, JoinInv, OrderInv;
  }

  // ---------- joining ----------

  // The client about to join has not joined before.
  predicate NewToJoin(s: State) {
    match s.io
    case WantJoin(c) => c < |s.clients| && c !in s.slots
    case InJoin(c) => c < |s.clients| && c !in s.slots
    case _ => true
  }

  lemma NewToJoinStep(s: State, a: Action)
    requires NewToJoin(s) && Enabled(s, a)
    ensures NewToJoin(Apply(s, a))
  {
  }

  lemma {:induction false} NewToJoinReachable(states: seq<State>, actions: seq<Action>, n: nat)
    requires IsRun(states, actions) && n < |states|
    ensures NewToJoin(states[n])
  {
    hide NewToJoin, Apply, Enabled;
    if n > 0 {
      NewToJoinReachable(states, actions, n - 1);
      NewToJoinStep(states[n - 1], actions[n - 1]);
    } else {
      NobodyJoins(states[0]);
    }
  }

  lemma NobodyJoins(s: State)
    requires Init(s)
    ensures NewToJoin(s)
  {
  }

  // A client that connects is taken in exactly if there is room for it, and it is then due
  // everything from the broadcasts so far on.
  lemma JoinsIfRoom(states: seq<State>, actions: seq<Action>, n: nat, c: nat)
    requires IsRun(states, actions) && n < |actions| && states[n].io == InJoin(c) && actions[n] == Io
    ensures c < |states[n + 1].clients| && (c in states[n + 1].slots <==> |states[n].slots| < MAX_CLIENTS)
    ensures c in states[n + 1].slots ==> states[n + 1].clients[c].joinPoint == states[n].cast
  {
    NewToJoinReachable(states, actions, n);
    assert states[n + 1] == Apply(states[n], Io);
    var slots := states[n].slots;
    assert (slots + [c])[|slots|] == c;
  }

  // s's connected clients are still connected in t, where they were, with the join point they had.
  predicate StayConnected(s: State, t: State) {
    && s.slots <= t.slots && |s.clients| == |t.clients|
    && forall c | c in s.slots && c < |s.clients| :: t.clients[c].joinPoint == s.clients[c].joinPoint
  }

  lemma StepStays(s: State, a: Action)
    requires Enabled(s, a)
    ensures StayConnected(s, Apply(s, a))
  {
    match a
    case Io => IoStays(s);
    case Work => WorkStays(s);
    case _ =>
  }

  lemma IoStays(s: State)
    requires IoEnabled(s)
    ensures StayConnected(s, IoStep(s))
  {
  }

  lemma WorkStays(s: State)
    requires WorkEnabled(s)
    ensures StayConnected(s, WorkStep(s))
  {
  }

  // Whoever has joined stays.
  lemma {:induction false} ConnectedStay(states: seq<State>, actions: seq<Action>, m: nat, n: nat)
    requires IsRun(states, actions) && m <= n < |states|
    ensures StayConnected(states[m], states[n])
    decreases n
  {
    hide Apply, Enabled, Init;
    if m < n {
      ConnectedStay(states, actions, m, n - 1);
      StepStays(states[n - 1], actions[n - 1]);
    }
  }

  // ---------- the clients ----------

  // Steps of the sender thread until it is done.
  function SenderLeft(c: Client): int {
    match c.sender
    case SendTest => 2 * (|c.script| - c.sent) + 3
    case SendWrite => 2 * (|c.script| - c.sent) + 2
    case VoteTest => 2
    case VoteWrite => 1
    case SendDone => 0
  }

  // Nothing holds up a sender thread, and each of its steps brings its end closer.
  lemma SenderDown(states: seq<State>, actions: seq<Action>, n: nat, c: nat)
    requires IsRun(states, actions) && n < |states| && c < |states[n].clients|
    ensures var x := states[n].clients[c];
      && (x.sender != SendDone <==> Enabled(states[n], Sender(c)))
      && (x.sender != SendDone ==> 0 <= SenderLeft(SenderStep(x)) < SenderLeft(x))
  {
    InvReachable(states, actions, n);
    assert ClientOk(states[n], c);
  }

  // ---------- the vote ----------

  // The last vote is not missed.
  predicate FullIsFinal(s: State) {
    0 < |s.clients| == s.finished ==> Final(s.io)
  }

  lemma FullIsFinalStep(s: State, a: Action)
    requires LockInv(s) && FullIsFinal(s) && Enabled(s, a)
    ensures FullIsFinal(Apply(s, a))
  {
    match a
    case Io => AnnouncedIo(s);
    case _ =>
  }

  lemma {:induction false} FullIsFinalReachable(states: seq<State>, actions: seq<Action>, n: nat)
    requires IsRun(states, actions) && n < |states|
    ensures FullIsFinal(states[n])
  {
    if n > 0 {
      FullIsFinalReachable(states, actions, n - 1);
      InvReachable(states, actions, n - 1);
      FullIsFinalStep(states[n - 1], actions[n - 1]);
    }
  }

  // When every sender thread is done and everything sent has been handled, the commit has been
  // announced: the service does not sit there waiting for a vote that will not come.
  lemma AllHeardIsFinal(states: seq<State>, actions: seq<Action>, n: nat)
    requires IsRun(states, actions) && n < |states| && states[n].clients != []
    requires forall c | 0 <= c < |states[n].clients| ::
      states[n].clients[c].sender == SendDone && states[n].clients[c].up == []
    ensures Final(states[n].io)
  {
    var s := states[n];
    InvReachable(states, actions, n);
    FullIsFinalReachable(states, actions, n);
    forall c | 0 <= c < |s.clients| ensures s.clients[c].counted {
      assert ClientOk(s, c);
    }
    AllVotesIn(s.clients);
  }
}
