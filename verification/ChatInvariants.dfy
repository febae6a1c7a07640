// What every step of the chat service keeps, in every interleaving.
module ChatInvariants {
  import opened ChatProtocol

  // ---------- locks and the flag ----------

  predicate IoHoldsList(io: IoPc) {
    io.InFd? || io.InJoin? || io.Scan? || io.WantQueue? || io.HasQueue? || io.Appended? || io.Signalled?
    || io.Committed? || io.Fallen? || io.Leave?
  }

  predicate IoHoldsQueue(io: IoPc) {
    io.HasQueue? || io.Appended? || io.Signalled?
  }

  predicate WorkerHoldsList(w: WorkerPc) {
    w.WCast? || w.WUnlock?
  }

  predicate WorkerHoldsQueue(w: WorkerPc) {
    w.WCheck? || w.WFlag? || w.WSleep? || w.WTake? || w.WPopped? || w.WNull?
  }

  // The flag has fallen.
  predicate AfterFall(io: IoPc) {
    io.Fallen? || io.Leave? || io.Joining? || io.Closed?
  }

  predicate LockInv(s: State) {
    && (s.listLock == IoThread <==> IoHoldsList(s.io))
    && (s.listLock == WorkerThread <==> WorkerHoldsList(s.worker))
    && (s.queueLock == IoThread <==> IoHoldsQueue(s.io))
    && (s.queueLock == WorkerThread <==> WorkerHoldsQueue(s.worker))
    && (s.running <==> !AfterFall(s.io))
  }

  lemma LockStep(s: State, a: Action)
    requires LockInv(s) && Enabled(s, a)
    ensures LockInv(Apply(s, a))
  {
    match a
    case Io => LockIo(s);
    case Work => LockWork(s);
    case _ =>
  }

  lemma LockIo(s: State)
    requires LockInv(s) && IoEnabled(s)
    ensures LockInv(IoStep(s))
  {
  }

  lemma LockWork(s: State)
    requires LockInv(s) && WorkEnabled(s)
    ensures LockInv(WorkStep(s))
  {
  }

  // ---------- the queue, the log and the wait set ----------

  // The message the worker has dequeued but not broadcast in full.
  function InHand(w: WorkerPc): seq<Down> {
    match w
    case WPopped(m) => [m]
    case WGot(m) => [m]
    case WCast(m, _) => [m]
    case _ => []
  }

  // The commit is in the log and the I/O thread has held client_list_lock ever since.
  predicate HoldingCommit(io: IoPc) {
    io == Appended(Commit) || io == Signalled(Commit) || io.Committed? || io.Fallen? || io.Leave?
  }

  // The log is what has been broadcast, what is in the worker's hand, and the queue.
  predicate LogInv(s: State) {
    s.cast <= |s.log| && s.log[s.cast..] == InHand(s.worker) + s.queue
  }

  predicate QueueInv(s: State) {
    LogInv(s) && SleepInv(s)
  }

  // Where the threads stand against the queue and the flag.
  predicate SleepInv(s: State) {
    && (s.worker.WTake? ==> s.queue != [])
    && (s.worker.WFlag? || s.worker.WSleep? || s.worker.WNull? ==> s.queue == [])
    && (s.worker.WNull? || s.worker.WNullBack? || s.worker.WExit? ==> !s.running)
    && (s.io.Appended? || s.io.Signalled? ==> s.log != [] && s.log[|s.log| - 1] == s.io.m)
    && (HoldingCommit(s.io) ==> s.cast < |s.log|)
    && (s.worker.WWait? && s.queue != [] ==> s.io.Appended?)
    && (!s.running ==> !s.worker.WSleep? && !s.worker.WWait?)
  }

  lemma QueueStep(s: State, a: Action)
    requires LockInv(s) && QueueInv(s) && Enabled(s, a)
    ensures QueueInv(Apply(s, a))
  {
    match a
    case Io => QueueIo(s);
    case Work => QueueWork(s);
    case _ => QueueElsewhere(s, a);
  }

  lemma QueueElsewhere(s: State, a: Action)
    requires LockInv(s) && QueueInv(s) && Enabled(s, a) && !a.Io? && !a.Work?
    ensures QueueInv(Apply(s, a))
  {
    LogElsewhere(s, a);
    hide LogInv;
    match a
    case Take(c) => SleepTake(s, c);
    case _ =>
  }

  lemma LogElsewhere(s: State, a: Action)
    requires LogInv(s) && Enabled(s, a) && !a.Io? && !a.Work?
    ensures LogInv(Apply(s, a))
  {
  }

  lemma SleepTake(s: State, c: nat)
    requires LockInv(s) && SleepInv(s) && Enabled(s, Take(c))
    ensures SleepInv(TakeStep(s, c))
  {
  }

  lemma LogIo(s: State)
    requires LogInv(s) && IoEnabled(s)
    ensures LogInv(IoStep(s)) && s.cast <= |s.log|
  {
    match s.io
    case HasQueue(m) => Enqueue(s.log, s.cast, InHand(s.worker), s.queue, m);
    case Appended(_) => SignalKeepsHand(s.worker);
    case Fallen => SignalKeepsHand(s.worker);
    case _ =>
  }

  lemma QueueIo(s: State)
    requires LockInv(s) && QueueInv(s) && IoEnabled(s)
    ensures QueueInv(IoStep(s))
  {
    hide LockInv, SleepInv, LogInv, IoStep, IoEnabled;
    LogIo(s);
    if s.io.Committed? {
      AwakeAtFall(s);
    }
    if s.io.HasQueue? {
      SleepEnqueue(s);
    } else if s.io.Appended? || s.io.Fallen? {
      SleepSignal(s);
    } else {
      SleepIo(s);
    }
  }

  lemma SleepEnqueue(s: State)
    requires LockInv(s) && SleepInv(s) && s.io.HasQueue? && s.cast <= |s.log|
    ensures SleepInv(IoStep(s))
  {
  }

  lemma SleepSignal(s: State)
    requires LockInv(s) && SleepInv(s) && (s.io.Appended? || s.io.Fallen?)
    ensures SleepInv(IoStep(s))
  {
  }

  lemma SleepIo(s: State)
    requires LockInv(s) && SleepInv(s) && IoEnabled(s) && !s.io.HasQueue? && !s.io.Appended? && !s.io.Fallen?
    requires s.io.Committed? ==> !s.worker.WWait? && !s.worker.WFlag? && !s.worker.WSleep?
    ensures SleepInv(IoStep(s))
  {
  }

  lemma Enqueue(log: seq<Down>, cast: nat, hand: seq<Down>, queue: seq<Down>, m: Down)
    requires cast <= |log| && log[cast..] == hand + queue
    ensures (log + [m])[cast..] == hand + (queue + [m])
  {
    assert (log + [m])[cast..] == log[cast..] + [m];
  }

  lemma SignalKeepsHand(w: WorkerPc)
    ensures InHand(Signal(w)) == InHand(w) && !Signal(w).WWait?
  {
  }

  // When the flag falls the commit is still ahead of the worker, so it is not asleep.
  lemma AwakeAtFall(s: State)
    requires LockInv(s) && QueueInv(s) && s.io.Committed?
    ensures !s.worker.WWait? && !s.worker.WFlag? && !s.worker.WSleep?
  {
    assert s.log[s.cast..] != [];
  }

  lemma LogWork(s: State)
    requires LogInv(s) && WorkEnabled(s)
    ensures LogInv(WorkStep(s))
  {
    match s.worker
    case WTake =>
      if s.queue != [] {
        Pop(s.log[s.cast..], s.queue);
      }
    case WCast(m, i) =>
      if i >= |s.slots| {
        Advance(s.log, s.cast, m, s.queue);
      }
    case _ =>
  }

  lemma Pop(rest: seq<Down>, queue: seq<Down>)
    requires rest == [] + queue && queue != []
    ensures rest == [queue[0]] + queue[1..]
  {
  }

  lemma Advance(log: seq<Down>, cast: nat, m: Down, queue: seq<Down>)
    requires cast <= |log| && log[cast..] == [m] + queue
    ensures cast + 1 <= |log| && log[cast + 1..] == [] + queue && log[cast] == m
  {
    assert log[cast..][0] == m;
    assert log[cast..][1..] == log[cast + 1..];
  }

  lemma QueueWork(s: State)
    requires LockInv(s) && QueueInv(s) && WorkEnabled(s)
    ensures QueueInv(WorkStep(s))
  {
    hide LockInv, SleepInv, LogInv, WorkStep, WorkEnabled;
    LogWork(s);
    SleepWork(s);
  }

  lemma SleepWork(s: State)
    requires LockInv(s) && SleepInv(s) && WorkEnabled(s)
    ensures SleepInv(WorkStep(s))
  {
  }

  // Broadcasts the worker may still complete after the flag has fallen.
  function StillToCome(w: WorkerPc): nat {
    match w
    case WTop => 0
    case WFlag => 0
    case WSleep => 0
    case WNull => 0
    case WNullBack => 0
    case WUnlock => 0
    case WExit => 0
    case _ => 1
  }

  // After the flag has fallen at most one broadcast is completed, and dequeue_message finds a
  // message whenever it is called: it never returns NULL.
  predicate FallInv(s: State) {
    !s.running ==>
      && s.castAtFall <= s.cast
      && s.cast + StillToCome(s.worker) <= s.castAtFall + 1
      && !s.worker.WFlag? && !s.worker.WSleep? && !s.worker.WNull? && !s.worker.WNullBack?
      && (StillToCome(s.worker) == 1 ==> s.cast < |s.log|)
  }

  // The broadcasts that will have been completed when the worker exits are settled at the fall.
  lemma FallStep(s: State, a: Action)
    requires LockInv(s) && QueueInv(s) && FallInv(s) && Enabled(s, a)
    ensures FallInv(Apply(s, a))
    ensures !s.running ==>
      Apply(s, a).cast + StillToCome(Apply(s, a).worker) == s.cast + StillToCome(s.worker)
      && Apply(s, a).log == s.log && !Apply(s, a).running
  {
    match a
    case Io => FallIo(s);
    case Work => FallWork(s);
    case _ =>
  }

  lemma FallIo(s: State)
    requires LockInv(s) && QueueInv(s) && FallInv(s) && IoEnabled(s)
    ensures FallInv(IoStep(s))
    ensures !s.running ==>
      IoStep(s).cast + StillToCome(IoStep(s).worker) == s.cast + StillToCome(s.worker)
      && IoStep(s).log == s.log && !IoStep(s).running
  {
    if s.io.Committed? {
      AwakeAtFall(s);
    }
    hide LogInv;
    match s.io
    case _ =>
  }

  lemma FallWork(s: State)
    requires LockInv(s) && QueueInv(s) && FallInv(s) && WorkEnabled(s)
    ensures FallInv(WorkStep(s))
    ensures !s.running ==>
      WorkStep(s).cast + StillToCome(WorkStep(s).worker) == s.cast + StillToCome(s.worker)
      && WorkStep(s).log == s.log && !WorkStep(s).running
  {
    if !s.running && s.worker.WCheck? {
      assert s.log[s.cast..] != [];
    }
    hide LogInv;
    match s.worker
    case _ =>
  }

  // ---------- total order ----------

  // The slots below this one have the message in the worker's hand already.
  function CastIndex(w: WorkerPc): nat {
    if w.WCast? then w.i else 0
  }

  // How much of the log the client in slot i should have been sent.
  function Upto(s: State, i: nat): nat {
    s.cast + (if i < CastIndex(s.worker) then 1 else 0)
  }

  // What has been written to a client is a stretch of the log from its join point on.
  predicate Delivered(s: State, i: nat)
    requires i < |s.slots| && s.slots[i] < |s.clients|
  {
    var c := s.clients[s.slots[i]];
    c.joinPoint <= s.cast && Upto(s, i) <= |s.log| && c.written == s.log[c.joinPoint..Upto(s, i)]
  }

  predicate SlotsOk(s: State) {
    && (forall i | 0 <= i < |s.slots| :: s.slots[i] < |s.clients|)
    && (forall i, j | 0 <= i < j < |s.slots| :: s.slots[i] != s.slots[j])
    && CastIndex(s.worker) <= |s.slots| <= MAX_CLIENTS
    && (forall c | 0 <= c < |s.clients| && c !in s.slots :: s.clients[c].written == [])
  }

  predicate OrderInv(s: State) {
    SlotsOk(s) && forall i | 0 <= i < |s.slots| :: Delivered(s, i)
  }

  lemma OrderStep(s: State, a: Action)
    requires LockInv(s) && QueueInv(s) && OrderInv(s) && Enabled(s, a)
    ensures OrderInv(Apply(s, a))
  {
    hide OrderInv, LockInv, QueueInv, IoStep, WorkStep;
    match a
    case Io => OrderIo(s);
    case Work => OrderWork(s);
    case _ =>
      NothingWritten(s, a);
      OrderElsewhere(s, Apply(s, a));
  }

  lemma NothingWritten(s: State, a: Action)
    requires Enabled(s, a) && !a.Io? && !a.Work?
    ensures var t := Apply(s, a);
      && t.log == s.log && t.slots == s.slots && t.cast == s.cast && CastIndex(t.worker) == CastIndex(s.worker)
      && |t.clients| == |s.clients|
      && forall c | 0 <= c < |s.clients| ::
        t.clients[c].written == s.clients[c].written && t.clients[c].joinPoint == s.clients[c].joinPoint
  {
  }

  // Steps that touch neither the log, the slots, the worker nor what has been written.
  lemma OrderElsewhere(s: State, t: State)
    requires OrderInv(s) && t.log == s.log && t.slots == s.slots && t.cast == s.cast
    requires CastIndex(t.worker) == CastIndex(s.worker)
    requires |t.clients| == |s.clients|
    requires forall c | 0 <= c < |s.clients| ::
      t.clients[c].written == s.clients[c].written && t.clients[c].joinPoint == s.clients[c].joinPoint
    ensures OrderInv(t)
  {
    forall i | 0 <= i < |t.slots| ensures Delivered(t, i) {
      assert Delivered(s, i);
    }
  }

  lemma OrderIo(s: State)
    requires LockInv(s) && QueueInv(s) && OrderInv(s) && IoEnabled(s)
    ensures OrderInv(IoStep(s))
  {
    var t := IoStep(s);
    match s.io
    case InJoin(c) =>
      if t.slots != s.slots {
        OrderJoin(s, c);
      } else {
        OrderElsewhere(s, t);
      }
    case HasQueue(m) =>
      forall i | 0 <= i < |t.slots| ensures Delivered(t, i) {
        assert Delivered(s, i);
      }
    case _ => OrderElsewhere(s, t);
  }

  // A client joins between broadcasts: its stretch of the log starts out empty.
  lemma OrderJoin(s: State, c: nat)
    requires LockInv(s) && QueueInv(s) && OrderInv(s) && s.io == InJoin(c)
    requires |s.slots| < MAX_CLIENTS && c < |s.clients| && c !in s.slots
    ensures OrderInv(IoStep(s))
  {
    var t := IoStep(s);
    forall i | 0 <= i < |t.slots| ensures t.slots[i] < |t.clients| && Delivered(t, i) {
      if i < |s.slots| {
        assert Delivered(s, i);
        assert s.slots[i] != c;
      }
    }
    forall d | 0 <= d < |t.clients| && d !in t.slots ensures t.clients[d].written == [] {
      assert t.slots[|s.slots|] == c;
      assert d !in s.slots;
    }
  }

  lemma OrderWork(s: State)
    requires LockInv(s) && QueueInv(s) && OrderInv(s) && WorkEnabled(s)
    ensures OrderInv(WorkStep(s))
  {
    var t := WorkStep(s);
    match s.worker
    case WCast(m, i) =>
      if i < |s.slots| {
        OrderDeliver(s, m, i);
      } else {
        OrderCastDone(s, m, i);
      }
    case _ => OrderElsewhere(s, t);
  }

  lemma OrderCastDone(s: State, m: Down, i: nat)
    requires QueueInv(s) && OrderInv(s) && s.worker == WCast(m, i) && i >= |s.slots|
    ensures OrderInv(WorkStep(s))
  {
    var t := WorkStep(s);
    Advance(s.log, s.cast, m, s.queue);
    forall j | 0 <= j < |t.slots| ensures Delivered(t, j) {
      assert Delivered(s, j);
    }
  }

  // One write of a broadcast.
  lemma OrderDeliver(s: State, m: Down, i: nat)
    requires QueueInv(s) && OrderInv(s) && s.worker == WCast(m, i) && i < |s.slots|
    ensures OrderInv(WorkStep(s))
  {
    var t := WorkStep(s);
    Advance(s.log, s.cast, m, s.queue);
    hide QueueInv;
    assert s.slots[i] in s.slots;
    forall j | 0 <= j < |t.slots| ensures Delivered(t, j) {
      assert Delivered(s, j);
      if j == i {
        DeliverOne(s.log, s.clients[s.slots[j]], m, s.cast);
      } else {
        assert s.slots[j] != s.slots[i];
      }
    }
  }

  lemma DeliverOne(log: seq<Down>, c: Client, m: Down, cast: nat)
    requires c.joinPoint <= cast < |log| && log[cast] == m && c.written == log[c.joinPoint..cast]
    ensures Deliver(c, m).written == log[c.joinPoint..cast + 1]
  {
  }

  // ---------- joining ----------

  // The commit is in the log.
  predicate CommitLogged(io: IoPc) {
    HoldingCommit(io) || io.Joining? || io.Closed?
  }

  // Every client in the list joined before the commit was enqueued.
  predicate JoinInv(s: State) {
    forall i | 0 <= i < |s.slots| :: s.slots[i] < |s.clients|
      && s.clients[s.slots[i]].joinPoint + (if CommitLogged(s.io) then 1 else 0) <= |s.log|
  }

  lemma JoinStep(s: State, a: Action)
    requires LockInv(s) && QueueInv(s) && JoinInv(s) && Enabled(s, a)
    ensures JoinInv(Apply(s, a))
  {
    hide LockInv, QueueInv, IoStep, WorkStep;
    match a
    case Io => JoinIo(s);
    case Work => JoinWork(s);
    case _ =>
  }

  lemma JoinIo(s: State)
    requires LockInv(s) && QueueInv(s) && JoinInv(s) && IoEnabled(s)
    ensures JoinInv(IoStep(s))
  {
    hide InHand;
    match s.io
    case InJoin(c) =>
    case _ =>
  }

  lemma JoinWork(s: State)
    requires JoinInv(s) && WorkEnabled(s)
    ensures JoinInv(WorkStep(s))
  {
  }
}
