// The chat service of lecture/test4 as a step system: the server's I/O thread and broadcast
// worker with their two locks and the condition variable (server.c), and the sender and
// receiver threads of every client (client.c). A step is one access to shared state. Memory is
// sequentially consistent and writes succeed.
module ChatProtocol {
  import opened Bytes
  import opened Framing
  import ClientFraming

  const MAX_CLIENTS: nat := 100

  type Payload = seq<byte>

  // What a client sends: a type-0 line or its type-1 vote.
  datatype Up = Text(payload: Payload) | Vote

  // What the server broadcasts: a chat line with its sender's address, or the commit.
  datatype Down = Chat(sender: nat, payload: Payload) | Commit

  datatype SenderPc = SendTest | SendWrite | VoteTest | VoteWrite | SendDone

  // A client process and its connection. up holds what the server has not handled yet, written
  // what the worker has written to the socket. The last three fields are history.
  datatype Client = Client(
    script: seq<Payload>, sent: nat, sender: SenderPc, keepRunning: bool,
    up: seq<Up>, written: seq<Down>, received: nat,
    joinPoint: nat, voted: bool, counted: bool)

  datatype Holder = Nobody | IoThread | WorkerThread

  // The I/O thread: main's loop, handle_message, enqueue_message, cleanup_and_exit.
  datatype IoPc =
    | Top | WantFd | InFd | Polling | WantJoin(c: nat) | InJoin(c: nat) | WantScan | Scan
    | WantQueue(m: Down) | HasQueue(m: Down) | Appended(m: Down) | Signalled(m: Down)
    | Committed | Fallen | Leave | Joining | Closed

  // The worker: broadcast_worker and dequeue_message. At WSleep it has found the queue empty and
  // the flag up, and is about to enter the wait set of queue_cond, which is WWait.
  datatype WorkerPc =
    | WTop | WWantLock | WCheck | WFlag | WSleep | WWait | WWake | WNull | WNullBack
    | WTake | WPopped(m: Down) | WGot(m: Down) | WCast(m: Down, i: nat) | WUnlock | WExit

  // slots is the clients array; log records every message ever enqueued, cast how many of them
  // have been broadcast in full, and castAtFall the value of cast when server_running fell.
  datatype State = State(
    clients: seq<Client>, slots: seq<nat>, queue: seq<Down>, finished: nat, running: bool,
    queueLock: Holder, listLock: Holder, io: IoPc, worker: WorkerPc,
    log: seq<Down>, cast: nat, castAtFall: nat)

  datatype Action =
    | Io                  // the only step the I/O thread's position allows
    | Timeout | Accept(c: nat) | Data   // outcomes of select
    | Take(c: nat) | EndScan            // the next message in the scan, or no more
    | Work                // the worker's next step
    | Spurious            // a wakeup nobody asked for
    | Sender(c: nat)      // a step of a client's sender thread
    | Receive(c: nat)     // a client's receiver handles one message

  // ---------- initial states ----------

  // The hex text of some random bytes.
  predicate IsLine(p: Payload) {
    |p| == 2 * RANDOM_BYTES_LEN && ClientFraming.IsText(p)
  }

  predicate FreshClient(c: Client) {
    && c.sent == 0 && c.sender == SendTest && c.keepRunning && c.up == [] && c.written == []
    && c.received == 0 && c.joinPoint == 0 && !c.voted && !c.counted
    && forall i | 0 <= i < |c.script| :: IsLine(c.script[i])
  }

  predicate Init(s: State) {
    && (forall c | 0 <= c < |s.clients| :: FreshClient(s.clients[c]))
    && s.slots == [] && s.queue == [] && s.finished == 0 && s.running
    && s.queueLock == Nobody && s.listLock == Nobody && s.io == Top && s.worker == WTop
    && s.log == [] && s.cast == 0 && s.castAtFall == 0
  }

  // ---------- steps ----------

  predicate WorkEnabled(s: State) {
    match s.worker
    case WWantLock => s.queueLock == Nobody
    case WWake => s.queueLock == Nobody
    case WGot(_) => s.listLock == Nobody
    case WWait => false
    case WExit => false
    case _ => true
  }

  predicate IoEnabled(s: State) {
    match s.io
    case Polling => false
    case Scan => false
    case WantFd => s.listLock == Nobody
    case WantJoin(_) => s.listLock == Nobody
    case WantScan => s.listLock == Nobody
    case WantQueue(_) => s.queueLock == Nobody
    case Joining => s.worker == WExit
    case Closed => false
    case _ => true
  }

  predicate Enabled(s: State, a: Action) {
    match a
    case Io => IoEnabled(s)
    case Timeout => s.io == Polling
    case Accept(c) => s.io == Polling && c < |s.clients| && c !in s.slots
    case Data => s.io == Polling
    case Take(c) => s.io == Scan && c in s.slots && c < |s.clients| && s.clients[c].up != []
    case EndScan => s.io == Scan
    case Work => WorkEnabled(s)
    case Spurious => s.worker == WWait
    case Sender(c) => c < |s.clients| && s.clients[c].sender != SendDone
    case Receive(c) => c < |s.clients| && s.clients[c].keepRunning && s.clients[c].received < |s.clients[c].written|
  }

  function Apply(s: State, a: Action): State
    requires Enabled(s, a)
  {
    match a
    case Io => IoStep(s)
    case Timeout => s.(io := Top)
    case Accept(c) => s.(io := WantJoin(c))
    case Data => s.(io := WantScan)
    case Take(c) => TakeStep(s, c)
    case EndScan => s.(io := Top, listLock := Nobody)
    case Work => WorkStep(s)
    case Spurious => s.(worker := WWake)
    case Sender(c) => s.(clients := s.clients[c := SenderStep(s.clients[c])])
    case Receive(c) => s.(clients := s.clients[c := ReceiveStep(s.clients[c])])
  }

  // pthread_cond_signal: wakes the worker if it is waiting, and is lost otherwise.
  function Signal(w: WorkerPc): WorkerPc {
    if w == WWait then WWake else w
  }

  function IoStep(s: State): State
    requires IoEnabled(s)
  {
    match s.io
    case Top => s.(io := if s.running then WantFd else Joining)
    case WantFd => s.(io := InFd, listLock := IoThread)
    case InFd => s.(io := Polling, listLock := Nobody)
    case Polling => s
    case WantJoin(c) => s.(io := InJoin(c), listLock := IoThread)
    case InJoin(c) =>
      if |s.slots| < MAX_CLIENTS && c < |s.clients| && c !in s.slots then
        s.(io := Top, listLock := Nobody, slots := s.slots + [c],
           clients := s.clients[c := s.clients[c].(joinPoint := s.cast)])
      else s.(io := WantScan, listLock := Nobody)
    case WantScan => s.(io := Scan, listLock := IoThread)
    case Scan => s
    case WantQueue(m) => s.(io := HasQueue(m), queueLock := IoThread)
    case HasQueue(m) => s.(io := Appended(m), queue := s.queue + [m], log := s.log + [m])
    case Appended(m) => s.(io := Signalled(m), worker := Signal(s.worker))
    case Signalled(m) => s.(io := if m == Commit then Committed else Scan, queueLock := Nobody)
    case Committed => s.(io := Fallen, running := false, castAtFall := s.cast)
    case Fallen => s.(io := Leave, worker := Signal(s.worker))
    case Leave => s.(io := Joining, listLock := Nobody)
    case Joining => s.(io := Closed)
    case Closed => s
  }

  // handle_message on the next message of client c.
  function TakeStep(s: State, c: nat): State
    requires c < |s.clients| && s.clients[c].up != []
  {
    var m := s.clients[c].up[0];
    var rest := s.clients[c].(up := s.clients[c].up[1..]);
    match m
    case Text(p) =>
      var s1 := s.(clients := s.clients[c := rest]);
      // 1 type byte + payload + newline, and 6 bytes of server header
      if |p| + 2 + 6 > MAX_MSG_SIZE then s1 else s1.(io := WantQueue(Chat(c, p)))
    case Vote =>
      var s1 := s.(clients := s.clients[c := rest.(counted := true)], finished := s.finished + 1);
      if s1.finished == |s.clients| then s1.(io := WantQueue(Commit)) else s1
  }

  function WorkStep(s: State): State
    requires WorkEnabled(s)
  {
    match s.worker
    case WTop => s.(worker := if s.running then WWantLock else WExit)
    case WWantLock => s.(worker := WCheck, queueLock := WorkerThread)
    case WCheck => s.(worker := if s.queue == [] then WFlag else WTake)
    case WFlag => s.(worker := if s.running then WSleep else WNull)
    case WSleep => s.(worker := WWait, queueLock := Nobody)
    case WWait => s
    case WWake => s.(worker := WCheck, queueLock := WorkerThread)
    case WNull => s.(worker := WNullBack, queueLock := Nobody)
    case WNullBack => s.(worker := if s.running then WTop else WExit)
    case WTake => if s.queue == [] then s else s.(worker := WPopped(s.queue[0]), queue := s.queue[1..])
    case WPopped(m) => s.(worker := WGot(m), queueLock := Nobody)
    case WGot(m) => s.(worker := WCast(m, 0), listLock := WorkerThread)
    case WCast(m, i) =>
      if i < |s.slots| then
        var c := s.slots[i];
        var s1 := s.(worker := WCast(m, i + 1));
        if c < |s.clients| then s1.(clients := s.clients[c := Deliver(s.clients[c], m)]) else s1
      else s.(worker := WUnlock, cast := s.cast + 1)
    case WUnlock => s.(worker := WTop, listLock := Nobody)
    case WExit => s
  }

  function Deliver(c: Client, m: Down): Client {
    c.(written := c.written + [m])
  }

  // sender_thread
  function SenderStep(c: Client): Client {
    match c.sender
    case SendTest => c.(sender := if c.sent < |c.script| && c.keepRunning then SendWrite else VoteTest)
    case SendWrite =>
      if c.sent < |c.script| then c.(sender := SendTest, sent := c.sent + 1, up := c.up + [Text(c.script[c.sent])])
      else c
    case VoteTest => c.(sender := if c.keepRunning then VoteWrite else SendDone)
    case VoteWrite => c.(sender := SendDone, up := c.up + [Vote], voted := true)
    case SendDone => c
  }

  // receiver_thread on one message
  function ReceiveStep(c: Client): Client
    requires c.received < |c.written|
  {
    c.(received := c.received + 1, keepRunning := c.keepRunning && c.written[c.received] != Commit)
  }

  // ---------- runs ----------

  // A run: states linked by actions, from an initial state.
  ghost predicate IsRun(states: seq<State>, actions: seq<Action>) {
    && |states| == |actions| + 1
    && Init(states[0])
    && Linked(states, actions)
  }

  ghost predicate Linked(states: seq<State>, actions: seq<Action>)
    requires |states| == |actions| + 1
  {
    forall i | 0 <= i < |actions| ::
      Enabled(states[i], actions[i]) && states[i + 1] == Apply(states[i], actions[i])
  }
}
