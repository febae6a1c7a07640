// The termination vote, over the server and every client together: a commit is announced once,
// after every client has voted and every line of every client has been announced in its order.
module ChatVotes {
  import opened ChatProtocol
  import opened ChatInvariants
  import opened Framing

  // The lines of client c in a log, in log order.
  function LinesOf(log: seq<Down>, c: nat): seq<Payload> {
    if log == [] then []
    else LinesOf(log[..|log| - 1], c) + LineOf(log[|log| - 1], c)
  }

  function LineOf(m: Down, c: nat): seq<Payload> {
    if m.Chat? && m.sender == c then [m.payload] else []
  }

  // The log together with the message enqueue_message is about to append.
  function Announced(s: State): seq<Down> {
    s.log + match s.io
            case WantQueue(m) => [m]
            case HasQueue(m) => [m]
            case _ => []
  }

  // From the handling of the last vote on.
  predicate Final(io: IoPc) {
    io == WantQueue(Commit) || io == HasQueue(Commit) || CommitLogged(io)
  }

  function AsTexts(lines: seq<Payload>): (r: seq<Up>)
    ensures |r| == |lines| && forall i | 0 <= i < |r| :: r[i] == Text(lines[i])
  {
    seq(|lines|, i requires 0 <= i < |lines| => Text(lines[i]))
  }

  function Votes(clients: seq<Client>): nat {
    if clients == [] then 0
    else Votes(clients[..|clients| - 1]) + if clients[|clients| - 1].counted then 1 else 0
  }

  // The sender thread's position against its script.
  predicate SenderOk(c: Client) {
    && c.sent <= |c.script|
    && (c.sender.SendWrite? ==> c.sent < |c.script|)
    && (c.sender.VoteTest? || c.sender.VoteWrite? || c.sender.SendDone? ==> c.sent == |c.script|)
    && (c.voted <==> c.sender.SendDone?)
    && (forall i | 0 <= i < |c.script| :: IsLine(c.script[i]))
  }

  // done are the client's lines handled so far: a prefix of its script, the rest of what it has
  // sent being on the way.
  predicate HandledOk(c: Client, done: seq<Payload>) {
    && |done| <= c.sent <= |c.script|
    && done == c.script[..|done|]
    && c.up == AsTexts(c.script[|done|..c.sent]) + (if c.voted && !c.counted then [Vote] else [])
    && (c.counted ==> c.voted && |done| == c.sent)
  }

  // keep_running falls with the commit.
  predicate ReceiverOk(c: Client) {
    && c.received <= |c.written|
    && (c.keepRunning <==> Commit !in c.written[..c.received])
  }

  predicate ClientOk(s: State, c: nat)
    requires c < |s.clients|
  {
    && SenderOk(s.clients[c]) && ReceiverOk(s.clients[c])
    && HandledOk(s.clients[c], LinesOf(Announced(s), c))
  }

  predicate AllCounted(clients: seq<Client>) {
    forall c | 0 <= c < |clients| :: clients[c].counted
  }

  // A commit has been announced exactly when the protocol is final; it is the last message.
  predicate Sealed(announced: seq<Down>, final: bool) {
    if final then announced != [] && announced[|announced| - 1] == Commit && Commit !in announced[..|announced| - 1]
    else Commit !in announced
  }

  predicate SendersOk(s: State) {
    forall i | 0 <= i < |Announced(s)| :: Announced(s)[i].Chat? ==> Announced(s)[i].sender < |s.clients|
  }

  predicate VoteInv(s: State) {
    && (forall c | 0 <= c < |s.clients| :: ClientOk(s, c))
    && s.finished == Votes(s.clients)
    && Sealed(Announced(s), Final(s.io))
    && (Final(s.io) ==> AllCounted(s.clients))
    && SendersOk(s)
  }

  predicate Inv(s: State) {
    LockInv(s) && QueueInv(s) && FallInv(s) && OrderInv(s) && JoinInv(s) && VoteInv(s)
  }

  // ---------- sequence facts ----------

  lemma LinesOfAppend(log: seq<Down>, m: Down, c: nat)
    ensures LinesOf(log + [m], c) == LinesOf(log, c) + LineOf(m, c)
  {
    assert (log + [m])[..|log|] == log;
  }

  lemma VotesUpdate(clients: seq<Client>, c: nat, d: Client)
    requires c < |clients|
    ensures Votes(clients[c := d]) ==
      Votes(clients) + (if d.counted then 1 else 0) - (if clients[c].counted then 1 else 0)
  {
    var n := |clients| - 1;
    if c < n {
      VotesUpdate(clients[..n], c, d);
      assert clients[c := d][..n] == clients[..n][c := d];
    } else {
      assert clients[c := d][..n] == clients[..n];
    }
  }

  // The count reaches the number of clients only when every one of them has voted.
  lemma {:induction false} AllVotesIn(clients: seq<Client>)
    ensures Votes(clients) <= |clients|
    ensures Votes(clients) == |clients| <==> AllCounted(clients)
  {
    if clients != [] {
      var front := clients[..|clients| - 1];
      AllVotesIn(front);
      assert forall c | 0 <= c < |front| :: front[c] == clients[c];
      assert AllCounted(clients) <==> AllCounted(front) && clients[|front|].counted;
    }
  }

  // The first message on the way of a client with k lines handled.
  lemma FirstOnTheWay(c: Client, done: seq<Payload>)
    requires HandledOk(c, done) && c.up != []
    ensures c.up[0].Text? ==> |done| < c.sent && c.up[0].payload == c.script[|done|]
    ensures c.up[0].Vote? ==> |done| == c.sent && c.voted && !c.counted && c.up[1..] == []
  {
    if |done| < c.sent {
      assert c.up[0] == AsTexts(c.script[|done|..c.sent])[0];
    } else {
      assert AsTexts(c.script[|done|..c.sent]) == [];
      assert c.up == if c.voted && !c.counted then [Vote] else [];
    }
  }

  lemma HandleLine(c: Client, done: seq<Payload>)
    requires HandledOk(c, done) && c.up != [] && c.up[0].Text?
    ensures HandledOk(c.(up := c.up[1..]), done + [c.up[0].payload])
  {
    FirstOnTheWay(c, done);
    var k := |done|;
    var tail := if c.voted && !c.counted then [Vote] else [];
    assert c.script[..k + 1] == c.script[..k] + [c.script[k]];
    assert AsTexts(c.script[k..c.sent])[1..] == AsTexts(c.script[k + 1..c.sent]);
    assert c.up[1..] == AsTexts(c.script[k..c.sent])[1..] + tail;
  }

  lemma HandleVote(c: Client, done: seq<Payload>)
    requires HandledOk(c, done) && c.up != [] && c.up[0].Vote?
    ensures !c.counted && HandledOk(c.(up := c.up[1..], counted := true), done)
  {
    FirstOnTheWay(c, done);
    assert AsTexts(c.script[|done|..c.sent]) == [];
  }

  lemma SendLine(c: Client, done: seq<Payload>)
    requires HandledOk(c, done) && c.sent < |c.script| && !c.voted
    ensures HandledOk(c.(sent := c.sent + 1, up := c.up + [Text(c.script[c.sent])]), done)
  {
    var k := |done|;
    assert AsTexts(c.script[k..c.sent + 1]) == AsTexts(c.script[k..c.sent]) + [Text(c.script[c.sent])];
  }

  // ---------- steps ----------

  // A client stops only when the commit has been written to it, out of the log.
  lemma StoppedSawCommit(s: State, c: nat)
    requires OrderInv(s) && c < |s.clients| && ReceiverOk(s.clients[c]) && !s.clients[c].keepRunning
    ensures Commit in s.log
  {
    var w := s.clients[c].written;
    assert Commit in w;
    assert c in s.slots;
    var i: nat :| i < |s.slots| && s.slots[i] == c;
    assert Delivered(s, i);
    var j: nat :| j < |w| && w[j] == Commit;
    assert s.log[s.clients[c].joinPoint + j] == Commit;
  }

  lemma LoggedCommitIsFinal(s: State)
    requires Commit in s.log && Sealed(Announced(s), Final(s.io))
    ensures Final(s.io)
  {
    var j: nat :| j < |s.log| && s.log[j] == Commit;
    assert Announced(s)[j] == Commit;
  }

  // A client that has been told to stop has voted.
  lemma StoppedHasVoted(s: State, c: nat)
    requires OrderInv(s) && VoteInv(s) && c < |s.clients| && !s.clients[c].keepRunning
    ensures Final(s.io) && s.clients[c].counted && s.clients[c].voted
  {
    hide OrderInv, Sealed, SendersOk, Announced, Final, SenderOk, ReceiverOk;
    assert ClientOk(s, c);
    StoppedSawCommit(s, c);
    LoggedCommitIsFinal(s);
  }

  lemma VoteStep(s: State, a: Action)
    requires LockInv(s) && QueueInv(s) && OrderInv(s) && VoteInv(s) && Enabled(s, a)
    ensures VoteInv(Apply(s, a))
  {
    hide VoteInv, LockInv, QueueInv, OrderInv, IoStep, WorkStep, TakeStep;
    match a
    case Take(c) => VoteTake(s, c);
    case Sender(c) => VoteSender(s, c);
    case Receive(c) => VoteReceive(s, c);
    case Io => VoteIo(s);
    case Work => VoteWork(s);
    case _ => VoteElsewhere(s, Apply(s, a));
  }

  // Steps that announce nothing, and touch nothing of a client but what is written to it.
  lemma VoteElsewhere(s: State, t: State)
    requires VoteInv(s) && Announced(t) == Announced(s) && Final(t.io) == Final(s.io)
    requires t.finished == s.finished && |t.clients| == |s.clients|
    requires forall c | 0 <= c < |s.clients| :: OnlyWritten(s.clients[c], t.clients[c])
    ensures VoteInv(t)
  {
    forall c | 0 <= c < |t.clients| ensures ClientOk(t, c) {
      assert ClientOk(s, c);
      assert OnlyWritten(s.clients[c], t.clients[c]);
      MoreWritten(s.clients[c], t.clients[c]);
    }
    SameVotes(s.clients, t.clients);
    if Final(s.io) {
      forall c | 0 <= c < |t.clients| ensures t.clients[c].counted {
        assert OnlyWritten(s.clients[c], t.clients[c]);
        assert s.clients[c].counted;
      }
    }
  }

  predicate OnlyWritten(c: Client, d: Client) {
    && d == c.(written := d.written, joinPoint := d.joinPoint)
    && c.written <= d.written
  }

  lemma MoreWritten(c: Client, d: Client)
    requires OnlyWritten(c, d) && ReceiverOk(c)
    ensures ReceiverOk(d)
  {
    assert d.written[..c.received] == c.written[..c.received];
  }

  lemma SameVotes(a: seq<Client>, b: seq<Client>)
    requires |a| == |b| && forall c | 0 <= c < |a| :: a[c].counted == b[c].counted
    ensures Votes(a) == Votes(b)
  {
  }

  lemma VoteIo(s: State)
    requires LockInv(s) && QueueInv(s) && VoteInv(s) && IoEnabled(s)
    ensures VoteInv(IoStep(s))
  {
    AnnouncedIo(s);
    ClientsIo(s);
    hide LockInv, QueueInv, VoteInv, IoStep, Announced, Final;
    VoteElsewhere(s, IoStep(s));
  }

  lemma AnnouncedIo(s: State)
    requires LockInv(s) && IoEnabled(s)
    ensures Announced(IoStep(s)) == Announced(s) && Final(IoStep(s).io) == Final(s.io)
  {
    match s.io
    case WantQueue(m) =>
    case HasQueue(m) =>
    case _ =>
  }

  lemma ClientsIo(s: State)
    requires IoEnabled(s)
    ensures IoStep(s).finished == s.finished && |IoStep(s).clients| == |s.clients|
    ensures forall c | 0 <= c < |s.clients| :: OnlyWritten(s.clients[c], IoStep(s).clients[c])
  {
  }

  lemma VoteWork(s: State)
    requires VoteInv(s) && WorkEnabled(s)
    ensures VoteInv(WorkStep(s))
  {
    VoteElsewhere(s, WorkStep(s));
  }

  // Steps of one client that announce nothing and count nothing.
  lemma VoteClient(s: State, c: nat, d: Client)
    requires VoteInv(s) && c < |s.clients| && d.counted == s.clients[c].counted
    requires SenderOk(d) && ReceiverOk(d) && HandledOk(d, LinesOf(Announced(s), c))
    ensures VoteInv(s.(clients := s.clients[c := d]))
  {
    var t := s.(clients := s.clients[c := d]);
    VotesUpdate(s.clients, c, d);
    assert Announced(t) == Announced(s);
    forall e | 0 <= e < |t.clients| ensures ClientOk(t, e) {
      assert ClientOk(s, e);
      OtherClient(s, t, c, e);
    }
    hide ClientOk, Announced;
  }

  // A step that leaves client e and its lines alone.
  lemma OtherClient(s: State, t: State, c: nat, e: nat)
    requires e < |s.clients| == |t.clients| && ClientOk(s, e)
    requires LinesOf(Announced(t), e) == LinesOf(Announced(s), e)
    requires e != c ==> t.clients[e] == s.clients[e]
    requires e == c ==> SenderOk(t.clients[e])
    requires e == c ==> ReceiverOk(t.clients[e])
    requires e == c ==> HandledOk(t.clients[e], LinesOf(Announced(s), e))
    ensures ClientOk(t, e)
  {
  }

  lemma VoteSender(s: State, c: nat)
    requires OrderInv(s) && VoteInv(s) && Enabled(s, Sender(c))
    ensures VoteInv(Apply(s, Sender(c)))
  {
    var x := s.clients[c];
    assert ClientOk(s, c);
    if !x.keepRunning {
      StoppedHasVoted(s, c);
    }
    SenderKeeps(x, LinesOf(Announced(s), c));
    hide VoteInv, Announced, LinesOf, HandledOk, SenderOk, ReceiverOk, SenderStep;
    VoteClient(s, c, SenderStep(x));
  }

  lemma SenderKeeps(x: Client, done: seq<Payload>)
    requires SenderOk(x) && ReceiverOk(x) && HandledOk(x, done)
    requires x.keepRunning && x.sender != SendDone
    ensures SenderOk(SenderStep(x)) && ReceiverOk(SenderStep(x)) && HandledOk(SenderStep(x), done)
    ensures SenderStep(x).counted == x.counted
  {
    if x.sender == SendWrite {
      SendLine(x, done);
    }
  }

  lemma VoteReceive(s: State, c: nat)
    requires VoteInv(s) && Enabled(s, Receive(c))
    ensures VoteInv(Apply(s, Receive(c)))
  {
    var x := s.clients[c];
    assert ClientOk(s, c);
    ReceiverKeeps(x, LinesOf(Announced(s), c));
    hide VoteInv, Announced, LinesOf, HandledOk, SenderOk, ReceiverOk, ReceiveStep;
    VoteClient(s, c, ReceiveStep(x));
  }

  lemma ReceiverKeeps(x: Client, done: seq<Payload>)
    requires SenderOk(x) && ReceiverOk(x) && HandledOk(x, done) && x.received < |x.written|
    ensures SenderOk(ReceiveStep(x)) && ReceiverOk(ReceiveStep(x)) && HandledOk(ReceiveStep(x), done)
    ensures ReceiveStep(x).counted == x.counted
  {
    assert x.written[..x.received + 1] == x.written[..x.received] + [x.written[x.received]];
  }

  lemma VoteTake(s: State, c: nat)
    requires VoteInv(s) && Enabled(s, Take(c))
    ensures VoteInv(Apply(s, Take(c)))
  {
    var x := s.clients[c];
    assert ClientOk(s, c);
    var done := LinesOf(Announced(s), c);
    FirstOnTheWay(x, done);
    match x.up[0]
    case Text(p) => TakeLine(s, c, p);
    case Vote => TakeVote(s, c);
  }

  // Everything but the client whose message is being handled.
  lemma TakeLine(s: State, c: nat, p: Payload)
    requires VoteInv(s) && Enabled(s, Take(c)) && s.clients[c].up[0] == Text(p)
    ensures VoteInv(TakeStep(s, c))
  {
    var t := TakeStep(s, c);
    AnnouncedLine(s, c, p);
    forall e | 0 <= e < |t.clients| ensures ClientOk(t, e) {
      LineClient(s, c, p, e);
    }
    assert !s.clients[c].counted == !t.clients[c].counted;
    VotesUpdate(s.clients, c, t.clients[c]);
    hide ClientOk, TakeStep, Announced, Final;
    assert SendersOk(t);
  }

  // Where client e stands after a line of client c has been handled.
  lemma LineClient(s: State, c: nat, p: Payload, e: nat)
    requires VoteInv(s) && Enabled(s, Take(c)) && s.clients[c].up[0] == Text(p) && e < |s.clients|
    ensures ClientOk(TakeStep(s, c), e)
  {
    hide TakeStep, Announced, LinesOf, HandledOk, Sealed, SendersOk;
    AnnouncedLine(s, c, p);
    assert ClientOk(s, c) && ClientOk(s, e);
    HandleLine(s.clients[c], LinesOf(Announced(s), c));
    LinesOfAppend(Announced(s), Chat(c, p), e);
    assert LinesOf(Announced(s), e) + [] == LinesOf(Announced(s), e);
  }

  lemma AnnouncedLine(s: State, c: nat, p: Payload)
    requires VoteInv(s) && Enabled(s, Take(c)) && s.clients[c].up[0] == Text(p)
    ensures Announced(TakeStep(s, c)) == Announced(s) + [Chat(c, p)]
    ensures !Final(TakeStep(s, c).io) && !Final(s.io)
    ensures TakeStep(s, c).finished == s.finished
    ensures TakeStep(s, c).clients == s.clients[c := s.clients[c].(up := s.clients[c].up[1..])]
  {
    assert ClientOk(s, c);
    FirstOnTheWay(s.clients[c], LinesOf(Announced(s), c));
    assert |p| == 2 * RANDOM_BYTES_LEN;
  }

  lemma TakeVote(s: State, c: nat)
    requires VoteInv(s) && Enabled(s, Take(c)) && s.clients[c].up[0] == Vote
    ensures VoteInv(TakeStep(s, c))
  {
    hide Announced, LinesOf, HandledOk, Sealed, SendersOk;
    var t := TakeStep(s, c);
    assert ClientOk(s, c);
    HandleVote(s.clients[c], LinesOf(Announced(s), c));
    VotesUpdate(s.clients, c, t.clients[c]);
    AllVotesIn(t.clients);
    AnnouncedVote(s, c);
    forall e | 0 <= e < |t.clients| ensures ClientOk(t, e) {
      assert ClientOk(s, e);
      OtherClient(s, t, c, e);
    }
  }

  lemma AnnouncedVote(s: State, c: nat)
    requires VoteInv(s) && Enabled(s, Take(c)) && s.clients[c].up[0] == Vote
    ensures Sealed(Announced(TakeStep(s, c)), Final(TakeStep(s, c).io)) && SendersOk(TakeStep(s, c))
    ensures Final(TakeStep(s, c).io) <==> TakeStep(s, c).finished == |s.clients|
    ensures forall e :: LinesOf(Announced(TakeStep(s, c)), e) == LinesOf(Announced(s), e)
  {
    var t := TakeStep(s, c);
    var m := if t.finished == |t.clients| then [Commit] else [];
    assert Announced(t) == Announced(s) + m;
    if m != [] {
      forall e ensures LinesOf(Announced(t), e) == LinesOf(Announced(s), e) {
        LinesOfAppend(Announced(s), Commit, e);
      }
    }
  }
}
