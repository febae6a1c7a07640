// The messages of the protocol as bytes: what one side writes is what the other side reads, and
// the byte-level server does to a message what the step system says.
module ChatWire {
  import opened Bytes
  import opened Framing
  import opened ChatProtocol
  import ChatTheorems
  import ChatVotes
  import S = ServerFraming
  import C = ClientFraming

  predicate NewlineFree(p: Payload) {
    forall i | 0 <= i < |p| :: p[i] != NEWLINE
  }

  function EncodeUp(m: Up): seq<byte> {
    match m
    case Text(p) => S.Line(p)
    case Vote => S.VOTE
  }

  // addr gives each client's address and port bytes.
  function EncodeDown(addr: nat -> S.address, m: Down): seq<byte> {
    match m
    case Chat(c, p) => S.Broadcast(addr(c), p)
    case Commit => S.VOTE
  }

  function EncodeAll(addr: nat -> S.address, ms: seq<Down>): (r: seq<seq<byte>>)
    ensures |r| == |ms| && forall i | 0 <= i < |ms| :: r[i] == EncodeDown(addr, ms[i])
  {
    seq(|ms|, i requires 0 <= i < |ms| => EncodeDown(addr, ms[i]))
  }

  predicate UpFits(m: Up) {
    m.Text? ==> NewlineFree(m.payload) && |m.payload| + 2 <= MAX_MSG_SIZE
  }

  predicate DownFits(m: Down) {
    m.Chat? ==> NewlineFree(m.payload) && |m.payload| + 8 <= MAX_MSG_SIZE
  }

  // ---------- clients to server ----------

  lemma UpIsMessage(m: Up)
    requires UpFits(m)
    ensures S.IsMessage(EncodeUp(m))
  {
    var b := EncodeUp(m);
    var i := |b| - 1;
    assert forall j | 0 <= j < i :: b[j] != NEWLINE;
    LineEndIs(b, 0, i);
  }

  lemma LineParts(p: Payload)
    ensures S.Line(p)[1..|S.Line(p)| - 1] == p
  {
  }

  // handle_message on the bytes of client c's next message does what the step system's Take does.
  lemma HandleIsTake(s: State, c: nat, addr: nat -> S.address)
    requires s.io == Scan && c < |s.clients| && s.clients[c].up != []
    ensures var t := TakeStep(s, c);
      S.Handle(addr(c), |s.clients|, S.Server(EncodeAll(addr, s.log), s.finished, true), EncodeUp(s.clients[c].up[0]))
      == S.Server(EncodeAll(addr, ChatVotes.Announced(t)), t.finished, !ChatVotes.Final(t.io))
  {
    var t := TakeStep(s, c);
    match s.clients[c].up[0]
    case Text(p) =>
      LineParts(p);
      Announce(addr, s.log, Chat(c, p));
      assert s.log + [] == s.log;
    case Vote =>
      Announce(addr, s.log, Commit);
      assert s.log + [] == s.log;
  }

  lemma Announce(addr: nat -> S.address, log: seq<Down>, m: Down)
    ensures EncodeAll(addr, log + [m]) == EncodeAll(addr, log) + [EncodeDown(addr, m)]
  {
  }

  // ---------- server to clients ----------

  lemma DownIsMessage(addr: nat -> S.address, m: Down)
    requires DownFits(m)
    ensures C.IsMessage(EncodeDown(addr, m))
  {
    var b := EncodeDown(addr, m);
    if m.Chat? {
      var i := |b| - 1;
      assert forall j | C.HEADER <= j < i :: b[j] == m.payload[j - C.HEADER];
      LineEndIs(b, C.HEADER, i);
    }
  }

  function EntryOf(addr: nat -> S.address, c: nat, p: Payload): C.Entry {
    C.Entry(addr(c)[..4], addr(c)[4..], p)
  }

  // The log a client writes for the messages up to the commit.
  function Entries(addr: nat -> S.address, ms: seq<Down>): seq<C.Entry> {
    if ms == [] || ms[0].Commit? then []
    else [EntryOf(addr, ms[0].sender, ms[0].payload)] + Entries(addr, ms[1..])
  }

  function Logged(addr: nat -> S.address, s: C.Reader, m: Down): C.Reader {
    match m
    case Chat(c, p) => s.(entries := s.entries + [EntryOf(addr, c, p)])
    case Commit => s.(keepRunning := false)
  }

  // One message makes the round trip, whatever bytes the address and port are made of.
  lemma RoundTrip(addr: nat -> S.address, m: Down, s: C.Reader)
    requires DownFits(m)
    ensures C.Receive(s, EncodeDown(addr, m)) == Logged(addr, s, m)
  {
    if m.Chat? {
      var b := EncodeDown(addr, m);
      assert b[1..5] == addr(m.sender)[..4];
      assert b[5..7] == addr(m.sender)[4..];
      assert b[C.HEADER..|b| - 1] == m.payload;
    }
  }

  lemma ReadOne(addr: nat -> S.address, ms: seq<Down>, s: C.Reader)
    requires s.keepRunning && ms != [] && DownFits(ms[0])
    ensures ActAll(C.Reading(), s, EncodeAll(addr, ms)) ==
      ActAll(C.Reading(), Logged(addr, s, ms[0]), EncodeAll(addr, ms[1..]))
  {
    RoundTrip(addr, ms[0], s);
    assert EncodeAll(addr, ms)[1..] == EncodeAll(addr, ms[1..]);
    hide C.Receive, EncodeDown, Logged;
  }

  lemma {:induction false} ReadAll(addr: nat -> S.address, ms: seq<Down>, s: C.Reader)
    requires s.keepRunning && forall i | 0 <= i < |ms| :: DownFits(ms[i])
    ensures ActAll(C.Reading(), s, EncodeAll(addr, ms)) ==
      C.Reader(s.entries + Entries(addr, ms), Commit !in ms)
    decreases |ms|
  {
    if ms == [] {
      assert s.entries + [] == s.entries;
    } else {
      ReadOne(addr, ms, s);
      var t := Logged(addr, s, ms[0]);
      assert Commit in ms <==> ms[0] == Commit || Commit in ms[1..];
      if ms[0].Chat? {
        ReadAll(addr, ms[1..], t);
        Rebracket(s.entries, EntryOf(addr, ms[0].sender, ms[0].payload), Entries(addr, ms[1..]));
      } else {
        Stops(t, EncodeAll(addr, ms[1..]));
        assert s.entries + [] == s.entries;
      }
    }
  }

  lemma Rebracket(a: seq<C.Entry>, e: C.Entry, b: seq<C.Entry>)
    ensures a + [e] + b == a + ([e] + b)
  {
  }

  lemma Stops(s: C.Reader, msgs: seq<seq<byte>>)
    requires !s.keepRunning
    ensures ActAll(C.Reading(), s, msgs) == s
  {
  }

  lemma AllMessages(addr: nat -> S.address, ms: seq<Down>)
    requires forall i | 0 <= i < |ms| :: DownFits(ms[i])
    ensures C.AreMessages(EncodeAll(addr, ms))
  {
    forall i | 0 <= i < |ms| ensures C.IsMessage(EncodeAll(addr, ms)[i]) {
      DownIsMessage(addr, ms[i]);
    }
    hide C.NextMessage;
  }

  // However the bytes of what was written to a client are cut into reads, and however many of them
  // have arrived, its receiver has logged exactly the first of those messages, in order, up to the
  // commit, and has stopped if the commit was among them; all of them, if all bytes have arrived.
  lemma DecodeWhatWasWritten(addr: nat -> S.address, ms: seq<Down>, chunks: seq<seq<byte>>) returns (k: nat)
    requires Flatten(chunks) <= Flatten(EncodeAll(addr, ms))
    requires forall i | 0 <= i < |ms| :: DownFits(ms[i])
    ensures Stable(C.NextMessage) && k <= |ms|
    ensures FeedAll(C.Reading(), C.Reader([], true), [], chunks).0 ==
      C.Reader(Entries(addr, ms[..k]), Commit !in ms[..k])
    ensures Flatten(chunks) == Flatten(EncodeAll(addr, ms)) ==> k == |ms|
  {
    hide Flatten, EncodeDown, Entries, DownFits, C.NextMessage, C.Receive;
    var p, s, msgs := C.Reading(), C.Reader([], true), EncodeAll(addr, ms);
    AllMessages(addr, ms);
    C.MessagesBounded(msgs);
    assert Feed(p, s, []) == (s, []);
    ChunksDoNotMatter(p, s, [], chunks);
    assert [] + Flatten(chunks) == Flatten(chunks);
    k := RoomForNextRead(p, s, msgs, Flatten(chunks));
    assert msgs[..k] == EncodeAll(addr, ms[..k]);
    ReadAll(addr, ms[..k], s);
    assert [] + Entries(addr, ms[..k]) == Entries(addr, ms[..k]);
  }

  // ---------- in every run ----------

  lemma {:induction false} LineInLog(log: seq<Down>, i: nat, c: nat, p: Payload)
    requires i < |log| && log[i] == Chat(c, p)
    ensures p in ChatVotes.LinesOf(log, c)
  {
    var n := |log| - 1;
    if i < n {
      LineInLog(log[..n], i, c, p);
    }
  }

  // Everything that is ever enqueued fits a message.
  lemma LogFits(states: seq<State>, actions: seq<Action>, n: nat)
    requires IsRun(states, actions) && n < |states|
    ensures forall i | 0 <= i < |states[n].log| :: DownFits(states[n].log[i])
  {
    var s := states[n];
    ChatTheorems.InvReachable(states, actions, n);
    forall i | 0 <= i < |s.log| && s.log[i].Chat? ensures DownFits(s.log[i]) {
      var c, p := s.log[i].sender, s.log[i].payload;
      LogSender(s, i);
      LineInLog(s.log, i, c, p);
      ChatTheorems.LogFollowsScripts(states, actions, n, c);
      ScriptFits(s, c, p);
    }
  }

  lemma LogSender(s: State, i: nat)
    requires ChatVotes.SendersOk(s) && i < |s.log| && s.log[i].Chat?
    ensures s.log[i].sender < |s.clients|
  {
    assert ChatVotes.Announced(s)[i] == s.log[i];
  }

  lemma ScriptFits(s: State, c: nat, p: Payload)
    requires c < |s.clients| && ChatVotes.ClientOk(s, c) && p in s.clients[c].script
    ensures DownFits(Chat(c, p))
  {
    var k: nat :| k < |s.clients[c].script| && s.clients[c].script[k] == p;
    assert IsLine(s.clients[c].script[k]);
  }

  // In every run, at every moment, whatever part of the bytes written to a client has arrived and
  // however it was cut: its receiver has logged exactly the first of the messages broadcast to it,
  // with their senders' addresses, in order, and has stopped exactly if the commit was among them.
  lemma ReceivedIsBroadcast(states: seq<State>, actions: seq<Action>, n: nat, c: nat,
                            addr: nat -> S.address, chunks: seq<seq<byte>>) returns (k: nat)
    requires IsRun(states, actions) && n < |states| && c < |states[n].clients|
    requires Flatten(chunks) <= Flatten(EncodeAll(addr, states[n].clients[c].written))
    ensures var w := states[n].clients[c].written;
      && Stable(C.NextMessage) && k <= |w|
      && FeedAll(C.Reading(), C.Reader([], true), [], chunks).0 == C.Reader(Entries(addr, w[..k]), Commit !in w[..k])
      && (Flatten(chunks) == Flatten(EncodeAll(addr, w)) ==> k == |w|)
  {
    var x := states[n].clients[c];
    LogFits(states, actions, n);
    ChatTheorems.WrittenIsLogStretch(states, actions, n, c);
    forall i | 0 <= i < |x.written| ensures DownFits(x.written[i]) {
      assert x.written[i] == states[n].log[x.joinPoint + i];
    }
    k := DecodeWhatWasWritten(addr, x.written, chunks);
  }
}
