// The server's side of the byte stream: handle_message and the read loop around it (server.c).
module ServerFraming {
  import opened Bytes
  import opened Framing

  // What handle_message changes: the messages enqueued, the votes counted, server_running.
  datatype Server = Server(outbox: seq<seq<byte>>, finished: nat, running: bool)

  // The 4 address bytes and 2 port bytes of a client, in network order.
  type address = a: seq<byte> | |a| == 6 witness [0, 0, 0, 0, 0, 0]

  function NextLine(bytes: seq<byte>): nat {
    var i := LineEnd(bytes, 0);
    if i < |bytes| then i + 1 else 0
  }

  lemma NextLineStable()
    ensures Stable(NextLine)
  {
    forall a: seq<byte>, b: seq<byte> | NextLine(a) > 0 ensures NextLine(a + b) == NextLine(a) {
      LineEndStable(a, b, 0);
    }
  }

  // A line as the clients send it, and as the server broadcasts it.
  function Line(payload: seq<byte>): seq<byte> {
    [TYPE_REGULAR] + payload + [NEWLINE]
  }

  function Broadcast(from: address, payload: seq<byte>): seq<byte> {
    [TYPE_REGULAR] + from + payload + [NEWLINE]
  }

  const VOTE: seq<byte> := [TYPE_END_EXECUTION, NEWLINE]

  // The vote that completes the count.
  predicate Triggers(expected: nat, s: Server, msg: seq<byte>) {
    msg == VOTE && s.finished + 1 == expected
  }

  // What one complete message does: a line is enqueued under its sender's address unless it
  // would outgrow the buffer, a vote is counted, anything else is discarded.
  function Handle(from: address, expected: nat, s: Server, msg: seq<byte>): Server
  {
    if |msg| >= 2 && msg[0] == TYPE_REGULAR then
      var b := Broadcast(from, msg[1..|msg| - 1]);
      if |b| > MAX_MSG_SIZE then s else s.(outbox := s.outbox + [b])
    else if Triggers(expected, s, msg) then
      Server(s.outbox + [VOTE], s.finished + 1, false)
    else if msg == VOTE then s.(finished := s.finished + 1)
    else s
  }

  ghost function Serving(from: address, expected: nat): Protocol<Server> {
    Protocol(NextLine, (s: Server, m: seq<byte>) => Handle(from, expected, s, m), (s: Server) => s.running)
  }

  // The state all connections share.
  class Shared {
    const expected: nat
    var outbox: seq<seq<byte>>
    var finished: nat
    var running: bool

    constructor (expected: nat)
      ensures this.expected == expected && State() == Server([], 0, true)
    {
      this.expected := expected;
      outbox, finished, running := [], 0, true;
    }

    function State(): Server
      reads this
    {
      Server(outbox, finished, running)
    }

    // enqueue_message copies the first len bytes of the buffer.
    method Enqueue(b: array<byte>, len: nat)
      requires len <= b.Length
      modifies `outbox
      ensures outbox == old(outbox) + [b[..len]]
    {
      outbox := outbox + [b[..len]];
    }
  }

  // One client's buffer: client_buffers[i] and client_data_len[i].
  class Connection {
    const from: address
    const server: Shared
    const buffer: array<byte>
    var dataLen: nat

    constructor (from: address, server: Shared)
      ensures Valid() && Data() == [] && this.from == from && this.server == server && fresh(buffer)
    {
      this.from := from;
      this.server := server;
      buffer := new byte[MAX_MSG_SIZE](_ => 0);
      dataLen := 0;
    }

    predicate Valid()
      reads this
    {
      buffer.Length == MAX_MSG_SIZE && dataLen <= MAX_MSG_SIZE
    }

    function Data(): seq<byte>
      requires Valid()
      reads this, buffer
    {
      buffer[..dataLen]
    }

    // Builds the broadcast of the line in buffer[..msgLen] and enqueues it.
    method Relay(msgLen: nat)
      requires Valid() && 2 <= msgLen <= dataLen && buffer[msgLen - 1] == NEWLINE && msgLen + 6 <= MAX_MSG_SIZE
      modifies server`outbox
      ensures server.outbox == old(server.outbox) + [Broadcast(from, buffer[1..msgLen - 1])]
    {
      var b := new byte[MAX_MSG_SIZE];
      b[0] := TYPE_REGULAR;
      var i := 0;
      while i < 6
        invariant 0 <= i <= 6
        invariant b[0] == TYPE_REGULAR
        invariant forall j | 0 <= j < i :: b[1 + j] == from[j]
        modifies b
      {
        b[1 + i] := from[i];
        i := i + 1;
      }
      MemCpy(b, 7, buffer, 1, msgLen - 1);
      assert b[..msgLen + 6] == Broadcast(from, buffer[1..msgLen - 1]) by {
        var m := b[..msgLen + 6];
        assert m[7..] == buffer[1..msgLen];
        assert buffer[1..msgLen] == buffer[1..msgLen - 1] + [NEWLINE];
        assert m == [m[0]] + m[1..7] + m[7..];
      }
      server.Enqueue(b, msgLen + 6);
    }

    // The part of handle_message that acts on the message in buffer[..msgLen].
    method Act(msgLen: nat) returns (shutdown: bool)
      requires Valid() && 0 < msgLen <= dataLen && buffer[msgLen - 1] == NEWLINE
      modifies server
      ensures server.State() == Handle(from, server.expected, old(server.State()), buffer[..msgLen])
      ensures shutdown <==> Triggers(server.expected, old(server.State()), buffer[..msgLen])
    {
      shutdown := false;
      var kind := buffer[0];
      ghost var msg := buffer[..msgLen];
      assert msg[|msg| - 1] == NEWLINE;
      if kind == TYPE_REGULAR {
        if msgLen + 6 <= MAX_MSG_SIZE {
          Relay(msgLen);
        }
        assert buffer[1..msgLen - 1] == msg[1..|msg| - 1];
      } else if kind == TYPE_END_EXECUTION {
        if msgLen == 2 {
          assert msg == VOTE;
          server.finished := server.finished + 1;
          if server.finished == server.expected {
            var commit := new byte[][TYPE_END_EXECUTION, NEWLINE];
            assert commit[..2] == VOTE;
            server.Enqueue(commit, 2);
            server.running := false;
            shutdown := true;
          }
        }
      }
    }

    // handle_message: the length of the message handled, 0 if it is not complete, -1 if there
    // are no data, -2 on the last vote. The rest of the data has been moved to the front.
    method HandleMessage() returns (r: int)
      requires Valid()
      modifies server, buffer
      ensures NextLine(old(Data())) == 0 ==>
        && r == (if dataLen == 0 then -1 else 0)
        && server.State() == old(server.State()) && Data() == old(Data())
      ensures NextLine(old(Data())) > 0 ==>
        var n := NextLine(old(Data()));
        && r == (if Triggers(server.expected, old(server.State()), old(Data())[..n]) then -2 else n)
        && server.State() == Handle(from, server.expected, old(server.State()), old(Data())[..n])
        && n <= dataLen && buffer[..dataLen - n] == old(Data())[n..]
    {
      if dataLen <= 0 {
        return -1;
      }
      var newline := MemChr(buffer, 0, dataLen);
      if newline == dataLen {
        return 0;
      }
      var msgLen := newline + 1;
      assert old(Data())[..msgLen] == buffer[..msgLen];
      assert old(Data())[msgLen..] == buffer[msgLen..dataLen];
      var shutdown := Act(msgLen);
      if dataLen > msgLen {
        MoveToFront(buffer, msgLen, dataLen);
      }
      return if shutdown then -2 else msgLen;
    }

    // Where the read loop stands after handle_message has returned r.
    ghost predicate Turned(r: int, whole: (Server, seq<byte>))
      requires Stable(NextLine)
      reads this, server, buffer
    {
      && Valid()
      && (r == -2 <==> !server.running)
      && r <= dataLen
      && (r > 0 ==> Feed(Serving(from, server.expected), server.State(), buffer[..dataLen - r]) == whole)
      && (r <= 0 ==> server.State() == whole.0 && (server.running ==> Data() == whole.1))
    }

    method Turn(ghost whole: (Server, seq<byte>)) returns (r: int)
      requires Stable(NextLine) && Valid() && server.running
      requires Feed(Serving(from, server.expected), server.State(), Data()) == whole
      modifies server, buffer
      ensures Turned(r, whole)
    {
      ghost var p := Serving(from, server.expected);
      ghost var s, data := server.State(), Data();
      ghost var n := NextLine(data);
      r := HandleMessage();
      if n > 0 {
        assert Feed(p, s, data) == Feed(p, Handle(from, server.expected, s, data[..n]), data[n..]);
      } else {
        assert Feed(p, s, data) == (s, data);
      }
    }

    // One turn of the read loop, for a read that returned the bytes of chunk: everything
    // complete is handled, and the rest is kept. A read of nothing is a disconnect.
    method OnReadable(chunk: seq<byte>) returns (r: int)
      requires Valid() && server.running && dataLen + |chunk| <= MAX_MSG_SIZE
      modifies this`dataLen, server, buffer
      ensures Valid() && Stable(NextLine)
      ensures chunk != [] ==>
        var f := Feed(Serving(from, server.expected), old(server.State()), old(Data()) + chunk);
        server.State() == f.0 && (server.running ==> Data() == f.1)
      ensures chunk == [] ==> r == -1 && server.State() == old(server.State()) && Data() == old(Data())
      ensures r == -2 <==> !server.running
    {
      NextLineStable();
      if chunk == [] {
        return -1;
      }
      ReadInto(buffer, dataLen, chunk);
      dataLen := dataLen + |chunk|;
      assert Data() == old(Data()) + chunk;
      ghost var whole := Feed(Serving(from, server.expected), server.State(), Data());
      r := Turn(whole);
      while r > 0
        invariant Turned(r, whole)
        decreases if r > 0 then dataLen else -1
      {
        dataLen := dataLen - r;
        r := Turn(whole);
      }
    }
  }

  // The lines and votes a client may send.
  ghost predicate IsMessage(m: seq<byte>) {
    m != [] && NextLine(m) == |m| <= MAX_MSG_SIZE
  }

  ghost predicate AreMessages(msgs: seq<seq<byte>>) {
    forall i | 0 <= i < |msgs| :: IsMessage(msgs[i])
  }
}
