// The server's read loop with all its clients: their reads interleave in any order, and every
// message is handled on the one shared state (server.c).
module ManyClients {
  import opened Bytes
  import opened Seqs
  import opened Framing
  import opened ServerFraming

  // A message and the connection it came by.
  datatype Arrival = Arrival(conn: nat, msg: seq<byte>)

  // Handling the arrivals one by one, for as long as the server runs.
  ghost function HandleAll(from: seq<address>, expected: nat, s: Server, tr: seq<Arrival>): Server
    requires forall j | 0 <= j < |tr| :: tr[j].conn < |from|
  {
    if tr == [] then s
    else
      var t, a := HandleAll(from, expected, s, tr[..|tr| - 1]), tr[|tr| - 1];
      if t.running then Handle(from[a.conn], expected, t, a.msg) else t
  }

  // The messages of one connection, in order.
  function Of(tr: seq<Arrival>, i: nat): seq<seq<byte>> {
    if tr == [] then []
    else Of(tr[..|tr| - 1], i) + if tr[|tr| - 1].conn == i then [tr[|tr| - 1].msg] else []
  }

  function Tagged(i: nat, ms: seq<seq<byte>>): (tr: seq<Arrival>)
    ensures |tr| == |ms| && forall j | 0 <= j < |tr| :: tr[j] == Arrival(i, ms[j])
  {
    seq(|ms|, j requires 0 <= j < |ms| => Arrival(i, ms[j]))
  }

  ghost predicate FromAll(tr: seq<Arrival>, n: nat) {
    forall j | 0 <= j < |tr| :: tr[j].conn < n
  }

  lemma {:induction false} OfAppend(a: seq<Arrival>, b: seq<Arrival>, i: nat)
    ensures Of(a + b, i) == Of(a, i) + Of(b, i)
    decreases |b|
  {
    if b == [] {
      assert a + b == a;
    } else {
      var n := |b| - 1;
      assert (a + b)[..|a + b| - 1] == a + b[..n];
      OfAppend(a, b[..n], i);
      Associative(Of(a, i), Of(b[..n], i), if b[n].conn == i then [b[n].msg] else []);
    }
  }

  lemma {:induction false} OfTagged(i: nat, ms: seq<seq<byte>>, j: nat)
    ensures Of(Tagged(i, ms), j) == if i == j then ms else []
    decreases |ms|
  {
    if ms != [] {
      var n := |ms| - 1;
      assert Tagged(i, ms)[..n] == Tagged(i, ms[..n]);
      OfTagged(i, ms[..n], j);
      assert ms == ms[..n] + [ms[n]];
    }
  }

  // What one connection's read handles is the next stretch of the arrivals.
  lemma {:induction false} HandleMore(from: seq<address>, expected: nat, s: Server, tr: seq<Arrival>, i: nat,
                                      ms: seq<seq<byte>>)
    requires i < |from| && FromAll(tr, |from|)
    ensures FromAll(tr + Tagged(i, ms), |from|)
    ensures HandleAll(from, expected, s, tr + Tagged(i, ms)) ==
      ActAll(Serving(from[i], expected), HandleAll(from, expected, s, tr), ms)
    decreases |ms|
  {
    if ms == [] {
      assert tr + Tagged(i, ms) == tr;
    } else {
      var more := tr + [Arrival(i, ms[0])];
      assert more[..|tr|] == tr;
      HandleMore(from, expected, s, more, i, ms[1..]);
      assert tr + Tagged(i, ms) == more + Tagged(i, ms[1..]);
      if !HandleAll(from, expected, s, tr).running {
        StaysStopped(Serving(from[i], expected), HandleAll(from, expected, s, tr), ms[1..]);
      }
    }
  }

  lemma StaysStopped(p: Protocol<Server>, s: Server, ms: seq<seq<byte>>)
    requires !p.open(s)
    ensures ActAll(p, s, ms) == s
  {
  }

  // ---------- where one connection stands in its stream ----------

  lemma {:induction false} FlattenSplit(msgs: seq<seq<byte>>, k: nat)
    requires k <= |msgs|
    ensures Flatten(msgs) == Flatten(msgs[..k]) + Flatten(msgs[k..])
    decreases |msgs|
  {
    if k > 0 {
      FlattenSplit(msgs[1..], k - 1);
      assert msgs[..k][1..] == msgs[1..][..k - 1];
      assert msgs[1..][k - 1..] == msgs[k..];
      Associative(msgs[0], Flatten(msgs[..k][1..]), Flatten(msgs[k..]));
    } else {
      assert msgs[..0] == [] && msgs[0..] == msgs;
    }
  }

  // After got bytes, k messages are complete and part is the start of the next.
  ghost predicate Stands(msgs: seq<seq<byte>>, got: nat, k: nat, part: seq<byte>) {
    && k <= |msgs|
    && got == |Flatten(msgs[..k])| + |part|
    && part <= Flatten(msgs[k..])
    && if k == |msgs| then part == [] else |part| < |msgs[k]|
  }

  lemma StandsAtStart(msgs: seq<seq<byte>>)
    requires AreMessages(msgs)
    ensures Stands(msgs, 0, 0, [])
  {
    assert msgs[..0] == [];
    assert msgs != [] ==> IsMessage(msgs[0]);
  }

  // All of the stream has been read exactly if all of its messages are complete.
  lemma AllComplete(msgs: seq<seq<byte>>, got: nat, k: nat, part: seq<byte>)
    requires AreMessages(msgs) && Stands(msgs, got, k, part)
    ensures got <= |Flatten(msgs)|
    ensures got == |Flatten(msgs)| ==> k == |msgs| && part == []
  {
    FlattenSplit(msgs, k);
    if k < |msgs| {
      assert Flatten(msgs[k..]) == msgs[k] + Flatten(msgs[k..][1..]);
    }
  }

  // There is room for the next read.
  lemma RoomLeft(msgs: seq<seq<byte>>, got: nat, k: nat, part: seq<byte>)
    requires AreMessages(msgs) && Stands(msgs, got, k, part)
    ensures |part| < MAX_MSG_SIZE
  {
    assert k < |msgs| ==> IsMessage(msgs[k]);
  }

  // Reading n bytes more completes some messages.
  lemma StandsFurther(msgs: seq<seq<byte>>, got: nat, k: nat, part: seq<byte>, n: nat)
    returns (j: nat, rest: seq<byte>)
    requires AreMessages(msgs) && Stands(msgs, got, k, part) && got + n <= |Flatten(msgs)|
    ensures k <= j <= |msgs| && Stands(msgs, got + n, j, rest)
    ensures part + Flatten(msgs)[got..got + n] == Flatten(msgs[k..j]) + rest
  {
    hide Flatten, AreMessages;
    var tail, m := msgs[k..], |part| + n;
    TailMessages(msgs, k);
    FlattenSplit(msgs, k);
    NextBytes(Flatten(msgs[..k]), Flatten(tail), part, n);
    var i;
    if m == |Flatten(tail)| {
      i, rest := |tail|, [];
      assert tail[..i] == tail;
    } else {
      i, rest := WhereItEnds(tail, m);
    }
    j := k + i;
    Regrouped(msgs, k, i, rest, m);
  }

  lemma TailMessages(msgs: seq<seq<byte>>, k: nat)
    requires AreMessages(msgs) && k <= |msgs|
    ensures forall i | 0 <= i < |msgs[k..]| :: msgs[k..][i] != []
  {
    forall i | 0 <= i < |msgs[k..]| ensures msgs[k..][i] != [] {
      assert IsMessage(msgs[k + i]);
    }
  }

  lemma NextBytes(front: seq<byte>, tail: seq<byte>, part: seq<byte>, n: nat)
    requires part <= tail && |part| + n <= |tail|
    ensures part + (front + tail)[|front| + |part|..|front| + |part| + n] == tail[..|part| + n]
  {
  }

  lemma Regrouped(msgs: seq<seq<byte>>, k: nat, i: nat, rest: seq<byte>, m: nat)
    requires k + i <= |msgs| && m <= |Flatten(msgs[k..])|
    requires Flatten(msgs[k..])[..m] == Flatten(msgs[k..][..i]) + rest
    requires if k + i == |msgs| then rest == [] else |rest| < |msgs[k + i]|
    ensures msgs[k..][..i] == msgs[k..k + i]
    ensures Stands(msgs, |Flatten(msgs[..k])| + m, k + i, rest)
  {
    var tail := msgs[k..];
    FlattenSplit(tail, i);
    FlattenSplit(msgs[..k + i], k);
    assert tail[..i] == msgs[..k + i][k..];
    assert msgs[..k + i][..k] == msgs[..k];
    assert tail[i..] == msgs[k + i..];
    assert Flatten(tail)[|Flatten(tail[..i])|..] == Flatten(tail[i..]);
    assert rest == Flatten(tail)[..m][|Flatten(tail[..i])|..];
    assert |Flatten(tail[..i])| + |rest| == m;
  }

  // The part of a message that is kept is not a message.
  lemma PartWaits(msgs: seq<seq<byte>>, got: nat, k: nat, part: seq<byte>)
    requires AreMessages(msgs) && Stands(msgs, got, k, part)
    ensures Stable(NextLine) && NextLine(part) == 0
  {
    NextLineStable();
    if k < |msgs| {
      assert IsMessage(msgs[k]);
      assert Flatten(msgs[k..]) == msgs[k] + Flatten(msgs[k..][1..]);
      assert part == msgs[k][..|part|];
      PartIsIncomplete(NextLine, msgs[k], |part|);
    }
  }

  // ---------- the loop ----------

  // Connection c has read got bytes of its stream, and k of its messages have been handled.
  ghost predicate Connected(c: Connection, msgs: seq<seq<byte>>, got: nat, k: nat)
    reads c, c.buffer
  {
    c.Valid() && Stands(msgs, got, k, c.Data())
  }

  // One read of connection c: the messages it completes are handled, all at once.
  method ReadOne(c: Connection, stream: seq<byte>, ghost msgs: seq<seq<byte>>, got: nat, ghost k: nat, size: nat)
    returns (next: nat, ghost j: nat)
    requires AreMessages(msgs) && stream == Flatten(msgs) && Connected(c, msgs, got, k)
    requires c.server.running && got < |stream| && size > 0
    modifies c`dataLen, c.server, c.buffer
    ensures c.Valid() && got < next <= |stream| && k <= j <= |msgs|
    ensures c.server.State() == ActAll(Serving(c.from, c.server.expected), old(c.server.State()), msgs[k..j])
    ensures c.server.running ==> Connected(c, msgs, next, j)
    ensures next == |stream| ==> j == |msgs|
  {
    RoomLeft(msgs, got, k, c.Data());
    var n := Min(size, Min(MAX_MSG_SIZE - c.dataLen, |stream| - got));
    ghost var rest;
    j, rest := StandsFurther(msgs, got, k, c.Data(), n);
    PartWaits(msgs, got + n, j, rest);
    AllComplete(msgs, got + n, j, rest);
    WholeMessages(msgs, k, j);
    FeedMessages(Serving(c.from, c.server.expected), c.server.State(), msgs[k..j], rest);
    var r := c.OnReadable(stream[got..got + n]);
    next := got + n;
  }

  lemma WholeMessages(msgs: seq<seq<byte>>, k: nat, j: nat)
    requires AreMessages(msgs) && k <= j <= |msgs|
    ensures forall i | 0 <= i < |msgs[k..j]| :: Complete(NextLine, msgs[k..j][i])
  {
    forall i | 0 <= i < j - k ensures Complete(NextLine, msgs[k..j][i]) {
      assert IsMessage(msgs[k + i]);
    }
  }

  lemma {:induction false} ActAllSplit<S>(p: Protocol<S>, s: S, a: seq<seq<byte>>, b: seq<seq<byte>>)
    ensures ActAll(p, ActAll(p, s, a), b) == ActAll(p, s, a + b)
    decreases |a|
  {
    if a == [] {
      assert a + b == b;
    } else if p.open(s) {
      ActAllSplit(p, p.act(s, a[0]), a[1..], b);
      assert (a + b)[1..] == a[1..] + b;
    }
  }

  // One client alone, starting from server state s.
  ghost predicate ServedUpTo(c: Connection, s: Server, stream: seq<byte>, msgs: seq<seq<byte>>, got: nat, k: nat)
    reads c, c.server, c.buffer
  {
    && c.Valid() && got <= |stream| && k <= |msgs| && (got == |stream| ==> k == |msgs|)
    && c.server.State() == ActAll(Serving(c.from, c.server.expected), s, msgs[..k])
    && (c.server.running ==> Connected(c, msgs, got, k))
  }

  method ServeOne(c: Connection, ghost s: Server, stream: seq<byte>, ghost msgs: seq<seq<byte>>, got: nat, ghost k: nat,
                  size: nat) returns (next: nat, ghost j: nat)
    requires AreMessages(msgs) && stream == Flatten(msgs) && ServedUpTo(c, s, stream, msgs, got, k)
    requires c.server.running && got < |stream| && size > 0
    modifies c`dataLen, c.server, c.buffer
    ensures got < next && ServedUpTo(c, s, stream, msgs, next, j)
  {
    hide Flatten, ActAll, Serving, Stands;
    next, j := ReadOne(c, stream, msgs, got, k, size);
    ActAllSplit(Serving(c.from, c.server.expected), s, msgs[..k], msgs[k..j]);
    Stretch(msgs, k, j);
  }

  // Serving one client whose stream arrives in reads of whatever size the network grants: every
  // read makes progress, and once all of it has arrived exactly its messages have been handled.
  method Serve(c: Connection, stream: seq<byte>, ghost msgs: seq<seq<byte>>, sizes: seq<nat>)
    returns (got: nat, ghost k: nat)
    requires c.Valid() && c.Data() == [] && c.server.running
    requires AreMessages(msgs) && stream == Flatten(msgs)
    requires forall i | 0 <= i < |sizes| :: sizes[i] > 0
    modifies c`dataLen, c.server, c.buffer
    ensures c.Valid() && got <= |stream| && k <= |msgs|
    ensures c.server.State() == ActAll(Serving(c.from, c.server.expected), old(c.server.State()), msgs[..k])
    ensures got < |sizes| && c.server.running ==> got == |stream|
    ensures got == |stream| ==> k == |msgs| && (c.server.running ==> c.Data() == [])
  {
    ghost var s := c.server.State();
    got, k := 0, 0;
    StandsAtStart(msgs);
    AllComplete(msgs, 0, 0, []);
    var i := 0;
    while i < |sizes| && got < |stream| && c.server.running
      invariant ServedUpTo(c, s, stream, msgs, got, k) && i <= got && i <= |sizes|
    {
      got, k := ServeOne(c, s, stream, msgs, got, k, sizes[i]);
      i := i + 1;
    }
    if c.server.running {
      AllComplete(msgs, got, k, c.Data());
    }
  }

  ghost function Addresses(conns: seq<Connection>): (from: seq<address>)
    ensures |from| == |conns| && forall i | 0 <= i < |conns| :: from[i] == conns[i].from
  {
    seq(|conns|, i requires 0 <= i < |conns| => conns[i].from)
  }

  // Different connections of one server.
  ghost predicate Together(conns: seq<Connection>, server: Shared) {
    && (forall i | 0 <= i < |conns| :: conns[i].server == server)
    && (forall i, j | 0 <= i < j < |conns| :: conns[i] != conns[j] && conns[i].buffer != conns[j].buffer)
  }

  // How many of the calls of read are on connection i; a call names its connection and its size.
  function ReadsOf(calls: seq<(nat, nat)>, i: nat): nat {
    if calls == [] then 0
    else ReadsOf(calls[..|calls| - 1], i) + if calls[|calls| - 1].0 == i then 1 else 0
  }

  // What the arrivals tr have to do with the streams: of each, they hold the messages completed.
  ghost predicate Arrived(msgs: seq<seq<seq<byte>>>, ks: seq<nat>, tr: seq<Arrival>) {
    && |ks| == |msgs| && FromAll(tr, |msgs|)
    && forall i | 0 <= i < |msgs| :: ks[i] <= |msgs[i]| && Of(tr, i) == msgs[i][..ks[i]]
  }

  ghost predicate AllConnected(conns: seq<Connection>, msgs: seq<seq<seq<byte>>>, got: seq<nat>, ks: seq<nat>)
    reads conns, set c | c in conns :: c.buffer
  {
    && |conns| == |msgs| == |got| == |ks|
    && forall i | 0 <= i < |conns| :: Connected(conns[i], msgs[i], got[i], ks[i])
  }

  // Every read of a connection has made progress, unless its stream was at its end.
  ghost predicate Progress(streams: seq<seq<byte>>, got: seq<nat>, calls: seq<(nat, nat)>) {
    && |got| == |streams|
    && forall i | 0 <= i < |got| :: got[i] <= |streams[i]| && got[i] >= Min(|streams[i]|, ReadsOf(calls, i))
  }

  ghost predicate Streaming(streams: seq<seq<byte>>, msgs: seq<seq<seq<byte>>>) {
    && |streams| == |msgs|
    && forall i | 0 <= i < |msgs| :: AreMessages(msgs[i]) && streams[i] == Flatten(msgs[i])
  }

  // The loop after some reads, from server state s.
  ghost predicate LoopOk(conns: seq<Connection>, server: Shared, s: Server, streams: seq<seq<byte>>,
                           msgs: seq<seq<seq<byte>>>, got: seq<nat>, ks: seq<nat>, tr: seq<Arrival>,
                           calls: seq<(nat, nat)>)
    reads server, conns, set c | c in conns :: c.buffer
  {
    && Together(conns, server) && Streaming(streams, msgs) && |conns| == |msgs|
    && Arrived(msgs, ks, tr)
    && server.State() == HandleAll(Addresses(conns), server.expected, s, tr)
    && (server.running ==> AllConnected(conns, msgs, got, ks) && Progress(streams, got, calls))
  }

  // One read: nothing to do if the connection's stream is at its end.
  method ReadNext(conns: seq<Connection>, server: Shared, ghost s: Server, streams: seq<seq<byte>>,
                  ghost msgs: seq<seq<seq<byte>>>, got: seq<nat>, ghost ks: seq<nat>, ghost tr: seq<Arrival>,
                  ghost calls: seq<(nat, nat)>, c: Connection, i: nat, size: nat)
    returns (got': seq<nat>, ghost ks': seq<nat>, ghost tr': seq<Arrival>)
    requires LoopOk(conns, server, s, streams, msgs, got, ks, tr, calls) && server.running
    requires i < |conns| && conns[i] == c && size > 0
    modifies server, c`dataLen, c.buffer
    ensures LoopOk(conns, server, s, streams, msgs, got', ks', tr', calls + [(i, size)])
  {
    got', ks', tr' := got, ks, tr;
    if got[i] < |streams[i]| {
      var next;
      ghost var j;
      next, j := ReadOne(c, streams[i], msgs[i], got[i], ks[i], size);
      got', ks', tr' := got[i := next], ks[i := j], tr + Tagged(i, msgs[i][ks[i]..j]);
      HandleMore(Addresses(conns), server.expected, s, tr, i, msgs[i][ks[i]..j]);
      ArrivedMore(msgs, ks, tr, i, j);
    }
    ProgressMade(streams, got, calls, i, size, got');
  }

  lemma ArrivedMore(msgs: seq<seq<seq<byte>>>, ks: seq<nat>, tr: seq<Arrival>, i: nat, j: nat)
    requires Arrived(msgs, ks, tr) && i < |msgs| && ks[i] <= j <= |msgs[i]|
    ensures Arrived(msgs, ks[i := j], tr + Tagged(i, msgs[i][ks[i]..j]))
  {
    hide Of;
    var ms := msgs[i][ks[i]..j];
    forall l | 0 <= l < |msgs| ensures Of(tr + Tagged(i, ms), l) == msgs[l][..ks[i := j][l]] {
      OfAppend(tr, Tagged(i, ms), l);
      OfTagged(i, ms, l);
      Stretch(msgs[i], ks[i], j);
      assert Of(tr, l) + [] == Of(tr, l);
    }
  }

  lemma Stretch(ms: seq<seq<byte>>, k: nat, j: nat)
    requires k <= j <= |ms|
    ensures ms[..k] + ms[k..j] == ms[..j]
  {
  }

  lemma ProgressMade(streams: seq<seq<byte>>, got: seq<nat>, calls: seq<(nat, nat)>, i: nat, size: nat, got': seq<nat>)
    requires Progress(streams, got, calls) && i < |got|
    requires |got'| == |got| && got' == got[i := got'[i]] && got[i] <= got'[i] <= |streams[i]|
    requires got[i] < got'[i] || got[i] == |streams[i]|
    ensures Progress(streams, got', calls + [(i, size)])
  {
    assert (calls + [(i, size)])[..|calls|] == calls;
  }

  // Serving several clients, whose streams arrive in reads of whatever sizes and in whatever order
  // the network grants. The messages handled are an interleaving tr of what the clients sent, of
  // each client its first ones in order; every read makes progress; and of a client whose whole
  // stream has arrived, all have been handled and nothing is kept.
  method ServeAll(conns: seq<Connection>, server: Shared, streams: seq<seq<byte>>,
                  ghost msgs: seq<seq<seq<byte>>>, calls: seq<(nat, nat)>)
    returns (got: seq<nat>, ghost ks: seq<nat>, ghost tr: seq<Arrival>)
    requires Together(conns, server) && Streaming(streams, msgs) && |conns| == |msgs| && server.running
    requires forall i | 0 <= i < |conns| :: conns[i].Valid() && conns[i].Data() == []
    requires forall m | 0 <= m < |calls| :: calls[m].0 < |conns| && calls[m].1 > 0
    modifies server, conns, set c | c in conns :: c.buffer
    ensures Arrived(msgs, ks, tr)
    ensures server.State() == HandleAll(Addresses(conns), server.expected, old(server.State()), tr)
    ensures server.running ==> Progress(streams, got, calls)
    ensures server.running ==> forall i | 0 <= i < |conns| && got[i] == |streams[i]| ::
      ks[i] == |msgs[i]| && conns[i].Valid() && conns[i].Data() == []
  {
    got, ks, tr := seq(|conns|, _ => 0), seq(|conns|, _ => 0), [];
    LoopStarts(conns, server, streams, msgs, got, ks);
    ghost var s := server.State();
    assert calls[..0] == [];
    var m := 0;
    while m < |calls| && server.running
      invariant 0 <= m <= |calls|
      invariant LoopOk(conns, server, s, streams, msgs, got, ks, tr, calls[..m])
    {
      assert calls[..m + 1] == calls[..m] + [(calls[m].0, calls[m].1)];
      got, ks, tr := ReadNext(conns, server, s, streams, msgs, got, ks, tr, calls[..m], conns[calls[m].0],
                              calls[m].0, calls[m].1);
      m := m + 1;
    }
    if server.running {
      LoopEnds(conns, server, s, streams, msgs, got, ks, tr, calls[..m]);
      assert calls[..m] == calls;
    }
  }

  lemma LoopStarts(conns: seq<Connection>, server: Shared, streams: seq<seq<byte>>, msgs: seq<seq<seq<byte>>>,
                   got: seq<nat>, ks: seq<nat>)
    requires Together(conns, server) && Streaming(streams, msgs) && |conns| == |msgs| == |got| == |ks|
    requires forall i | 0 <= i < |conns| :: conns[i].Valid() && conns[i].Data() == []
    requires forall i | 0 <= i < |conns| :: got[i] == 0 && ks[i] == 0
    ensures LoopOk(conns, server, server.State(), streams, msgs, got, ks, [], [])
  {
    forall i | 0 <= i < |conns| ensures Connected(conns[i], msgs[i], got[i], ks[i]) {
      StandsAtStart(msgs[i]);
    }
  }

  lemma LoopEnds(conns: seq<Connection>, server: Shared, s: Server, streams: seq<seq<byte>>,
                 msgs: seq<seq<seq<byte>>>, got: seq<nat>, ks: seq<nat>, tr: seq<Arrival>, calls: seq<(nat, nat)>)
    requires LoopOk(conns, server, s, streams, msgs, got, ks, tr, calls) && server.running
    ensures |got| == |conns|
    ensures forall i | 0 <= i < |conns| && got[i] == |streams[i]| ::
      ks[i] == |msgs[i]| && conns[i].Valid() && conns[i].Data() == []
  {
    forall i | 0 <= i < |conns| && got[i] == |streams[i]|
      ensures ks[i] == |msgs[i]| && conns[i].Valid() && conns[i].Data() == []
    {
      assert Connected(conns[i], msgs[i], got[i], ks[i]);
      AllComplete(msgs[i], got[i], ks[i], conns[i].Data());
    }
  }
}
