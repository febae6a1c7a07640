// Reading a byte stream in arbitrary pieces: what server.c's read loop and client.c's receiver
// loop have in common. A protocol says how long the first message of a buffer is (0 while it is
// incomplete), what handling a message does, and when reading goes on.
module Framing {
  import opened Bytes
  import opened Seqs

  const MAX_MSG_SIZE: nat := 1024
  const TYPE_REGULAR: byte := 0
  const TYPE_END_EXECUTION: byte := 1
  const NEWLINE: byte := 10
  const RANDOM_BYTES_LEN: nat := 10

  datatype Protocol<!S> = Protocol(next: seq<byte> -> nat, act: (S, seq<byte>) -> S, open: S -> bool)

  // A message once complete stays the same message, whatever follows it.
  ghost predicate Stable(next: seq<byte> -> nat) {
    && (forall a: seq<byte> :: next(a) <= |a|)
    && (forall a: seq<byte>, b: seq<byte> :: next(a) > 0 ==> next(a + b) == next(a))
  }

  // Handles every complete message in the buffer; what is left is the start of the next one.
  ghost function Feed<S>(p: Protocol<S>, s: S, bytes: seq<byte>): (S, seq<byte>)
    requires Stable(p.next)
    decreases |bytes|
  {
    var n := p.next(bytes);
    if !p.open(s) || n == 0 then (s, bytes)
    else Feed(p, p.act(s, bytes[..n]), bytes[n..])
  }

  // One read after another, the partial message being kept in between.
  ghost function FeedAll<S>(p: Protocol<S>, s: S, kept: seq<byte>, chunks: seq<seq<byte>>): (S, seq<byte>)
    requires Stable(p.next)
    decreases |chunks|
  {
    if chunks == [] then (s, kept)
    else
      var r := Feed(p, s, kept + chunks[0]);
      FeedAll(p, r.0, r.1, chunks[1..])
  }

  function Flatten(parts: seq<seq<byte>>): seq<byte> {
    if parts == [] then [] else parts[0] + Flatten(parts[1..])
  }

  // Handling messages one by one for as long as reading goes on.
  ghost function ActAll<S>(p: Protocol<S>, s: S, msgs: seq<seq<byte>>): S
    decreases |msgs|
  {
    if msgs == [] || !p.open(s) then s else ActAll(p, p.act(s, msgs[0]), msgs[1..])
  }

  ghost predicate Complete(next: seq<byte> -> nat, m: seq<byte>) {
    m != [] && next(m) == |m|
  }

  lemma {:induction false} FeedInTwo<S>(p: Protocol<S>, s: S, a: seq<byte>, b: seq<byte>)
    requires Stable(p.next)
    ensures var r := Feed(p, s, a); Feed(p, r.0, r.1 + b) == Feed(p, s, a + b)
    decreases |a|
  {
    var n := p.next(a);
    if p.open(s) && n > 0 {
      assert p.next(a + b) == n;
      assert (a + b)[..n] == a[..n];
      assert (a + b)[n..] == a[n..] + b;
      FeedInTwo(p, p.act(s, a[..n]), a[n..], b);
    }
  }

  lemma {:induction false} FeedSettles<S>(p: Protocol<S>, s: S, a: seq<byte>)
    requires Stable(p.next)
    ensures var r := Feed(p, s, a); Feed(p, r.0, r.1) == r
    decreases |a|
  {
    var n := p.next(a);
    if p.open(s) && n > 0 {
      FeedSettles(p, p.act(s, a[..n]), a[n..]);
    }
  }

  // Chunk independence: however the stream is cut, the outcome is that of reading it at once.
  lemma {:induction false} ChunksDoNotMatter<S>(p: Protocol<S>, s: S, kept: seq<byte>, chunks: seq<seq<byte>>)
    requires Stable(p.next) && Feed(p, s, kept) == (s, kept)
    ensures FeedAll(p, s, kept, chunks) == Feed(p, s, kept + Flatten(chunks))
    decreases |chunks|
  {
    if chunks == [] {
      assert kept + [] == kept;
    } else {
      var r := Feed(p, s, kept + chunks[0]);
      FeedSettles(p, s, kept + chunks[0]);
      ChunksDoNotMatter(p, r.0, r.1, chunks[1..]);
      FeedInTwo(p, s, kept + chunks[0], Flatten(chunks[1..]));
      assert kept + chunks[0] + Flatten(chunks[1..]) == kept + Flatten(chunks) by {
        Associative(kept, chunks[0], Flatten(chunks[1..]));
      }
    }
  }

  // A stream of complete messages, followed by part of one, is handled message by message.
  lemma {:induction false} FeedMessages<S>(p: Protocol<S>, s: S, msgs: seq<seq<byte>>, part: seq<byte>)
    requires Stable(p.next) && p.next(part) == 0
    requires forall i | 0 <= i < |msgs| :: Complete(p.next, msgs[i])
    ensures Feed(p, s, Flatten(msgs) + part).0 == ActAll(p, s, msgs)
    ensures p.open(ActAll(p, s, msgs)) ==> Feed(p, s, Flatten(msgs) + part).1 == part
    decreases |msgs|
  {
    if msgs == [] {
      assert Flatten(msgs) + part == part;
    } else if p.open(s) {
      var m, rest := msgs[0], Flatten(msgs[1..]) + part;
      assert Complete(p.next, m);
      assert Flatten(msgs) + part == m + rest;
      assert p.next(m + rest) == |m|;
      assert (m + rest)[..|m|] == m && (m + rest)[|m|..] == rest;
      FeedMessages(p, p.act(s, m), msgs[1..], part);
    }
  }

  // A proper prefix of a complete message is incomplete.
  lemma PartIsIncomplete(next: seq<byte> -> nat, m: seq<byte>, k: nat)
    requires Stable(next) && Complete(next, m) && k < |m|
    ensures next(m[..k]) == 0
  {
    var front, back := m[..k], m[k..];
    assert front + back == m;
    assert next(front) > 0 ==> next(front + back) == next(front);
  }

  // Where a prefix of the stream ends: after some whole messages, inside the next.
  lemma {:induction false} WhereItEnds(msgs: seq<seq<byte>>, n: nat) returns (k: nat, part: seq<byte>)
    requires n < |Flatten(msgs)| && forall i | 0 <= i < |msgs| :: msgs[i] != []
    ensures k < |msgs| && |part| < |msgs[k]| && part == msgs[k][..|part|]
    ensures Flatten(msgs)[..n] == Flatten(msgs[..k]) + part
    decreases |msgs|
  {
    var m, rest := msgs[0], Flatten(msgs[1..]);
    if n < |m| {
      k, part := 0, m[..n];
      assert Flatten(msgs)[..n] == part;
    } else {
      k, part := WhereItEnds(msgs[1..], n - |m|);
      assert msgs[..k + 1][1..] == msgs[1..][..k];
      assert Flatten(msgs)[..n] == m + rest[..n - |m|];
      assert m + (Flatten(msgs[1..][..k]) + part) == m + Flatten(msgs[1..][..k]) + part;
      k := k + 1;
    }
  }

  // After any part of a stream of messages of bounded size has been read, the messages handled are
  // the first ones, in order, and less than one message is kept, so that the next read has room.
  lemma RoomForNextRead<S>(p: Protocol<S>, s: S, msgs: seq<seq<byte>>, got: seq<byte>) returns (k: nat)
    requires Stable(p.next) && got <= Flatten(msgs)
    requires forall i | 0 <= i < |msgs| :: Complete(p.next, msgs[i]) && |msgs[i]| <= MAX_MSG_SIZE
    ensures k <= |msgs| && Feed(p, s, got).0 == ActAll(p, s, msgs[..k])
    ensures p.open(Feed(p, s, got).0) ==> |Feed(p, s, got).1| < MAX_MSG_SIZE
    ensures got == Flatten(msgs) ==> k == |msgs| && (p.open(Feed(p, s, got).0) ==> Feed(p, s, got).1 == [])
  {
    if got == Flatten(msgs) {
      k := |msgs|;
      assert msgs[..k] == msgs;
      FeedMessages(p, s, msgs, []);
      assert Flatten(msgs) + [] == got;
    } else {
      assert forall i | 0 <= i < |msgs| :: Complete(p.next, msgs[i]) && msgs[i] != [];
      var part;
      k, part := WhereItEnds(msgs, |got|);
      assert got == Flatten(msgs[..k]) + part && |part| < MAX_MSG_SIZE by {
        assert got == Flatten(msgs)[..|got|];
      }
      assert Complete(p.next, msgs[k]);
      PartIsIncomplete(p.next, msgs[k], |part|);
      FeedMessages(p, s, msgs[..k], part);
    }
  }

  lemma ReadFurther<S>(p: Protocol<S>, s: S, stream: seq<byte>, got: nat, n: nat)
    requires Stable(p.next) && got + n <= |stream|
    ensures var f := Feed(p, s, stream[..got]);
      Feed(p, f.0, f.1 + stream[got..got + n]) == Feed(p, s, stream[..got + n])
  {
    FeedInTwo(p, s, stream[..got], stream[got..got + n]);
    assert stream[..got] + stream[got..got + n] == stream[..got + n];
  }

  lemma Subslice(a: array<byte>, at: nat, n: nat, i: nat, j: nat)
    requires at + n <= a.Length && i <= j <= n
    ensures a[at..at + n][i..j] == a[at + i..at + j]
  {
    var m := a[at..at + n];
    forall k | 0 <= k < j - i ensures m[i..j][k] == a[at + i..at + j][k] {
      assert m[i..j][k] == m[i + k];
    }
  }

  // ---------- newlines ----------

  // The first newline at or after position from, or the end of the buffer: memchr.
  function LineEnd(bytes: seq<byte>, from: nat): (i: nat)
    requires from <= |bytes|
    ensures from <= i <= |bytes| && (i < |bytes| ==> bytes[i] == NEWLINE)
    ensures forall j | from <= j < i :: bytes[j] != NEWLINE
    decreases |bytes| - from
  {
    if from == |bytes| || bytes[from] == NEWLINE then from else LineEnd(bytes, from + 1)
  }

  lemma LineEndIs(bytes: seq<byte>, from: nat, i: nat)
    requires from <= i < |bytes| && bytes[i] == NEWLINE && forall j | from <= j < i :: bytes[j] != NEWLINE
    ensures LineEnd(bytes, from) == i
  {
  }

  lemma LineEndStable(a: seq<byte>, b: seq<byte>, from: nat)
    requires from <= |a| && LineEnd(a, from) < |a|
    ensures LineEnd(a + b, from) == LineEnd(a, from)
  {
    var i := LineEnd(a, from);
    assert forall j | from <= j < i :: (a + b)[j] == a[j];
    LineEndIs(a + b, from, i);
  }

  // memchr on a buffer.
  method MemChr(a: array<byte>, from: nat, to: nat) returns (i: nat)
    requires from <= to <= a.Length
    ensures i == LineEnd(a[..to], from)
  {
    i := from;
    while i < to && a[i] != NEWLINE
      invariant from <= i <= to
      invariant forall j | from <= j < i :: a[j] != NEWLINE
    {
      i := i + 1;
    }
    if i < to {
      LineEndIs(a[..to], from, i);
    }
  }

  // memcpy of n bytes between different buffers.
  method MemCpy(dst: array<byte>, at: nat, src: array<byte>, from: nat, n: nat)
    requires dst != src && at + n <= dst.Length && from + n <= src.Length
    modifies dst
    ensures dst[at..at + n] == src[from..from + n]
    ensures forall j | 0 <= j < at || at + n <= j < dst.Length :: dst[j] == old(dst[j])
  {
    var i := 0;
    while i < n
      invariant 0 <= i <= n
      invariant forall j | at <= j < at + i :: dst[j] == src[from + (j - at)]
      invariant forall j | 0 <= j < at || at + i <= j < dst.Length :: dst[j] == old(dst[j])
    {
      dst[at + i] := src[from + i];
      i := i + 1;
    }
  }

  // memmove of a[from..to] to the front of the buffer.
  method MoveToFront(a: array<byte>, from: nat, to: nat)
    requires from <= to <= a.Length
    modifies a
    ensures a[..to - from] == old(a[from..to])
  {
    var i := 0;
    while i < to - from
      invariant 0 <= i <= to - from
      invariant forall j | 0 <= j < i :: a[j] == old(a[from + j])
      invariant forall j | i <= j < a.Length :: a[j] == old(a[j])
    {
      a[i] := a[from + i];
      i := i + 1;
    }
  }

  // The effect of read(fd, a + at, ...) returning the bytes of chunk.
  method ReadInto(a: array<byte>, at: nat, chunk: seq<byte>)
    requires at + |chunk| <= a.Length
    modifies a
    ensures a[..at + |chunk|] == old(a[..at]) + chunk
  {
    var i := 0;
    while i < |chunk|
      invariant 0 <= i <= |chunk|
      invariant forall j | 0 <= j < at :: a[j] == old(a[j])
      invariant forall j | 0 <= j < i :: a[at + j] == chunk[j]
    {
      a[at + i] := chunk[i];
      i := i + 1;
    }
  }
}
