// The client's side of the byte stream: receiver_thread's loop and convert (client.c).
module ClientFraming {
  import opened Bytes
  import opened Framing
  import opened Seqs

  const HEADER: nat := 7   // the type byte, 4 address bytes, 2 port bytes

  // What the receiver writes to its log for one chat message, before formatting.
  datatype Entry = Entry(ip: seq<byte>, port: seq<byte>, text: seq<byte>)

  datatype Reader = Reader(entries: seq<Entry>, keepRunning: bool)

  // The length of the first message. The newline of a chat message is looked for behind the
  // header, whose bytes may take any value.
  function NextMessage(bytes: seq<byte>): nat {
    if bytes == [] then 0
    else if bytes[0] == TYPE_REGULAR then
      if |bytes| < HEADER then 0 else LengthUpTo(bytes, LineEnd(bytes, HEADER))
    else if bytes[0] == TYPE_END_EXECUTION then
      if |bytes| < 2 || bytes[1] != NEWLINE then 0 else 2
    else LengthUpTo(bytes, LineEnd(bytes, 1))
  }

  function LengthUpTo(bytes: seq<byte>, i: nat): nat
    requires i <= |bytes|
  {
    if i < |bytes| then i + 1 else 0
  }

  lemma NextMessageStable()
    ensures Stable(NextMessage)
  {
    forall a: seq<byte>, b: seq<byte> | NextMessage(a) > 0 ensures NextMessage(a + b) == NextMessage(a) {
      if a[0] == TYPE_REGULAR {
        LineEndStable(a, b, HEADER);
      } else if a[0] != TYPE_END_EXECUTION {
        LineEndStable(a, b, 1);
      }
    }
  }

  // chat_data holds at most MAX_MSG_SIZE - 1 bytes and its terminator.
  function Clip(text: seq<byte>): seq<byte> {
    if |text| >= MAX_MSG_SIZE then text[..MAX_MSG_SIZE - 1] else text
  }

  lemma ClipIs(m: seq<byte>)
    requires |m| > HEADER
    ensures var n := |m| - HEADER - 1;
      Clip(m[HEADER..|m| - 1]) == m[HEADER..HEADER + if n >= MAX_MSG_SIZE then MAX_MSG_SIZE - 1 else n]
  {
  }

  function Receive(s: Reader, m: seq<byte>): Reader {
    if |m| > HEADER && m[0] == TYPE_REGULAR then
      s.(entries := s.entries + [Entry(m[1..5], m[5..7], Clip(m[HEADER..|m| - 1]))])
    else if m != [] && m[0] == TYPE_END_EXECUTION then s.(keepRunning := false)
    else s
  }

  ghost function Reading(): Protocol<Reader> {
    Protocol(NextMessage, (s: Reader, m: seq<byte>) => Receive(s, m), (s: Reader) => s.keepRunning)
  }

  // Reading on from here comes to the given end, which has been reached if nothing was consumed.
  ghost predicate OnCourse(s: Reader, data: seq<byte>, consumed: nat, whole: (Reader, seq<byte>))
    requires Stable(NextMessage)
  {
    if consumed > 0 then s.keepRunning && Feed(Reading(), s, data) == whole
    else s == whole.0 && (s.keepRunning ==> data == whole.1)
  }

  // How much of the data one turn consumes: the commit stays where it is.
  function Consumed(data: seq<byte>): nat {
    if data == [] || data[0] == TYPE_END_EXECUTION then 0 else NextMessage(data)
  }

  function AfterOne(s: Reader, data: seq<byte>): Reader {
    var n := NextMessage(data);
    if 0 < n <= |data| then Receive(s, data[..n]) else s
  }

  lemma StaysOnCourse(s: Reader, data: seq<byte>, last: nat, whole: (Reader, seq<byte>))
    requires Stable(NextMessage) && OnCourse(s, data, last, whole) && last > 0
    ensures Consumed(data) <= |data|
    ensures OnCourse(AfterOne(s, data), data[Consumed(data)..], Consumed(data), whole)
  {
    assert data[0..] == data;
    if data != [] && data[0] == TYPE_END_EXECUTION && NextMessage(data) > 0 {
      assert Feed(Reading(), s, data) == Feed(Reading(), AfterOne(s, data), data[2..]);
    }
  }

  class Receiver {
    const recvBuffer: array<byte>
    var dataLen: nat
    var keepRunning: bool
    var log: seq<Entry>

    constructor ()
      ensures Valid() && Data() == [] && State() == Reader([], true) && fresh(recvBuffer)
    {
      recvBuffer := new byte[MAX_MSG_SIZE * 2](_ => 0);
      dataLen, keepRunning, log := 0, true, [];
    }

    predicate Valid()
      reads this
    {
      recvBuffer.Length == MAX_MSG_SIZE * 2 && dataLen <= MAX_MSG_SIZE
    }

    function Data(): seq<byte>
      requires Valid()
      reads this, recvBuffer
    {
      recvBuffer[..dataLen]
    }

    function State(): Reader
      reads this
    {
      Reader(log, keepRunning)
    }

    // Logs the chat message of length msgLen that starts at ptr.
    method Log(ptr: nat, msgLen: nat)
      requires HEADER < msgLen && ptr + msgLen <= recvBuffer.Length
      modifies `log
      ensures var m := recvBuffer[ptr..ptr + msgLen];
        log == old(log) + [Entry(m[1..5], m[5..7], Clip(m[HEADER..|m| - 1]))]
    {
      var dataLenOnly := msgLen - 7 - 1;
      var chatData := new byte[MAX_MSG_SIZE];
      if dataLenOnly >= MAX_MSG_SIZE {
        dataLenOnly := MAX_MSG_SIZE - 1;
      }
      MemCpy(chatData, 0, recvBuffer, ptr + HEADER, dataLenOnly);
      chatData[dataLenOnly] := 0;
      log := log + [Entry(recvBuffer[ptr + 1..ptr + 5], recvBuffer[ptr + 5..ptr + 7], chatData[..dataLenOnly])];
      ghost var m := recvBuffer[ptr..ptr + msgLen];
      Subslice(recvBuffer, ptr, msgLen, 1, 5);
      Subslice(recvBuffer, ptr, msgLen, 5, 7);
      Subslice(recvBuffer, ptr, msgLen, HEADER, HEADER + dataLenOnly);
      ClipIs(m);
    }

    // The body of the inner loop at ptr: the length of the message consumed, 0 on break.
    method HandleAt(ptr: nat) returns (msgLen: nat)
      requires dataLen >= 1 && ptr + dataLen <= recvBuffer.Length
      modifies `log, `keepRunning
      ensures State() == AfterOne(old(State()), recvBuffer[ptr..ptr + dataLen])
      ensures msgLen == Consumed(recvBuffer[ptr..ptr + dataLen])
    {
      ghost var data := recvBuffer[ptr..ptr + dataLen];
      var kind := recvBuffer[ptr];
      assert data[0] == kind;
      msgLen := 0;
      if kind == TYPE_REGULAR {
        msgLen := HandleChat(ptr);
      } else if kind == TYPE_END_EXECUTION {
        if dataLen < 2 || recvBuffer[ptr + 1] != NEWLINE {
          return;
        }
        keepRunning := false;
      } else {
        msgLen := EndOfLine(ptr, 1);
      }
    }

    // The branch for chat messages.
    method HandleChat(ptr: nat) returns (msgLen: nat)
      requires dataLen >= 1 && ptr + dataLen <= recvBuffer.Length && recvBuffer[ptr] == TYPE_REGULAR
      modifies `log
      ensures State() == AfterOne(old(State()), recvBuffer[ptr..ptr + dataLen])
      ensures msgLen == Consumed(recvBuffer[ptr..ptr + dataLen])
    {
      ghost var data := recvBuffer[ptr..ptr + dataLen];
      assert data[0] == TYPE_REGULAR;
      if dataLen < HEADER {
        return 0;
      }
      msgLen := EndOfLine(ptr, HEADER);
      if msgLen > 0 {
        Subslice(recvBuffer, ptr, dataLen, 0, msgLen);
        Log(ptr, msgLen);
      }
    }

    method EndOfLine(ptr: nat, from: nat) returns (msgLen: nat)
      requires from <= dataLen && ptr + dataLen <= recvBuffer.Length
      ensures msgLen == LengthUpTo(recvBuffer[ptr..ptr + dataLen], LineEnd(recvBuffer[ptr..ptr + dataLen], from))
    {
      var i := Find(ptr, from);
      msgLen := if i == dataLen then 0 else i + 1;
    }

    // memchr(ptr + from, '\n', data_len - from), as an offset from ptr.
    method Find(ptr: nat, from: nat) returns (i: nat)
      requires from <= dataLen && ptr + dataLen <= recvBuffer.Length
      ensures i == LineEnd(recvBuffer[ptr..ptr + dataLen], from)
    {
      ghost var data := recvBuffer[ptr..ptr + dataLen];
      i := from;
      while i < dataLen && recvBuffer[ptr + i] != NEWLINE
        invariant from <= i <= dataLen
        invariant forall j | from <= j < i :: data[j] != NEWLINE
      {
        assert data[i] == recvBuffer[ptr + i];
        i := i + 1;
      }
      if i < dataLen {
        LineEndIs(data, from, i);
      }
    }

    // Where the inner loop stands with its pointer at ptr, the last turn having consumed msgLen
    // bytes; none, if it has been left.
    ghost predicate Scanning(ptr: nat, msgLen: nat, whole: (Reader, seq<byte>))
      requires Stable(NextMessage)
      reads this, recvBuffer
    {
      && Valid() && ptr + dataLen <= MAX_MSG_SIZE
      && OnCourse(State(), recvBuffer[ptr..ptr + dataLen], msgLen, whole)
    }

    method Turn(ptr: nat, ghost last: nat, ghost whole: (Reader, seq<byte>))
      returns (next: nat, msgLen: nat)
      requires Stable(NextMessage) && Scanning(ptr, last, whole) && last > 0 && dataLen >= 1
      modifies this
      ensures Scanning(next, msgLen, whole)
      ensures dataLen == old(dataLen) - msgLen
    {
      hide OnCourse, AfterOne, Consumed, Stable;
      ghost var data := recvBuffer[ptr..ptr + dataLen];
      StaysOnCourse(State(), data, last, whole);
      msgLen := HandleAt(ptr);
      assert data[msgLen..] == recvBuffer[ptr + msgLen..ptr + dataLen];
      next := ptr + msgLen;
      dataLen := dataLen - msgLen;
    }

    // The inner loop.
    method Scan(ghost whole: (Reader, seq<byte>)) returns (ptr: nat)
      requires Stable(NextMessage) && Scanning(0, 1, whole)
      modifies this
      ensures Scanning(ptr, 0, whole)
    {
      ptr := 0;
      var msgLen: nat := 1;
      while dataLen >= 1 && msgLen > 0
        invariant Scanning(ptr, msgLen, whole)
        decreases dataLen + if msgLen > 0 then 1 else 0
      {
        ptr, msgLen := Turn(ptr, msgLen, whole);
      }
      if msgLen > 0 {
        NothingLeft(ptr, msgLen, whole);
      }
    }

    lemma NothingLeft(ptr: nat, last: nat, whole: (Reader, seq<byte>))
      requires Stable(NextMessage) && Scanning(ptr, last, whole) && last > 0 && dataLen == 0
      ensures Scanning(ptr, 0, whole)
    {
      StaysOnCourse(State(), recvBuffer[ptr..ptr], last, whole);
    }

    // One turn of the receiver's loop, for a read that returned the bytes of chunk.
    method OnReadable(chunk: seq<byte>)
      requires Valid() && keepRunning && dataLen + |chunk| <= MAX_MSG_SIZE
      modifies this, recvBuffer
      ensures Valid() && Stable(NextMessage)
      ensures var f := Feed(Reading(), old(State()), old(Data()) + chunk);
        State() == f.0 && (keepRunning ==> Data() == f.1)
    {
      NextMessageStable();
      ReadInto(recvBuffer, dataLen, chunk);
      dataLen := dataLen + |chunk|;
      assert Data() == old(Data()) + chunk;
      ghost var whole := Feed(Reading(), State(), Data());
      assert recvBuffer[0..dataLen] == Data();
      var ptr := Scan(whole);
      if dataLen > 0 {
        MoveToFront(recvBuffer, ptr, ptr + dataLen);
      }
    }
  }

  // ---------- a whole stream ----------

  ghost predicate IsMessage(m: seq<byte>) {
    m != [] && NextMessage(m) == |m| <= MAX_MSG_SIZE
  }

  ghost predicate AreMessages(msgs: seq<seq<byte>>) {
    forall i | 0 <= i < |msgs| :: IsMessage(msgs[i])
  }

  // The first got bytes of the stream have been read, starting from reader state s.
  ghost predicate Drained(c: Receiver, s: Reader, stream: seq<byte>, got: nat)
    requires Stable(NextMessage)
    reads c, c.recvBuffer
  {
    && c.Valid() && got <= |stream|
    && var f := Feed(Reading(), s, stream[..got]);
       c.State() == f.0 && (c.keepRunning ==> c.Data() == f.1)
  }

  lemma MessagesBounded(msgs: seq<seq<byte>>)
    requires AreMessages(msgs)
    ensures Stable(NextMessage)
    ensures forall i | 0 <= i < |msgs| :: Complete(NextMessage, msgs[i]) && |msgs[i]| <= MAX_MSG_SIZE
  {
    NextMessageStable();
    assert forall i | 0 <= i < |msgs| :: IsMessage(msgs[i]);
  }

  // One read, of at most size bytes: there is always room for some.
  method DrainOne(c: Receiver, ghost s: Reader, stream: seq<byte>, ghost msgs: seq<seq<byte>>, got: nat, size: nat)
    returns (n: nat)
    requires AreMessages(msgs) && stream == Flatten(msgs) && Stable(NextMessage)
    requires Drained(c, s, stream, got) && c.keepRunning && got < |stream| && size > 0
    modifies c, c.recvBuffer
    ensures n > 0 && Drained(c, s, stream, got + n)
  {
    MessagesBounded(msgs);
    ghost var k := RoomForNextRead(Reading(), s, msgs, stream[..got]);
    assert |c.Data()| < MAX_MSG_SIZE;
    n := Min(size, Min(MAX_MSG_SIZE - c.dataLen, |stream| - got));
    ReadFurther(Reading(), s, stream, got, n);
    c.OnReadable(stream[got..got + n]);
  }

  // Receiving a stream in reads of whatever size the network grants: every read makes progress,
  // and once all of it has arrived exactly its messages have been handled.
  method Drain(c: Receiver, stream: seq<byte>, ghost msgs: seq<seq<byte>>, sizes: seq<nat>)
    returns (got: nat, ghost k: nat)
    requires c.Valid() && c.Data() == [] && c.keepRunning
    requires AreMessages(msgs) && stream == Flatten(msgs)
    requires forall i | 0 <= i < |sizes| :: sizes[i] > 0
    modifies c, c.recvBuffer
    ensures c.Valid() && got <= |stream| && k <= |msgs|
    ensures c.State() == ActAll(Reading(), old(c.State()), msgs[..k])
    ensures got < |sizes| && c.keepRunning ==> got == |stream|
    ensures got == |stream| ==> k == |msgs| && (c.keepRunning ==> c.Data() == [])
  {
    MessagesBounded(msgs);
    ghost var s := c.State();
    NothingRead(s, stream);
    got := DrainReads(c, s, stream, msgs, sizes);
    k := MessagesRead(c, s, stream, msgs, got);
  }

  lemma NothingRead(s: Reader, stream: seq<byte>)
    requires Stable(NextMessage)
    ensures Feed(Reading(), s, stream[..0]) == (s, [])
  {
  }

  // The reads.
  method DrainReads(c: Receiver, ghost s: Reader, stream: seq<byte>, ghost msgs: seq<seq<byte>>, sizes: seq<nat>)
    returns (got: nat)
    requires AreMessages(msgs) && stream == Flatten(msgs) && Stable(NextMessage)
    requires Drained(c, s, stream, 0) && forall i | 0 <= i < |sizes| :: sizes[i] > 0
    modifies c, c.recvBuffer
    ensures Drained(c, s, stream, got)
    ensures got < |sizes| && c.keepRunning ==> got == |stream|
  {
    hide Feed, Flatten, Stable;
    got := 0;
    var i := 0;
    while i < |sizes| && got < |stream| && c.keepRunning
      invariant Drained(c, s, stream, got) && i <= got && i <= |sizes|
    {
      var n := DrainOne(c, s, stream, msgs, got, sizes[i]);
      got := got + n;
      i := i + 1;
    }
  }

  lemma MessagesRead(c: Receiver, s: Reader, stream: seq<byte>, msgs: seq<seq<byte>>, got: nat) returns (k: nat)
    requires AreMessages(msgs) && stream == Flatten(msgs) && Stable(NextMessage) && Drained(c, s, stream, got)
    ensures k <= |msgs| && c.State() == ActAll(Reading(), s, msgs[..k])
    ensures got == |stream| ==> k == |msgs| && (c.keepRunning ==> c.Data() == [])
  {
    MessagesBounded(msgs);
    k := RoomForNextRead(Reading(), s, msgs, stream[..got]);
    assert got == |stream| ==> stream[..got] == stream;
  }

  // ---------- what the sender sends ----------

  function HexDigit(d: byte): (r: byte)
    requires d < 16
    ensures 48 <= r <= 57 || 65 <= r <= 70
  {
    if d < 10 then 48 + d else 55 + d
  }

  // Two digits for each byte.
  function Hex(bytes: seq<byte>): (r: seq<byte>)
    ensures |r| == 2 * |bytes|
    ensures forall i | 0 <= i < |bytes| :: IsPair(r, i, bytes[i])
  {
    seq(2 * |bytes|, k requires 0 <= k < 2 * |bytes| =>
      if k % 2 == 0 then HexDigit(bytes[k / 2] / 16) else HexDigit(bytes[k / 2] % 16))
  }

  predicate IsPair(r: seq<byte>, i: nat, b: byte) {
    2 * i + 1 < |r| && r[2 * i] == HexDigit(b / 16) && r[2 * i + 1] == HexDigit(b % 16)
  }

  // Every byte as its two digits, the high one first.
  lemma HexDigitsOf(bytes: seq<byte>, i: nat)
    requires i < |bytes|
    ensures Hex(bytes)[2 * i] == "0123456789ABCDEF"[bytes[i] / 16] as int
    ensures Hex(bytes)[2 * i + 1] == "0123456789ABCDEF"[bytes[i] % 16] as int
  {
    hide Hex, HexDigit;
    assert IsPair(Hex(bytes), i, bytes[i]);
    HexDigitIs(bytes[i] / 16);
    HexDigitIs(bytes[i] % 16);
  }

  lemma HexDigitIs(d: byte)
    requires d < 16
    ensures HexDigit(d) == "0123456789ABCDEF"[d] as int
  {
  }

  lemma PairsDetermineHex(bytes: seq<byte>, r: seq<byte>)
    requires |r| == 2 * |bytes| && forall i | 0 <= i < |bytes| :: IsPair(r, i, bytes[i])
    ensures r == Hex(bytes)
  {
    hide Hex, HexDigit;
    var h := Hex(bytes);
    forall k | 0 <= k < |r| ensures r[k] == h[k] {
      var i := k / 2;
      assert k == 2 * i || k == 2 * i + 1;
      assert IsPair(r, i, bytes[i]);
      assert IsPair(h, i, bytes[i]);
    }
  }

  // The text determines the bytes.
  lemma HexInjective(a: seq<byte>, b: seq<byte>)
    requires Hex(a) == Hex(b)
    ensures a == b
  {
    assert |a| == |b|;
    forall i | 0 <= i < |a| ensures a[i] == b[i] {
      assert IsPair(Hex(a), i, a[i]) && IsPair(Hex(b), i, b[i]);
      assert a[i] == a[i] / 16 * 16 + a[i] % 16;
    }
  }

  // Digits and capital letters only: no newline and no terminator.
  predicate IsText(r: seq<byte>) {
    forall i | 0 <= i < |r| :: 48 <= r[i] <= 57 || 65 <= r[i] <= 70
  }

  lemma HexIsText(bytes: seq<byte>)
    ensures IsText(Hex(bytes))
  {
    hide Hex, HexDigit;
    var r := Hex(bytes);
    forall k | 0 <= k < |r| ensures 48 <= r[k] <= 57 || 65 <= r[k] <= 70 {
      var i := k / 2;
      assert k == 2 * i || k == 2 * i + 1;
      assert IsPair(r, i, bytes[i]);
    }
  }

  // convert
  method Convert(buf: array?<byte>, bufSize: int, str: array?<byte>, strSize: int) returns (r: int)
    requires buf != null ==> bufSize <= buf.Length && buf != str
    requires str != null ==> strSize <= str.Length
    modifies str
    ensures r == if buf == null || str == null || bufSize <= 0 || strSize < bufSize * 2 + 1 then -1 else 0
    ensures r == -1 && str != null ==> str[..] == old(str[..])
    ensures r == 0 ==> str[..2 * bufSize + 1] == Hex(buf[..bufSize]) + [0]
  {
    if buf == null || str == null || bufSize <= 0 || strSize < bufSize * 2 + 1 {
      return -1;
    }
    var i := 0;
    while i < bufSize
      invariant 0 <= i <= bufSize
      invariant forall j | 0 <= j < i :: IsPair(str[..2 * i], j, buf[j])
    {
      ghost var before := str[..2 * i];
      str[2 * i], str[2 * i + 1], str[2 * i + 2] := HexDigit(buf[i] / 16), HexDigit(buf[i] % 16), 0;
      forall j | 0 <= j <= i ensures IsPair(str[..2 * i + 2], j, buf[j]) {
        assert j < i ==> IsPair(before, j, buf[j]);
      }
      i := i + 1;
    }
    str[bufSize * 2] := 0;
    PairsDetermineHex(buf[..bufSize], str[..2 * bufSize]);
    return 0;
  }

  // The message sender_thread builds from its random bytes: [0 | hex text | newline].
  method BuildMessage(rand: array<byte>) returns (sendBuffer: array<byte>, totalLen: nat)
    requires rand.Length == RANDOM_BYTES_LEN
    ensures totalLen <= sendBuffer.Length && fresh(sendBuffer)
    ensures sendBuffer[..totalLen] == [TYPE_REGULAR] + Hex(rand[..]) + [NEWLINE]
  {
    hide IsPair, HexDigit;
    var hexStr := new byte[RANDOM_BYTES_LEN * 2 + 1];
    var r := Convert(rand, RANDOM_BYTES_LEN, hexStr, RANDOM_BYTES_LEN * 2 + 1);
    assert rand[..RANDOM_BYTES_LEN] == rand[..];
    ghost var text := Hex(rand[..]);
    HexIsText(rand[..]);
    var payloadLen := StrLen(hexStr, text);
    sendBuffer := new byte[MAX_MSG_SIZE];
    sendBuffer[0] := TYPE_REGULAR;
    MemCpy(sendBuffer, 1, hexStr, 0, payloadLen);
    sendBuffer[1 + payloadLen] := NEWLINE;
    totalLen := 1 + payloadLen + 1;
    assert sendBuffer[1..1 + payloadLen] == text;
  }

  // strlen
  method StrLen(a: array<byte>, ghost text: seq<byte>) returns (n: nat)
    requires |text| < a.Length && a[..|text| + 1] == text + [0]
    requires forall i | 0 <= i < |text| :: text[i] != 0
    ensures n == |text| && a[..n] == text
  {
    n := 0;
    while a[n] != 0
      invariant n <= |text|
      decreases |text| - n
    {
      assert a[n] == a[..|text| + 1][n];
      n := n + 1;
    }
    assert a[n] == a[..|text| + 1][n];
  }
}
