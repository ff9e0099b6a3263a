/** A message buffer of freeRTOS/stream_buffer.c with one writer and one reader: a ring of bytes in
    which each message follows its length.  The steps of the writer and of the reader are methods of
    their own, so that they may be interleaved. */
module MessageBuffer {
  import opened Bytes
  import opened Guards
  import opened Sectors

  const HEADER: nat := 4        // sbBYTES_TO_STORE_MESSAGE_LENGTH

  function Wrap(x: nat, n: nat): nat {
    if x >= n then x - n else x
  }

  /** `n` bytes of the ring from index `p`. */
  ghost function View(b: seq<byte>, p: nat, n: nat): (v: seq<byte>)
    requires p < |b| && n <= |b|
    ensures |v| == n && forall i :: 0 <= i < n ==> v[i] == b[Wrap(p + i, |b|)]
  {
    seq(n, i requires 0 <= i < n => b[Wrap(p + i, |b|)])
  }

  /** How far index `j` lies behind index `p`. */
  function Distance(p: nat, j: nat, n: nat): nat
    requires p < n && j < n
  {
    if j >= p then j - p else j + n - p
  }

  /** `b'` is `b` with `data` written from index `p` on. */
  ghost predicate Stored(b: seq<byte>, b': seq<byte>, p: nat, data: seq<byte>) {
    && |b'| == |b| && p < |b| && |data| <= |b|
    && forall j :: 0 <= j < |b| ==> b'[j] == if Distance(p, j, |b|) < |data| then data[Distance(p, j, |b|)] else b[j]
  }

  lemma StoredView(b: seq<byte>, b': seq<byte>, p: nat, data: seq<byte>)
    requires Stored(b, b', p, data)
    ensures View(b', p, |data|) == data
  {
    var v := View(b', p, |data|);
    forall i | 0 <= i < |data| ensures v[i] == data[i] { assert Distance(p, Wrap(p + i, |b|), |b|) == i; }
  }

  /** What lies before the place written to, at distance `n` at most, stays. */
  lemma StoredElsewhere(b: seq<byte>, b': seq<byte>, q: nat, data: seq<byte>, p: nat, n: nat, k: nat)
    requires p < |b| && n <= k && k + |data| <= |b| && k < |b| && q == Wrap(p + k, |b|) && Stored(b, b', q, data)
    ensures View(b', p, n) == View(b, p, n)
  {
    var v, w := View(b, p, n), View(b', p, n);
    forall i | 0 <= i < n ensures w[i] == v[i] { assert Distance(q, Wrap(p + i, |b|), |b|) >= |data|; }
  }

  lemma ViewSplit(b: seq<byte>, p: nat, n: nat, k: nat)
    requires p < |b| && k <= n <= |b| && k < |b|
    ensures View(b, p, n) == View(b, p, k) + View(b, Wrap(p + k, |b|), n - k)
  {
    var l, r := View(b, p, n), View(b, p, k) + View(b, Wrap(p + k, |b|), n - k);
    forall i | 0 <= i < n ensures l[i] == r[i] {
      if i >= k { assert Wrap(Wrap(p + k, |b|) + (i - k), |b|) == Wrap(p + i, |b|); }
    }
  }

  // ----- messages

  function Framed(m: seq<byte>): (f: seq<byte>)
    requires |m| <= 0xFFFF_FFFF
    ensures |f| == HEADER + |m|
  {
    DwordBytes(|m|) + m
  }

  ghost predicate AreMessages(ms: seq<seq<byte>>) {
    forall i :: 0 <= i < |ms| ==> 0 < |ms[i]| <= 0xFFFF_FFFF
  }

  ghost function Encode(ms: seq<seq<byte>>): seq<byte>
    requires AreMessages(ms)
  {
    if ms == [] then [] else Framed(ms[0]) + Encode(ms[1..])
  }

  lemma {:induction false} EncodeAppend(ms: seq<seq<byte>>, m: seq<byte>)
    requires AreMessages(ms) && 0 < |m| <= 0xFFFF_FFFF
    ensures AreMessages(ms + [m]) && Encode(ms + [m]) == Encode(ms) + Framed(m)
  {
    assert forall i :: 0 <= i < |ms| ==> (ms + [m])[i] == ms[i];
    if ms == [] {
      assert ms + [m] == [m] && [m][1..] == [];
      assert Encode([m]) == Framed(m) + Encode([]);
    } else {
      assert (ms + [m])[1..] == ms[1..] + [m];
      EncodeAppend(ms[1..], m);
    }
  }

  function Min(a: nat, b: nat): nat {
    if a < b then a else b
  }

  /** Where the first message lies in the ring, and what remains behind it. */
  lemma FirstView(b: seq<byte>, tail: nat, n: nat, ms: seq<seq<byte>>)
    requires tail < |b| && n < |b| && AreMessages(ms) && ms != [] && View(b, tail, n) == Encode(ms)
    ensures var len := |ms[0]|;
            && HEADER + len <= n
            && View(b, tail, HEADER) == DwordBytes(len)
            && View(b, Wrap(tail + HEADER, |b|), len) == ms[0]
            && View(b, Wrap(tail + HEADER + len, |b|), n - HEADER - len) == Encode(ms[1..])
  {
    var f, rest := Framed(ms[0]), Encode(ms[1..]);
    assert Encode(ms) == f + rest;
    ViewParts(b, tail, n, f, rest);
    ViewParts(b, tail, |f|, DwordBytes(|ms[0]|), ms[0]);
  }

  /** What is seen of two parts one behind the other. */
  lemma ViewParts(b: seq<byte>, p: nat, n: nat, l: seq<byte>, r: seq<byte>)
    requires p < |b| && |l| <= n <= |b| && |l| < |b| && View(b, p, n) == l + r
    ensures View(b, p, |l|) == l && View(b, Wrap(p + |l|, |b|), n - |l|) == r
  {
    ViewSplit(b, p, n, |l|);
    PartsEqual(View(b, p, |l|), View(b, Wrap(p + |l|, |b|), n - |l|), l, r);
  }

  lemma PartsEqual(a: seq<byte>, b: seq<byte>, l: seq<byte>, r: seq<byte>)
    requires a + b == l + r && |a| == |l|
    ensures a == l && b == r
  {
    assert a == (a + b)[..|a|] && b == (a + b)[|a|..];
  }

  /** The data of a message, written behind its length, make it whole... */
  lemma DataStored(b: seq<byte>, b': seq<byte>, head: nat, at: nat, m: seq<byte>)
    requires 0 < |m| <= 0xFFFF_FFFF && head < |b| && HEADER + |m| < |b| && at == Wrap(head + HEADER, |b|)
    requires Stored(b, b', at, m) && View(b, head, HEADER) == DwordBytes(|m|)
    ensures View(b', head, HEADER + |m|) == Framed(m)
  {
    assert View(b', head, HEADER) == DwordBytes(|m|) by { StoredElsewhere(b, b', at, m, head, HEADER, HEADER); }
    assert View(b', at, |m|) == m by { StoredView(b, b', at, m); }
    assert View(b', head, HEADER + |m|) == View(b', head, HEADER) + View(b', at, |m|) by {
      ViewSplit(b', head, HEADER + |m|, HEADER);
    }
  }

  /** ...and leave those before it alone. */
  lemma DataApart(b: seq<byte>, b': seq<byte>, tail: nat, n: nat, head: nat, m: seq<byte>)
    requires tail < |b| && n + HEADER + |m| < |b| && head == Wrap(tail + n, |b|)
    requires Stored(b, b', Wrap(head + HEADER, |b|), m)
    ensures View(b', tail, n) == View(b, tail, n)
  {
    StoredElsewhere(b, b', Wrap(head + HEADER, |b|), m, tail, n, n + HEADER);
  }

  /** A message that lies behind the others. */
  lemma OneMore(b: seq<byte>, tail: nat, n: nat, ms: seq<seq<byte>>, m: seq<byte>)
    requires AreMessages(ms) && 0 < |m| <= 0xFFFF_FFFF && tail < |b| && n + HEADER + |m| < |b|
    requires View(b, tail, n) == Encode(ms) && View(b, Wrap(tail + n, |b|), HEADER + |m|) == Framed(m)
    ensures AreMessages(ms + [m]) && View(b, tail, n + HEADER + |m|) == Encode(ms + [m])
  {
    EncodeAppend(ms, m);
    ViewSplit(b, tail, n + HEADER + |m|, n);
  }

  lemma SeenBefore(ms: seq<seq<byte>>, m: seq<byte>, k: nat)
    ensures k <= |ms| ==> (ms + [m])[..k] == ms[..k]
  {
  }

  /** Where the writer is in a send, and the reader in a receive: what they have looked at, or done. */
  datatype Writer = NoSend | SpaceSeen(m: seq<byte>, space: nat) | LengthWritten(m: seq<byte>)
                  | DataWritten(m: seq<byte>)
  datatype Reader = NoReceive | BytesSeen(available: nat) | LengthRead(len: nat) | DataRead(data: seq<byte>)

  /** Writer, reader, the messages that are in the buffer, how many of them the reader knows of, and the free bytes. */
  datatype Snap = Snap(writer: Writer, reader: Reader, messages: seq<seq<byte>>, seen: nat, free: int)

  /** A step of the writer: with room for the message and its four bytes of length it goes on, else it gives up. */
  ghost predicate WriterTook(s: Snap, s': Snap) {
    match s.writer
    case NoSend => s' == s
    case SpaceSeen(m, space) => s' == s.(writer := if 0 < |m| && |m| + 4 <= space then LengthWritten(m) else NoSend)
    case LengthWritten(m) => s' == s.(writer := DataWritten(m))
    case DataWritten(m) => s' == s.(writer := NoSend, messages := s.messages + [m], free := s.free - 4 - |m|)
  }

  /** A step of the reader, which has room for `n` bytes: a longer message stays. */
  ghost predicate ReaderTook(s: Snap, n: nat, s': Snap) {
    match s.reader
    case NoReceive => s' == s
    case BytesSeen(_) =>
      if s.seen > 0 && s.messages != [] && |s.messages[0]| <= n then s' == s.(reader := LengthRead(|s.messages[0]|))
      else s' == s.(reader := NoReceive)
    case LengthRead(_) => s.messages != [] && s' == s.(reader := DataRead(s.messages[0]))
    case DataRead(data) =>
      && s.messages != [] && data == s.messages[0]
      && s' == s.(reader := NoReceive, messages := s.messages[1..], free := s.free + 4 + |data|)
  }

  class Buffer {
    const buf: array<byte>
    var head: nat
    var tail: nat
    var writer: Writer
    var reader: Reader

    ghost var messages: seq<seq<byte>>
    ghost var seen: nat           // the messages that were complete when the reader looked

    /** prvBytesInBuffer */
    function InBuffer(): nat
      requires tail < buf.Length && head < buf.Length
      reads `tail, `head
    {
      Distance(tail, head, buf.Length)
    }

    ghost function Now(): Snap
      requires head < buf.Length && tail < buf.Length
      reads this
    {
      Snap(writer, reader, messages, seen, buf.Length - 1 - InBuffer())
    }

    ghost predicate Valid()
      reads this, buf
    {
      head < buf.Length && tail < buf.Length && forall k: nat :: Opens(k) ==> Fits()
    }

    ghost predicate Fits()
      requires head < buf.Length && tail < buf.Length
      reads this, buf
    {
      && AreMessages(messages) && View(buf[..], tail, InBuffer()) == Encode(messages)
      && WriterFits() && ReaderFits()
    }

    /** Space that was seen is still there, and what was written lies in it. */
    ghost predicate WriterFits()
      requires head < buf.Length && tail < buf.Length
      reads `writer, `head, `tail, buf
    {
      match writer
      case NoSend => true
      case SpaceSeen(m, space) => |m| <= 0xFFFF_FFFF && InBuffer() + space < buf.Length
      case LengthWritten(m) => 0 < |m| <= 0xFFFF_FFFF && InBuffer() + HEADER + |m| < buf.Length
                               && View(buf[..], head, HEADER) == DwordBytes(|m|)
      case DataWritten(m) => 0 < |m| <= 0xFFFF_FFFF && InBuffer() + HEADER + |m| < buf.Length
                             && View(buf[..], head, HEADER + |m|) == Framed(m)
    }

    /** Bytes that were seen are whole messages, and what was read is of the first. */
    ghost predicate ReaderFits()
      requires AreMessages(messages)
      reads `reader, `messages, `seen
    {
      match reader
      case NoReceive => true
      case BytesSeen(n) => seen <= |messages| && n == |Encode(messages[..seen])|
      case LengthRead(len) => messages != [] && len == |messages[0]|
      case DataRead(data) => messages != [] && data == messages[0]
    }

    constructor (length: nat)
      requires 2 <= length
      ensures Valid() && messages == [] && writer == NoSend && reader == NoReceive && fresh(buf) && buf.Length == length
    {
      buf := new byte[length](_ => 0);
      head, tail, writer, reader := 0, 0, NoSend, NoReceive;
      messages, seen := [], 0;
    }

    /** prvBytesInBuffer as it is computed */
    method BytesAvailable() returns (n: nat)
      requires Valid()
      ensures n == InBuffer()
    {
      assert Opens(0);
      n := buf.Length + head;
      n := n - tail;
      if n >= buf.Length { n := n - buf.Length; }
    }

    /** xStreamBufferSpacesAvailable: what is free and what is in use always add up. */
    method SpacesAvailable() returns (space: nat)
      requires Valid()
      ensures InBuffer() + space == buf.Length - 1
    {
      assert Opens(0);
      space := buf.Length + tail;
      space := space - head;
      space := space - 1;
      if space >= buf.Length { space := space - buf.Length; }
    }

    /** prvWriteBytesToBuffer */
    method WriteBytes(data: seq<byte>, at: nat) returns (next: nat)
      requires 0 < |data| <= buf.Length && at < buf.Length
      modifies buf
      ensures Stored(old(buf[..]), buf[..], at, data) && next == Wrap(at + |data|, buf.Length)
    {
      var first := if buf.Length - at < |data| then buf.Length - at else |data|;
      forall i | 0 <= i < first { buf[at + i] := data[i]; }
      if |data| > first {
        forall i | 0 <= i < |data| - first { buf[i] := data[first + i]; }
      }
      next := at + |data|;
      if next >= buf.Length { next := next - buf.Length; }
    }

    /** prvReadBytesFromBuffer */
    method ReadBytes(count: nat, at: nat) returns (data: seq<byte>, next: nat)
      requires 0 < count <= buf.Length && at < buf.Length
      ensures data == View(buf[..], at, count) && next == Wrap(at + count, buf.Length)
    {
      var first := if buf.Length - at < count then buf.Length - at else count;
      data := buf[at..at + first];
      if count > first { data := data + buf[..count - first]; }
      next := at + count;
      if next >= buf.Length { next := next - buf.Length; }
    }

    // ----- the steps of prvWriteMessageToBuffer

    /** The writer, with message `m`, looks how much space there is. */
    method LookForSpace(m: seq<byte>)
      requires Valid() && (writer.NoSend? || writer.SpaceSeen?) && |m| <= 0xFFFF_FFFF
      modifies `writer
      ensures Valid() && writer.SpaceSeen? && writer.m == m && InBuffer() + writer.space == buf.Length - 1
    {
      assert Opens(0);
      var space := SpacesAvailable();
      writer := SpaceSeen(m, space);
    }

    /** The length goes into the free space, if that was large enough when it was looked at.  The
        length of an empty message is written, but nothing more is done. */
    method WriteLength()
      requires Valid() && writer.SpaceSeen?
      modifies `writer, buf
      ensures Valid()
      ensures var m := old(writer).m;
              writer == if 0 < |m| && |m| + HEADER <= old(writer).space then LengthWritten(m) else NoSend
    {
      assert Opens(0);
      var m, space := writer.m, writer.space;
      if space >= |m| + HEADER {
        ghost var b := buf[..];
        var _ := WriteBytes(DwordBytes(|m|), head);
        StoredElsewhere(b, buf[..], head, DwordBytes(|m|), tail, InBuffer(), InBuffer());
        StoredView(b, buf[..], head, DwordBytes(|m|));
        writer := if |m| != 0 then LengthWritten(m) else NoSend;
      } else {
        writer := NoSend;
      }
    }

    method WriteData()
      requires Valid() && writer.LengthWritten?
      modifies `writer, buf
      ensures Valid() && writer == DataWritten(old(writer).m)
    {
      assert Opens(0);
      var m := writer.m;
      ghost var b := buf[..];
      var _ := WriteBytes(m, Wrap(head + HEADER, buf.Length));
      DataStored(b, buf[..], head, Wrap(head + HEADER, buf.Length), m);
      DataApart(b, buf[..], tail, InBuffer(), head, m);
      writer := DataWritten(m);
    }

    method PublishHead()
      requires Valid() && writer.DataWritten?
      modifies `head, `messages, `writer
      ensures Valid() && messages == old(messages) + [old(writer).m] && writer == NoSend
      ensures InBuffer() == old(InBuffer()) + HEADER + |old(writer).m|
    {
      assert Opens(0);
      var m := writer.m;
      ghost var n := InBuffer();
      OneMore(buf[..], tail, n, messages, m);
      SeenBefore(messages, m, seen);
      head := Wrap(head + HEADER + |m|, buf.Length);
      assert InBuffer() == n + HEADER + |m|;
      messages := messages + [m];
      writer := NoSend;
    }

    /** A whole xStreamBufferSend that does not wait. */
    method Send(m: seq<byte>) returns (sent: nat)
      requires Valid() && writer == NoSend && |m| <= 0xFFFF_FFFF
      modifies `writer, `head, `messages, buf
      ensures Valid() && writer == NoSend
      ensures sent == if 0 < |m| && |m| + HEADER < buf.Length - old(InBuffer()) then |m| else 0
      ensures messages == if sent > 0 then old(messages) + [m] else old(messages)
    {
      assert Opens(0);
      LookForSpace(m);
      WriteLength();
      if writer == NoSend { return 0; }
      WriteData();
      PublishHead();
      sent := |m|;
    }

    // ----- the steps of prvReadMessageFromBuffer

    /** The reader looks how many bytes there are. */
    method LookForBytes()
      requires Valid() && (reader.NoReceive? || reader.BytesSeen?)
      modifies `reader, `seen
      ensures Valid() && reader == BytesSeen(InBuffer()) && seen == |messages|
    {
      assert Opens(0);
      var n := BytesAvailable();
      assert messages[..|messages|] == messages;
      seen := |messages|;
      reader := BytesSeen(n);
    }

    /** The length of the next message, if there were bytes when the reader looked.  A message that is
        too long for the reader stays. */
    method ReadLength(bufferLength: nat) returns (count: nat)
      requires Valid() && reader.BytesSeen?
      modifies `reader
      ensures Valid() && seen <= |messages|
      ensures count == if seen > 0 && |messages[0]| <= bufferLength then |messages[0]| else 0
      ensures reader == if count > 0 then LengthRead(count) else NoReceive
    {
      assert Opens(0);
      var available := reader.available;
      count := 0;
      if seen == 0 { assert available == 0; }
      if available > HEADER {
        FirstMessage(messages, seen);
        FirstView(buf[..], tail, InBuffer(), messages);
        DwordOfBytes(|messages[0]|);
        var l, _ := ReadBytes(HEADER, tail);
        count := Dword(l[0], l[1], l[2], l[3]);
        if count > bufferLength { count := 0; }
        count := Min(count, available - HEADER);
      }
      reader := if count != 0 then LengthRead(count) else NoReceive;
    }

    method ReadData() returns (data: seq<byte>)
      requires Valid() && reader.LengthRead?
      modifies `reader
      ensures Valid() && messages != [] && data == messages[0] && reader == DataRead(data)
    {
      assert Opens(0);
      FirstView(buf[..], tail, InBuffer(), messages);
      var next;
      data, next := ReadBytes(reader.len, Wrap(tail + HEADER, buf.Length));
      reader := DataRead(data);
    }

    method PublishTail()
      requires Valid() && reader.DataRead?
      modifies `tail, `messages, `reader
      ensures Valid() && old(messages) == [old(reader).data] + messages && reader == NoReceive
      ensures InBuffer() == old(InBuffer()) - HEADER - |old(reader).data|
    {
      assert Opens(0);
      var data := reader.data;
      FirstView(buf[..], tail, InBuffer(), messages);
      tail := Wrap(tail + HEADER + |data|, buf.Length);
      messages := messages[1..];
      reader := NoReceive;
    }

    /** A whole xStreamBufferReceive that does not wait. */
    method Receive(bufferLength: nat) returns (data: seq<byte>)
      requires Valid() && reader == NoReceive
      modifies `reader, `seen, `tail, `messages
      ensures Valid() && reader == NoReceive
      ensures if old(messages) != [] && |old(messages)[0]| <= bufferLength then old(messages) == [data] + messages
              else data == [] && messages == old(messages)
    {
      assert Opens(0);
      LookForBytes();
      var count := ReadLength(bufferLength);
      if count == 0 { return []; }
      data := ReadData();
      PublishTail();
    }
  }

  /** Who moves next: the writer looks for space for a message, or goes on; the reader, with room for
      a message of a length, looks for bytes or goes on. */
  datatype Choice = Offer(m: seq<byte>) | WriterGoes | ReaderLooks | ReaderGoes(bufferLength: nat)

  /** What the writer is sending. */
  ghost function Pending(w: Writer): seq<byte> {
    if w.NoSend? then [] else w.m
  }

  /** A step of the writer; the message that is thereby sent, if any. */
  method WriterStep(b: Buffer) returns (sent: seq<seq<byte>>)
    requires b.Valid()
    modifies b`writer, b`head, b`messages, b.buf
    ensures b.Valid() && b.messages == old(b.messages) + sent
    ensures sent == if old(b.writer).DataWritten? then [old(b.writer).m] else []
    ensures WriterTook(old(b.Now()), b.Now())
  {
    sent := [];
    match b.writer
    case NoSend =>
    case SpaceSeen(_, _) => b.WriteLength();
    case LengthWritten(_) => b.WriteData();
    case DataWritten(m) =>
      b.PublishHead();
      sent := [m];
  }

  /** A step of the reader; the message that is thereby received, if any. */
  method ReaderStep(b: Buffer, bufferLength: nat) returns (received: seq<seq<byte>>)
    requires b.Valid()
    modifies b`reader, b`tail, b`messages
    ensures b.Valid() && old(b.messages) == received + b.messages
    ensures received == if old(b.reader).DataRead? then [old(b.reader).data] else []
    ensures ReaderTook(old(b.Now()), bufferLength, b.Now())
  {
    assert Opens(0);
    received := [];
    match b.reader
    case NoReceive =>
    case BytesSeen(_) => var _ := b.ReadLength(bufferLength);
    case LengthRead(_) => var _ := b.ReadData();
    case DataRead(data) =>
      b.PublishTail();
      received := [data];
  }

  /** What a step changes, and what is thereby sent or received. */
  ghost predicate Took(s: Snap, c: Choice, s': Snap) {
    match c
    case Offer(m) =>
      s' == if (s.writer.NoSend? || s.writer.SpaceSeen?) && |m| <= 0xFFFF_FFFF && 0 <= s.free
            then s.(writer := SpaceSeen(m, s.free)) else s
    case WriterGoes => WriterTook(s, s')
    case ReaderLooks =>
      if s.reader.NoReceive? || s.reader.BytesSeen?
      then s' == s.(reader := s'.reader, seen := |s.messages|) && s'.reader.BytesSeen?
      else s' == s
    case ReaderGoes(n) => ReaderTook(s, n, s')
  }

  /** A step of either. */
  method Step(b: Buffer, c: Choice) returns (sent: seq<seq<byte>>, received: seq<seq<byte>>)
    requires b.Valid()
    modifies b, b.buf
    ensures b.Valid() && old(b.messages) + sent == received + b.messages
    ensures sent == [] || (sent == [Pending(old(b.writer))] && old(b.writer).DataWritten?)
    ensures b.writer.NoSend? || (!old(b.writer).NoSend? && Pending(b.writer) == Pending(old(b.writer)))
            || c == Offer(Pending(b.writer))
    ensures Took(old(b.Now()), c, b.Now())
    ensures sent == if c.WriterGoes? && old(b.writer).DataWritten? then [old(b.writer).m] else []
    ensures received == if c.ReaderGoes? && old(b.reader).DataRead? then [old(b.reader).data] else []
  {
    sent, received := [], [];
    match c
    case Offer(m) =>
      if (b.writer.NoSend? || b.writer.SpaceSeen?) && |m| <= 0xFFFF_FFFF { b.LookForSpace(m); }
    case WriterGoes => sent := WriterStep(b);
    case ReaderLooks =>
      if b.reader.NoReceive? || b.reader.BytesSeen? { b.LookForBytes(); }
    case ReaderGoes(n) => received := ReaderStep(b, n);
  }

  /** Under any schedule of the two, what is received is what was sent, message by message and in order. */
  method Run(b: Buffer, schedule: seq<Choice>)
    returns (sent: seq<seq<byte>>, received: seq<seq<byte>>, ghost snaps: seq<Snap>)
    requires b.Valid()
    modifies b, b.buf
    ensures b.Valid() && old(b.messages) + sent == received + b.messages
    ensures |snaps| == |schedule| + 1 && snaps[0] == old(b.Now()) && snaps[|schedule|] == b.Now()
    ensures forall i :: 0 <= i < |schedule| ==> Took(snaps[i], schedule[i], snaps[i + 1])
    ensures forall i :: 0 <= i < |sent| ==> sent[i] == Pending(old(b.writer)) || Offer(sent[i]) in schedule
  {
    sent, received, snaps := [], [], [b.Now()];
    ghost var pending := Pending(b.writer);
    var i := 0;
    while i < |schedule|
      invariant i <= |schedule| && b.Valid() && old(b.messages) + sent == received + b.messages
      invariant b.writer.NoSend? || Pending(b.writer) == pending || Offer(Pending(b.writer)) in schedule
      invariant forall j :: 0 <= j < |sent| ==> sent[j] == pending || Offer(sent[j]) in schedule
      invariant |snaps| == i + 1 && snaps[0] == old(b.Now()) && snaps[i] == b.Now()
      invariant forall j :: 0 <= j < i ==> Took(snaps[j], schedule[j], snaps[j + 1])
    {
      ghost var ms := b.messages;
      var s, r := Step(b, schedule[i]);
      Conserved(old(b.messages), sent, received, ms, s, r, b.messages);
      sent, received, i, snaps := sent + s, received + r, i + 1, snaps + [b.Now()];
    }
  }

  lemma Conserved(ms0: seq<seq<byte>>, sent: seq<seq<byte>>, received: seq<seq<byte>>, ms: seq<seq<byte>>,
                  s: seq<seq<byte>>, r: seq<seq<byte>>, ms': seq<seq<byte>>)
    requires ms0 + sent == received + ms && ms + s == r + ms'
    ensures ms0 + (sent + s) == (received + r) + ms'
  {
    assert ms0 + (sent + s) == (ms0 + sent) + s;
    assert (received + ms) + s == received + (ms + s);
    assert received + (r + ms') == (received + r) + ms';
  }

  /** The first of the messages that were complete is the first of all. */
  lemma FirstMessage(ms: seq<seq<byte>>, k: nat)
    requires AreMessages(ms) && 0 < k <= |ms|
    ensures AreMessages(ms[..k]) && Encode(ms) == Framed(ms[0]) + Encode(ms[1..])
    ensures HEADER + |ms[0]| <= |Encode(ms[..k])| <= |Encode(ms)|
  {
    EncodePrefix(ms, k);
  }

  lemma {:induction false} EncodePrefix(ms: seq<seq<byte>>, k: nat)
    requires AreMessages(ms) && k <= |ms|
    ensures AreMessages(ms[..k]) && |Encode(ms[..k])| <= |Encode(ms)|
  {
    if k > 0 {
      assert ms[..k][1..] == ms[1..][..k - 1];
      EncodePrefix(ms[1..], k - 1);
    }
  }
}
