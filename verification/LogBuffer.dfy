/** The log buffer of Logging/Buffer.h: writers reserve slots, fill them and commit them in any
    order; one reader takes them in the order of reservation. */
module LogBuffer {
  import opened Bytes
  import opened Guards
  import opened Sectors
  import opened LogRing

  const BULK_SIZE: nat := 512

  /** A slot of a writer inside end_write: a live one, or one that started at position `a` and was
      published by another writer and read in the meantime. */
  datatype Place = Live(k: nat) | Gone(a: nat)

  /** Where a slot started whose writer has yet to look at done_write_slot. */
  ghost function Late(s: Slot): set<nat> {
    if s.phase.Cleared? then {s.start} else {}
  }

  class Buffer {
    const maxLength: nat
    const buff: array<byte>
    var newWrite: nat       // new_write_slot
    var doneWrite: nat      // done_write_slot
    var readyRead: nat      // ready_read_slot
    var dataSize: nat
    var mayRead: bool       // event bits
    var bulkReady: bool

    ghost var slots: seq<Slot>    // the live slots, oldest first
    ghost var readAt: nat         // where they start
    ghost var published: nat      // how many of them the reader may see
    ghost var retired: set<nat>   // where slots started whose writers are late to look at done_write_slot

    /** The position of done_write_slot. */
    ghost function DoneAt(): nat
      requires published <= |slots|
      reads `slots, `readAt, `published
    {
      readAt + Total(slots[..published])
    }

    ghost predicate Valid()
      reads this, buff
    {
      Sound() && mayRead == (dataSize > 0) && bulkReady == (dataSize >= BULK_SIZE)
    }

    /** All but the event bits. */
    ghost predicate Sound()
      reads `newWrite, `doneWrite, `readyRead, `dataSize, `slots, `readAt, `published, `retired, buff
    {
      && buff.Length == 1024 && maxLength + 2 < BUSY && published <= |slots|
      && (forall a :: a in retired ==> a < readAt)
      && State(buff[..], newWrite, doneWrite, readyRead, dataSize, slots, readAt, published)
    }

    constructor (maxLength: nat)
      requires maxLength + 2 < BUSY
      ensures Valid() && slots == [] && fresh(buff)
    {
      this.maxLength := maxLength;
      buff := new byte[1024](_ => 0);
      newWrite, doneWrite, readyRead, dataSize, mayRead, bulkReady := 0, 0, 0, 0, false, false;
      slots, readAt, published, retired := [], 0, 0, {};
      new;
      Empty(buff[..]);
    }

    /** set_slot_len */
    method SetSlotLen(start: nat, lo: byte, hi: byte)
      requires buff.Length == 1024 && start < 1024
      modifies buff
      ensures buff[..] == old(buff[..])[start := lo][(start + 1) % 1024 := hi]
    {
      buff[start] := lo;
      buff[(start + 1) % 1024] := hi;
    }

    /** start_write; its critical section makes it one step. */
    method StartWrite(strLen: nat) returns (ok: bool, start: nat)
      requires Valid()
      modifies `newWrite, `slots, buff
      ensures Valid()
      ensures ok <==> 0 < strLen <= maxLength && strLen + 2 < 1024 - old(Total(slots))
      ensures !ok ==> slots == old(slots) && buff[..] == old(buff[..])
      ensures ok ==>
                && |slots| == |old(slots)| + 1 && slots[..|old(slots)|] == old(slots)
                && start == slots[|old(slots)|].start % 1024
                && slots[|old(slots)|].start == readAt + old(Total(slots))
                && slots[|old(slots)|].len == strLen + 2 && slots[|old(slots)|].phase == Writing
    {
      Laid();
      start := 0;
      if strLen > maxLength || strLen == 0 { return false, 0; }
      var slotLen := strLen + 2;
      UsedSpace(readAt, Total(slots));
      if !(slotLen < 1024 - (newWrite - readyRead) % 1024) { return false, 0; }
      start := newWrite;
      SetSlotLen(start, slotLen % 256, slotLen / 256 + 128);
      ghost var s := Reserved(old(buff[..]), buff[..], newWrite, doneWrite, readyRead, dataSize, slots, readAt,
                              published, slotLen);
      newWrite := (start + slotLen) % 1024;
      slots := slots + [s];
      ok := true;
    }

    /** Slot::set of one character, by the writer of slot `k`. */
    method SetChar(start: nat, j: nat, c: byte, ghost k: nat)
      requires Valid() && k < |slots| && slots[k].phase.Writing? && start == slots[k].start % 1024
               && j < slots[k].len - 2
      modifies `slots, buff
      ensures Valid() && j < |old(slots)[k].text|
              && slots == old(slots)[k := old(slots)[k].(text := old(slots)[k].text[j := c])]
    {
      CharSet(buff[..], newWrite, doneWrite, readyRead, dataSize, slots, readAt, published, k, j, c);
      NextIndex(slots[k].start, 2);
      NextIndex(slots[k].start + 2, j);
      var slotData := (start + 2) % 1024;
      ghost var b: Ring := buff[..];
      buff[(slotData + j) % 1024] := c;
      assert buff[..] == b[(slots[k].start + 2 + j) % 1024 := c];
      slots := slots[k := slots[k].(text := slots[k].text[j := c])];
    }

    /** get_slot_len */
    method GetSlotLen(start: nat, ghost k: nat) returns (len: word)
      requires Valid() && k < |slots| && start == slots[k].start % 1024
      ensures len == slots[k].len + if slots[k].phase.Writing? then BUSY else 0
      ensures 3 <= slots[k].len < 1024
    {
      assert Opens(0);
      assert InRing(buff[..], slots[k]);
      LengthOfSlot(buff[..], slots[k]);
      NextIndex(slots[k].start, 1);
      len := Word(buff[start], buff[(start + 1) % 1024]);
    }

    /** The first step of end_write: the message is committed. */
    method ClearFlag(start: nat, ghost k: nat)
      requires Valid() && k < |slots| && slots[k].phase.Writing? && start == slots[k].start % 1024
      modifies `slots, buff
      ensures Valid() && slots == old(slots)[k := old(slots)[k].(phase := Cleared)]
    {
      var len := GetSlotLen(start, k);
      len := len % BUSY;
      NextIndex(slots[k].start, 1);
      SetSlotLen(start, len % 256, len / 256);
      FlagCleared(old(buff[..]), buff[..], newWrite, doneWrite, readyRead, dataSize, slots, readAt, published, k);
      ghost var sl := slots[k := slots[k].(phase := Cleared)];
      ghost var b := buff[..];
      slots := sl;
      Reached(b, newWrite, doneWrite, readyRead, dataSize, sl, readAt, published);
    }

    /** The second step: is it this writer who publishes?  A writer whose slot was published by another
        one and read in the meantime takes done_write_slot for its own if and only if that has come
        around by a number of whole turns. */
    method IsMine(start: nat, ghost slot: Place) returns (mine: bool)
      requires Valid()
      requires match slot
               case Live(k) => k < |slots| && slots[k].phase.Cleared? && start == slots[k].start % 1024
               case Gone(a) => a in retired && start == a % 1024
      modifies `slots, `retired
      ensures Valid()
      ensures match slot
              case Live(k) =>
                && (mine <==> k == published) && retired == old(retired)
                && slots == old(slots)[k := old(slots)[k].(phase := if mine then Publishing else Over)]
              case Gone(a) =>
                && (mine <==> (DoneAt() - a) % 1024 == 0) && (DoneAt() < a + 1024 ==> !mine)
                && slots == old(slots) && retired == old(retired) - {a}
    {
      Laid();
      mine := doneWrite == start;
      match slot {
        case Live(k) =>
          Lengths();
          Phased();
          IsFirstUnpublished(slots, readAt, published, k);
          PhaseChanged(buff[..], newWrite, doneWrite, readyRead, dataSize, slots, readAt, published, k,
                       if mine then Publishing else Over);
          slots := slots[k := slots[k].(phase := if mine then Publishing else Over)];
        case Gone(a) =>
          WholeTurns(a, DoneAt());
          retired := retired - {a};
      }
    }

    /** A state that was worked out is the one that was reached. */
    lemma Reached(b: Ring, nw: nat, dw: nat, rr: nat, ds: nat, sl: seq<Slot>, ra: nat, pb: nat)
      requires State(b, nw, dw, rr, ds, sl, ra, pb)
      requires buff.Length == 1024 && maxLength + 2 < BUSY && buff[..] == b && newWrite == nw && doneWrite == dw
               && readyRead == rr
      requires dataSize == ds && slots == sl && readAt == ra && published == pb && forall a :: a in retired ==> a < ra
      ensures Sound()
    {
    }

    /** Where everything is. */
    lemma Laid()
      requires Valid()
      ensures IndicesFit(newWrite, doneWrite, readyRead, dataSize, slots, readAt, published)
    {
      assert Opens(0);
    }

    lemma Phased()
      requires Valid()
      ensures PhasesFit(slots, published)
    {
      assert Opens(0);
    }

    lemma Lengths()
      requires Valid()
      ensures forall i :: 0 <= i < |slots| ==> 0 < slots[i].len
    {
      assert Opens(0);
      forall i | 0 <= i < |slots| ensures 0 < slots[i].len { assert InRing(buff[..], slots[i]); }
    }

    /** The bytes of a live slot: its length, with bit 15 set while it is written, and its message. */
    lemma SlotBytes(k: nat, j: nat)
      requires Valid() && k < |slots| && j < |slots[k].text|
      ensures var p := slots[k].start;
              && Word(buff[p % 1024], buff[(p + 1) % 1024]) == slots[k].len
                  + (if slots[k].phase.Writing? then 0x8000 else 0)
              && |slots[k].text| == slots[k].len - 2 && buff[(p + 2 + j) % 1024] == slots[k].text[j]
    {
      assert Opens(0);
      var s := slots[k];
      assert InRing(buff[..], s);
      LengthOfSlot(buff[..], s);
      SpanAt(buff[..], s.start, s.len, 2 + j);
    }

    /** The reader is told of the first message, and of 512 bytes. */
    lemma EventsMean()
      requires Valid()
      ensures mayRead <==> published > 0
      ensures bulkReady <==> Total(slots[..published]) >= 512
    {
      Laid();
      Lengths();
      if published > 0 { Positive(slots, published); }
    }

    /** The third step, a critical section: everything committed in a row is published. */
    method Publish(start: nat, slotLen: nat, ghost k: nat)
      requires Valid() && k < |slots| && slots[k].phase.Publishing? && start == slots[k].start % 1024
               && slotLen == slots[k].len
      modifies `doneWrite, `dataSize, `mayRead, `bulkReady, `slots, `published
      ensures Valid() && k == old(published) < published
      ensures slots == old(slots)[k := old(slots)[k].(phase := Over)]
      ensures forall i :: k <= i < published ==> !slots[i].phase.Writing?
      ensures published < |slots| ==> slots[published].phase.Writing?
    {
      MineIsFirst(k);
      var slot, extra;
      ghost var n;
      slot, extra, n := Committed(start, slotLen);
      Published(buff[..], newWrite, doneWrite, readyRead, dataSize, slots, readAt, published, slot, dataSize + extra,
                n);
      Positive(slots, n);
      ghost var b, ds, sl := buff[..], dataSize + extra, slots[published := slots[published].(phase := Over)];
      doneWrite, dataSize, slots, published := slot, dataSize + extra, sl, n;
      Reached(b, newWrite, slot, readyRead, ds, sl, readAt, n);
      RaiseEvents(dataSize);
    }

    /** A late writer does no harm if the slot that now starts where its own did is committed and as long: it
        publishes for that slot's writer, who then finds nothing to do. */
    method PublishLate(start: nat, slotLen: nat)
      requires Valid() && published < |slots| && slots[published].phase.Cleared?
      requires start == slots[published].start % 1024 && slotLen == slots[published].len
      modifies `doneWrite, `dataSize, `mayRead, `bulkReady, `published
      ensures Valid() && old(published) < published
      ensures forall i :: old(published) <= i < published ==> !slots[i].phase.Writing?
      ensures published < |slots| ==> slots[published].phase.Writing?
    {
      Laid();
      Lengths();
      var slot, extra;
      ghost var n;
      slot, extra, n := Committed(start, slotLen);
      PublishedForAnother(buff[..], newWrite, doneWrite, readyRead, dataSize, slots, readAt, published, slot,
                          dataSize + extra, n);
      Positive(slots, n);
      ghost var b, ds := buff[..], dataSize + extra;
      doneWrite, dataSize, published := slot, dataSize + extra, n;
      Reached(b, newWrite, slot, readyRead, ds, slots, readAt, n);
      RaiseEvents(dataSize);
    }

    method RaiseEvents(dataSizeNow: nat)
      requires Sound() && 0 < dataSizeNow == dataSize && (bulkReady ==> dataSize >= BULK_SIZE)
      modifies `mayRead, `bulkReady
      ensures Valid()
    {
      mayRead := true;
      if !(dataSizeNow < BULK_SIZE) { bulkReady := true; }
    }

    lemma MineIsFirst(k: nat)
      requires Valid() && k < |slots| && slots[k].phase.Publishing?
      ensures k == published && 0 < slots[0].len
    {
      assert Opens(0);
      Lengths();
    }

    /** The loop of update_done_write: past all committed slots from the first unpublished one on. */
    method Committed(start: nat, slotLen: nat) returns (slot: nat, extra: nat, ghost n: nat)
      requires Valid() && published < |slots| && !slots[published].phase.Writing?
      requires start == slots[published].start % 1024 && slotLen == slots[published].len
      ensures published < n <= |slots| && slot == (readAt + Total(slots[..n])) % 1024
      ensures dataSize + extra == Total(slots[..n])
      ensures forall i :: published <= i < n ==> !slots[i].phase.Writing?
      ensures n < |slots| ==> slots[n].phase.Writing?
    {
      Laid();
      Lengths();
      n := published;
      slot, extra := start, 0;
      var len := slotLen;
      while true
        invariant published <= n < |slots| && slot == slots[n].start % 1024 && len == slots[n].len
        invariant dataSize + extra == Total(slots[..n])
        invariant forall i :: published <= i <= n ==> !slots[i].phase.Writing?
        decreases |slots| - n
      {
        extra := extra + len;
        var last;
        slot, last := NextSlot(slot, len, n);
        n := n + 1;
        if last { break; }
        var busy;
        len, busy := Examine(slot, n);
        if busy { break; }
      }
    }

    /** The length of a slot and whether its busy flag is set. */
    method Examine(slot: nat, ghost n: nat) returns (len: nat, busy: bool)
      requires Valid() && n < |slots| && slot == slots[n].start % 1024
      ensures busy <==> slots[n].phase.Writing?
      ensures !busy ==> len == slots[n].len
    {
      len := GetSlotLen(slot, n);
      busy := len / BUSY % 2 == 1;
    }

    /** next_slot, and whether it is the end of what is reserved. */
    method NextSlot(slot: nat, len: nat, ghost n: nat) returns (next: nat, last: bool)
      requires Valid() && n < |slots| && slot == slots[n].start % 1024 && len == slots[n].len
      ensures Total(slots[..n + 1]) == Total(slots[..n]) + len && next == (readAt + Total(slots[..n + 1])) % 1024
      ensures if last then n + 1 == |slots| else n + 1 < |slots| && next == slots[n + 1].start % 1024
    {
      Laid();
      Lengths();
      NextIsLast(slots, readAt, n);
      next := (slot + len) % 1024;
      last := next == newWrite;
    }

    /** try_read: the oldest published slot, if any. */
    method TryRead() returns (ok: bool, start: nat)
      requires Valid()
      ensures ok <==> published > 0
      ensures ok ==> start == slots[0].start % 1024
    {
      Laid();
      Lengths();
      ok := readyRead != doneWrite;
      start := readyRead;
      if published > 0 {
        Positive(slots, published);
        TotalPrefix(slots, published);
        OneTurn(readAt, readAt + Total(slots[..published]));
      }
    }

    /** Slot::copy_to, by the reader: the message up to its terminator. */
    method CopyTo(start: nat) returns (text: seq<byte>)
      requires Valid() && published > 0 && start == slots[0].start % 1024 && 0 in slots[0].text
      ensures text + [0] <= slots[0].text && 0 !in text
    {
      assert Opens(0);
      ghost var s := slots[0];
      assert InRing(buff[..], s);
      text := [];
      var i := 0;
      while true
        invariant i == |text| < |s.text| && text == s.text[..i] && 0 !in text
        decreases |s.text| - i
      {
        SpanAt(buff[..], s.start, s.len, 2 + i);
        NextIndex(s.start, 2);
        NextIndex(s.start + 2, i);
        var c := buff[((start + 2) % 1024 + i) % 1024];
        assert c == s.text[i];
        if c == 0 { break; }
        text := text + [c];
        i := i + 1;
      }
    }

    /** The length of the oldest slot, which is not busy. */
    method OldestLength() returns (len: nat)
      requires Valid() && published > 0
      ensures len == slots[0].len && readyRead == slots[0].start % 1024 && slots[0].start == readAt
    {
      Laid();
      Phased();
      TiledAt(slots, readAt, 0);
      len := GetSlotLen(readyRead, 0);
    }

    /** end_read: the oldest slot is given back. */
    method EndRead()
      requires Valid() && published > 0
      modifies `readyRead, `dataSize, `mayRead, `bulkReady, `slots, `readAt, `published, `retired
      ensures Valid() && slots == old(slots)[1..] && published == old(published) - 1
      ensures retired == old(retired) + Late(old(slots)[0]) && readAt == old(slots)[0].End()
    {
      var slotLen := OldestLength();
      OldestRetires();
      LateIsBehind();
      ghost var b, rr, ds, rest, at, n :=
          buff[..], (readyRead + slotLen) % 1024, dataSize - slotLen, slots[1..], readAt + slotLen, published - 1;
      dataSize, readyRead := dataSize - slotLen, (readyRead + slotLen) % 1024;
      readAt, slots, published, retired := at, rest, n, retired + Late(slots[0]);
      Reached(b, newWrite, doneWrite, rr, ds, rest, at, n);
      ClearEvents();
    }

    method ClearEvents()
      requires Sound() && (dataSize > 0 ==> mayRead) && (dataSize >= BULK_SIZE ==> bulkReady)
      modifies `mayRead, `bulkReady
      ensures Valid()
    {
      if dataSize == 0 { mayRead := false; }
      if dataSize < BULK_SIZE { bulkReady := false; }
    }

    lemma OldestRetires()
      requires Valid() && published > 0
      ensures var s := slots[0];
              && 0 < s.len <= dataSize && s.start == readAt
              && State(buff[..], newWrite, doneWrite, (readyRead + s.len) % 1024, dataSize - s.len, slots[1..],
                       readAt + s.len, published - 1)
    {
      Lengths();
      Retired(buff[..], newWrite, doneWrite, readyRead, dataSize, slots, readAt, published);
    }

    lemma LateIsBehind()
      requires Valid() && published > 0
      ensures forall a :: a in retired + Late(slots[0]) ==> a < readAt + slots[0].len
    {
      Lengths();
      assert Opens(0);
    }

    /** Unless a writer is in the middle of end_write, the reader sees all messages up to the first
        that is still being written. */
    lemma LongestPrefix()
      requires Valid() && forall i :: 0 <= i < |slots| ==> slots[i].phase.Writing? || slots[i].phase.Over?
      ensures forall i :: 0 <= i < published ==> slots[i].phase.Over?
      ensures published < |slots| ==> slots[published].phase.Writing?
    {
      assert Opens(0);
    }
  }

  lemma WholeTurns(a: nat, p: nat)
    requires a < p
    ensures a % 1024 == p % 1024 <==> (p - a) % 1024 == 0
    ensures p < a + 1024 ==> (p - a) % 1024 != 0
  {
  }

  /** A late writer that publishes where nothing is reserved, or where a slot is still being written or is about
      to be published by its own writer, leaves a count with which no state agrees. */
  lemma CountedTwice(b: Ring, newWrite: nat, doneWrite: nat, readyRead: nat, dataSize: nat, slots: seq<Slot>,
                     readAt: nat, published: nat, doneWrite': nat, extra: nat, n: nat)
    requires State(b, newWrite, doneWrite, readyRead, dataSize, slots, readAt, published) && 0 < extra
    requires published < |slots| ==> !slots[published].phase.Cleared?
    ensures !State(b, newWrite, doneWrite', readyRead, dataSize + extra, slots, readAt, n)
  {
    assert Opens(0) && slots[..|slots|] == slots;
    if n <= published {
      TotalMono(slots, n, published);
    } else if n <= |slots| && published == |slots| {
      TotalPrefix(slots, n);
    }
  }

  /** A message of one reader's turn, from an empty buffer to an empty one. */
  method WriteAndRead(b: Buffer, strLen: nat)
    requires b.Valid() && b.slots == [] && b.published == 0 && 0 < strLen <= b.maxLength && strLen + 2 < 1024
    modifies b, b.buff
    ensures b.Valid() && b.slots == [] && b.published == 0 && b.readAt == old(b.readAt) + strLen + 2
            && b.retired == old(b.retired)
  {
    var _, start := b.StartWrite(strLen);
    b.ClearFlag(start, 0);
    var _ := b.IsMine(start, Live(0));
    b.Publish(start, strLen + 2, 0);
    b.EndRead();
  }

  /** A message is published by the writer of the one before it, and both are read. */
  method PublishedByAnother(b: Buffer) returns (late: nat, ghost a: nat)
    requires b.Valid() && b.slots == [] && b.published == 0 && 2 <= b.maxLength
    modifies b, b.buff
    ensures b.Valid() && b.slots == [] && b.published == 0
    ensures a in b.retired && late == a % 1024 && b.readAt == a + 4
  {
    var _, first := b.StartWrite(1);
    late := TwoCommitted(b, first);
    a := b.slots[1].start;
    var _ := b.IsMine(first, Live(0));
    b.Publish(first, 3, 0);
    b.EndRead();
    b.EndRead();
  }

  method TwoCommitted(b: Buffer, first: nat) returns (late: nat)
    requires b.Valid() && b.published == 0 && |b.slots| == 1 && b.slots[0].phase.Writing? && b.slots[0].len == 3
             && 2 <= b.maxLength
    requires b.slots[0].start == b.readAt && first == b.readAt % 1024
    modifies b, b.buff
    ensures b.Valid() && b.published == 0 && |b.slots| == 2 && b.readAt == old(b.readAt) && b.retired == old(b.retired)
    ensures b.slots[0].phase.Cleared? && b.slots[1].phase.Cleared? && b.slots[0].start == old(b.slots[0].start)
    ensures b.slots[0].len == 3 && b.slots[1].len == 4 && b.slots[1].start == b.slots[0].start + 3
            && late == b.slots[1].start % 1024
  {
    assert b.slots == [b.slots[0]] + [] && Total(b.slots) == 3;
    var _, second := b.StartWrite(2);
    b.ClearFlag(second, 1);
    b.ClearFlag(first, 0);
    late := second;
  }

  /** It can happen, without any slot being reserved where the late writer's was: messages of a whole
      turn but for its own length follow.  The buffer is empty, and the late writer is to publish again. */
  method LateWriter(b: Buffer) returns (mine: bool)
    requires b.Valid() && b.slots == [] && b.published == 0 && 2 <= b.maxLength
    modifies b, b.buff
    ensures b.Valid() && b.slots == [] && mine
  {
    var late;
    ghost var a;
    late, a := PublishedByAnother(b);
    var n := 0;
    while n < 255
      invariant n <= 255 && b.Valid() && b.slots == [] && b.published == 0 && a in b.retired
                && b.readAt == a + 4 + 4 * n
    {
      WriteAndRead(b, 2);
      n := n + 1;
    }
    mine := b.IsMine(late, Gone(a));
  }

  lemma Positive(slots: seq<Slot>, n: nat)
    requires 0 < n <= |slots| && 0 < slots[0].len
    ensures 0 < Total(slots[..n])
  {
  }

  lemma Empty(b: Ring)
    ensures State(b, 0, 0, 0, 0, [], 0, 0)
  {
  }
}
