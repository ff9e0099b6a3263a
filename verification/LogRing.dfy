/** The ring of Logging/Buffer.h: bytes of message slots in a circular buffer.  Ghost positions do not
    wrap around; position `p` is at index `p % 1024`. */
module LogRing {
  import opened Bytes
  import opened Guards
  import opened Sectors

  const BUSY: nat := 0x8000

  type Ring = b: seq<byte> | |b| == 1024 witness seq(1024, _ => 0)

  /** The `n` bytes from position `p`. */
  ghost function Span(b: Ring, p: nat, n: nat): (s: seq<byte>)
    ensures |s| == n
    decreases n
  {
    if n == 0 then [] else [b[p % 1024]] + Span(b, p + 1, n - 1)
  }

  lemma {:induction false} SpanAt(b: Ring, p: nat, n: nat, j: nat)
    requires j < n
    ensures Span(b, p, n)[j] == b[(p + j) % 1024]
    decreases n
  {
    if j > 0 { SpanAt(b, p + 1, n - 1, j - 1); }
  }

  /** Within one turn of the ring, different positions have different indices. */
  lemma OneTurn(p: nat, q: nat)
    requires p != q && p < q + 1024 && q < p + 1024
    ensures p % 1024 != q % 1024
  {
  }

  lemma {:induction false} SpanElsewhere(b: Ring, q: nat, c: byte, p: nat, n: nat)
    requires (p + n <= q < p + 1024) || (q < p && p + n <= q + 1024)
    ensures Span(b[q % 1024 := c], p, n) == Span(b, p, n)
    decreases n
  {
    if n > 0 {
      OneTurn(p, q);
      SpanElsewhere(b, q, c, p + 1, n - 1);
    }
  }

  lemma {:induction false} SpanUpdate(b: Ring, p: nat, n: nat, j: nat, c: byte)
    requires j < n <= 1024
    ensures Span(b[(p + j) % 1024 := c], p, n) == Span(b, p, n)[j := c]
    decreases n
  {
    if j == 0 {
      if n > 1 { SpanElsewhere(b, p, c, p + 1, n - 1); }
    } else {
      OneTurn(p, p + j);
      SpanUpdate(b, p + 1, n - 1, j - 1, c);
    }
  }

  /** Where a writer is: filling its slot; the flag cleared, but done_write_slot not yet looked at;
      about to publish; or through with end_write. */
  datatype Phase = Writing | Cleared | Publishing | Over

  /** A live slot: where it starts, its length with the header, its writer and its message. */
  datatype Slot = Slot(start: nat, len: nat, phase: Phase, text: seq<byte>)
  {
    function End(): nat {
      start + len
    }
  }

  function Header(len: nat, busy: bool): (h: seq<byte>)
    requires len < BUSY
    ensures |h| == 2
  {
    [len % 256, len / 256 + if busy then 128 else 0]
  }

  ghost predicate InRing(b: Ring, s: Slot) {
    && 3 <= s.len < 1024 && |s.text| == s.len - 2
    && Span(b, s.start, s.len) == Header(s.len, s.phase.Writing?) + s.text
  }

  ghost predicate AllInRing(b: Ring, slots: seq<Slot>) {
    forall i :: 0 <= i < |slots| ==> InRing(b, slots[i])
  }

  /** The slots lie one behind the other from position `p`. */
  ghost predicate Tiled(slots: seq<Slot>, p: nat) {
    slots == [] || (slots[0].start == p && Tiled(slots[1..], slots[0].End()))
  }

  ghost function Total(slots: seq<Slot>): nat {
    if slots == [] then 0 else slots[0].len + Total(slots[1..])
  }

  lemma {:induction false} TiledAt(slots: seq<Slot>, p: nat, i: nat)
    requires Tiled(slots, p) && i < |slots|
    ensures slots[i].start == p + Total(slots[..i]) && slots[i].End() <= p + Total(slots)
    ensures Total(slots[..i + 1]) == Total(slots[..i]) + slots[i].len
  {
    if i == 0 {
      assert slots[..1][1..] == [];
    } else {
      TiledAt(slots[1..], slots[0].End(), i - 1);
      assert slots[..i] == [slots[0]] + slots[1..][..i - 1] && slots[..i + 1] == [slots[0]] + slots[1..][..i];
    }
  }

  lemma {:induction false} TiledApart(slots: seq<Slot>, p: nat, i: nat, j: nat)
    requires Tiled(slots, p) && i < j < |slots|
    ensures slots[i].End() <= slots[j].start
  {
    if i == 0 {
      TiledAt(slots[1..], slots[0].End(), j - 1);
    } else {
      TiledApart(slots[1..], slots[0].End(), i - 1, j - 1);
    }
  }

  lemma {:induction false} TiledAppend(slots: seq<Slot>, p: nat, s: Slot)
    requires Tiled(slots, p) && s.start == p + Total(slots)
    ensures Tiled(slots + [s], p) && Total(slots + [s]) == Total(slots) + s.len
  {
    if slots == [] {
      assert [s][1..] == [];
    } else {
      assert (slots + [s])[1..] == slots[1..] + [s];
      TiledAppend(slots[1..], slots[0].End(), s);
    }
  }

  /** Changing what is in a slot does not move any. */
  lemma {:induction false} TiledUpdate(slots: seq<Slot>, p: nat, i: nat, s: Slot, n: nat)
    requires Tiled(slots, p) && i < |slots| && s.start == slots[i].start && s.len == slots[i].len && n <= |slots|
    ensures Tiled(slots[i := s], p) && Total(slots[i := s]) == Total(slots)
            && Total(slots[i := s][..n]) == Total(slots[..n])
  {
    var t := slots[i := s];
    if n > 0 { assert slots[..n][1..] == slots[1..][..n - 1] && t[..n][1..] == t[1..][..n - 1]; }
    if i == 0 {
      assert t[1..] == slots[1..];
    } else {
      assert t[1..] == slots[1..][i - 1 := s];
      TiledUpdate(slots[1..], slots[0].End(), i - 1, s, if n > 0 then n - 1 else 0);
    }
  }

  /** A byte written into slot `k`, or behind all slots, leaves the other slots alone. */
  lemma OthersInRing(b: Ring, slots: seq<Slot>, p: nat, q: nat, c: byte, k: nat, i: nat)
    requires Tiled(slots, p) && Total(slots) < 1024 && AllInRing(b, slots) && i < |slots| && i != k
    requires if k < |slots| then slots[k].start <= q < slots[k].End() else p + Total(slots) <= q < p + 1024
    ensures InRing(b[q % 1024 := c], slots[i])
  {
    TiledAt(slots, p, i);
    if k < |slots| {
      TiledAt(slots, p, k);
      if i < k { TiledApart(slots, p, i, k); } else { TiledApart(slots, p, k, i); }
    }
    SpanElsewhere(b, q, c, slots[i].start, slots[i].len);
  }

  // ----- the invariant

  /** Writers through with the check of done_write_slot are never ahead of it; only the writer of the
      first unpublished slot may be about to publish. */
  ghost predicate PhasesFit(slots: seq<Slot>, published: nat) {
    && published <= |slots|
    && (forall i :: 0 <= i < published ==> slots[i].phase.Cleared? || slots[i].phase.Over?)
    && (published < |slots| ==> !slots[published].phase.Over?)
    && (forall i :: published < i < |slots| ==> !slots[i].phase.Publishing?)
  }

  /** The indices and the count agree with the slots. */
  ghost predicate IndicesFit(newWrite: nat, doneWrite: nat, readyRead: nat, dataSize: nat, slots: seq<Slot>,
                             readAt: nat, published: nat) {
    && Tiled(slots, readAt) && Total(slots) < 1024 && published <= |slots|
    && newWrite == (readAt + Total(slots)) % 1024
    && doneWrite == (readAt + Total(slots[..published])) % 1024
    && readyRead == readAt % 1024
    && dataSize == Total(slots[..published])
  }

  /** A byte of slot `k` changes, and with it what is known of that slot. */
  lemma ByteOfSlot(b: Ring, slots: seq<Slot>, p: nat, q: nat, c: byte, k: nat, s: Slot)
    requires Tiled(slots, p) && Total(slots) < 1024 && AllInRing(b, slots) && k < |slots|
    requires slots[k].start <= q < slots[k].End() && InRing(b[q % 1024 := c], s)
    ensures AllInRing(b[q % 1024 := c], slots[k := s])
  {
    var b', t := b[q % 1024 := c], slots[k := s];
    forall i | 0 <= i < |t| ensures InRing(b', t[i]) {
      if i != k { OthersInRing(b, slots, p, q, c, k, i); }
    }
  }

  /** A character of the message. */
  lemma CharOfSlot(b: Ring, s: Slot, j: nat, c: byte)
    requires InRing(b, s) && j < s.len - 2
    ensures InRing(b[(s.start + 2 + j) % 1024 := c], s.(text := s.text[j := c]))
  {
    SpanUpdate(b, s.start, s.len, 2 + j, c);
  }

  /** The high byte of the length, where the busy flag is. */
  lemma FlagOfSlot(b: Ring, s: Slot)
    requires InRing(b, s) && s.phase.Writing?
    ensures b[s.start % 1024] == s.len % 256 && b[(s.start + 1) % 1024] == s.len / 256 + 128
    ensures var b1 := b[s.start % 1024 := s.len % 256];
            InRing(b1, s) && InRing(b1[(s.start + 1) % 1024 := s.len / 256], s.(phase := Cleared))
  {
    SpanAt(b, s.start, s.len, 0);
    SpanAt(b, s.start, s.len, 1);
    var b1 := b[s.start % 1024 := s.len % 256];
    assert b1 == b;
    SpanUpdate(b, s.start, s.len, 1, s.len / 256);
  }

  /** The length that the header of a slot holds. */
  lemma LengthOfSlot(b: Ring, s: Slot)
    requires InRing(b, s)
    ensures Word(b[s.start % 1024], b[(s.start + 1) % 1024]) == s.len + if s.phase.Writing? then BUSY else 0
  {
    SpanAt(b, s.start, s.len, 0);
    SpanAt(b, s.start, s.len, 1);
  }

  /** A new slot behind the others: its header is written, the message is whatever is there. */
  lemma NewSlot(b: Ring, p: nat, len: nat) returns (s: Slot)
    requires 3 <= len < 1024
    ensures var b1 := b[p % 1024 := len % 256][(p + 1) % 1024 := len / 256 + 128];
            s == Slot(p, len, Writing, s.text) && InRing(b1, s)
  {
    var b1 := b[p % 1024 := len % 256][(p + 1) % 1024 := len / 256 + 128];
    s := Slot(p, len, Writing, Span(b1, p + 2, len - 2));
    OneTurn(p, p + 1);
    SpanFromTwo(b1, p, len);
  }

  lemma SpanFromTwo(b: Ring, p: nat, n: nat)
    requires 2 <= n
    ensures Span(b, p, n) == [b[p % 1024], b[(p + 1) % 1024]] + Span(b, p + 2, n - 2)
  {
    assert Span(b, p, n) == [b[p % 1024]] + Span(b, p + 1, n - 1);
    assert Span(b, p + 1, n - 1) == [b[(p + 1) % 1024]] + Span(b, p + 2, n - 2);
  }

  lemma BehindSlots(b: Ring, slots: seq<Slot>, p: nat, q: nat, c: byte)
    requires Tiled(slots, p) && Total(slots) < 1024 && AllInRing(b, slots) && p + Total(slots) <= q < p + 1024
    ensures AllInRing(b[q % 1024 := c], slots)
  {
    forall i | 0 <= i < |slots| ensures InRing(b[q % 1024 := c], slots[i]) {
      OthersInRing(b, slots, p, q, c, |slots|, i);
    }
  }

  /** Slot `k` starts where the published part ends if and only if it is the first unpublished one. */
  lemma IsFirstUnpublished(slots: seq<Slot>, p: nat, published: nat, k: nat)
    requires Tiled(slots, p) && Total(slots) < 1024 && published <= |slots| && k < |slots|
    requires forall i :: 0 <= i < |slots| ==> 0 < slots[i].len
    ensures slots[k].start % 1024 == (p + Total(slots[..published])) % 1024 <==> k == published
  {
    TiledAt(slots, p, k);
    TotalPrefix(slots, published);
    TotalPrefix(slots, k);
    if k < published {
      TotalMono(slots, k + 1, published);
      OneTurn(slots[k].start, p + Total(slots[..published]));
    } else if k > published {
      TotalMono(slots, published + 1, k);
      TiledAt(slots, p, published);
      OneTurn(slots[k].start, p + Total(slots[..published]));
    }
  }

  lemma TotalPrefix(slots: seq<Slot>, n: nat)
    requires n <= |slots|
    ensures Total(slots[..n]) <= Total(slots)
  {
    TotalMono(slots, n, |slots|);
    assert slots[..|slots|] == slots;
  }

  lemma {:induction false} TotalMono(slots: seq<Slot>, m: nat, n: nat)
    requires m <= n <= |slots|
    ensures Total(slots[..m]) <= Total(slots[..n])
  {
    if m > 0 {
      assert slots[..m][1..] == slots[1..][..m - 1] && slots[..n][1..] == slots[1..][..n - 1];
      TotalMono(slots[1..], m - 1, n - 1);
    }
  }

  ghost predicate State(b: Ring, newWrite: nat, doneWrite: nat, readyRead: nat, dataSize: nat, slots: seq<Slot>,
                        readAt: nat, published: nat) {
    published <= |slots| && newWrite < 1024 && forall k: nat :: Opens(k) ==>
      && AllInRing(b, slots) && PhasesFit(slots, published)
      && IndicesFit(newWrite, doneWrite, readyRead, dataSize, slots, readAt, published)
  }

  lemma UsedSpace(p: nat, n: nat)
    requires n < 1024
    ensures ((p + n) % 1024 - p % 1024) % 1024 == n
  {
  }

  lemma NextIndex(p: nat, n: nat)
    ensures (p % 1024 + n) % 1024 == (p + n) % 1024
  {
  }

  /** Reserving a slot. */
  lemma Reserved(b: Ring, b': Ring, newWrite: nat, doneWrite: nat, readyRead: nat, dataSize: nat, slots: seq<Slot>,
                 readAt: nat, published: nat, len: nat) returns (s: Slot)
    requires State(b, newWrite, doneWrite, readyRead, dataSize, slots, readAt, published)
    requires 3 <= len < 1024 - Total(slots)
    requires b' == b[newWrite := len % 256][(newWrite + 1) % 1024 := len / 256 + 128]
    ensures s == Slot(readAt + Total(slots), len, Writing, s.text) && newWrite == s.start % 1024
    ensures State(b', (newWrite + len) % 1024, doneWrite, readyRead, dataSize, slots + [s], readAt, published)
  {
    assert Opens(0);
    NextIndex(readAt + Total(slots), 1);
    s := ReservedBytes(b, b', slots, readAt, readAt + Total(slots), len);
    ReservedIndices(newWrite, doneWrite, readyRead, dataSize, slots, readAt, published, s);
  }

  lemma ReservedIndices(newWrite: nat, doneWrite: nat, readyRead: nat, dataSize: nat, slots: seq<Slot>, readAt: nat,
                        published: nat, s: Slot)
    requires IndicesFit(newWrite, doneWrite, readyRead, dataSize, slots, readAt, published)
             && PhasesFit(slots, published)
    requires s.start == readAt + Total(slots) && s.len < 1024 - Total(slots) && s.phase == Writing
    ensures IndicesFit((newWrite + s.len) % 1024, doneWrite, readyRead, dataSize, slots + [s], readAt, published)
    ensures PhasesFit(slots + [s], published)
  {
    NextIndex(s.start, s.len);
    TiledAppend(slots, readAt, s);
    assert (slots + [s])[..published] == slots[..published];
  }

  lemma ReservedBytes(b: Ring, b': Ring, slots: seq<Slot>, readAt: nat, p: nat, len: nat) returns (s: Slot)
    requires Tiled(slots, readAt) && AllInRing(b, slots) && p == readAt + Total(slots)
    requires 3 <= len < 1024 - Total(slots)
    requires b' == b[p % 1024 := len % 256][(p + 1) % 1024 := len / 256 + 128]
    ensures s == Slot(p, len, Writing, s.text) && AllInRing(b', slots + [s])
  {
    s := NewSlot(b, p, len);
    BehindSlots(b, slots, readAt, p, len % 256);
    BehindSlots(b[p % 1024 := len % 256], slots, readAt, p + 1, len / 256 + 128);
  }

  /** Changing slot `k` in place, by bytes of it. */
  lemma Changed(b: Ring, b': Ring, newWrite: nat, doneWrite: nat, readyRead: nat, dataSize: nat, slots: seq<Slot>,
                readAt: nat, published: nat, k: nat, s: Slot)
    requires State(b, newWrite, doneWrite, readyRead, dataSize, slots, readAt, published)
    requires k < |slots| && s.start == slots[k].start && s.len == slots[k].len
    requires AllInRing(b', slots[k := s]) && PhasesFit(slots[k := s], published)
    ensures State(b', newWrite, doneWrite, readyRead, dataSize, slots[k := s], readAt, published)
  {
    assert Opens(0);
    ChangedIndices(newWrite, doneWrite, readyRead, dataSize, slots, readAt, published, k, s);
  }

  lemma ChangedIndices(newWrite: nat, doneWrite: nat, readyRead: nat, dataSize: nat, slots: seq<Slot>, readAt: nat,
                       published: nat, k: nat, s: Slot)
    requires IndicesFit(newWrite, doneWrite, readyRead, dataSize, slots, readAt, published)
    requires k < |slots| && s.start == slots[k].start && s.len == slots[k].len
    ensures IndicesFit(newWrite, doneWrite, readyRead, dataSize, slots[k := s], readAt, published)
  {
    TiledUpdate(slots, readAt, k, s, published);
  }

  /** set() of a character by the writer of slot `k`. */
  lemma CharSet(b: Ring, newWrite: nat, doneWrite: nat, readyRead: nat, dataSize: nat, slots: seq<Slot>, readAt: nat,
                published: nat, k: nat, j: nat, c: byte)
    requires State(b, newWrite, doneWrite, readyRead, dataSize, slots, readAt, published)
    requires k < |slots| && j < slots[k].len - 2
    ensures |slots[k].text| == slots[k].len - 2
    ensures State(b[(slots[k].start + 2 + j) % 1024 := c], newWrite, doneWrite, readyRead, dataSize,
                  slots[k := slots[k].(text := slots[k].text[j := c])], readAt, published)
  {
    assert Opens(0);
    var s, q := slots[k].(text := slots[k].text[j := c]), slots[k].start + 2 + j;
    CharOfSlot(b, slots[k], j, c);
    ByteOfSlot(b, slots, readAt, q, c, k, s);
    SamePhases(slots, published, k, s);
    Changed(b, b[q % 1024 := c], newWrite, doneWrite, readyRead, dataSize, slots, readAt, published, k, s);
  }

  lemma SamePhases(slots: seq<Slot>, published: nat, k: nat, s: Slot)
    requires PhasesFit(slots, published) && k < |slots| && s.phase == slots[k].phase
    ensures PhasesFit(slots[k := s], published)
  {
  }

  /** The first step of end_write. */
  lemma FlagCleared(b: Ring, b': Ring, newWrite: nat, doneWrite: nat, readyRead: nat, dataSize: nat, slots: seq<Slot>,
                    readAt: nat, published: nat, k: nat)
    requires State(b, newWrite, doneWrite, readyRead, dataSize, slots, readAt, published)
    requires k < |slots| && slots[k].phase.Writing?
    requires var s := slots[k]; b' == b[s.start % 1024 := s.len % 256][(s.start + 1) % 1024 := s.len / 256]
    ensures State(b', newWrite, doneWrite, readyRead, dataSize, slots[k := slots[k].(phase := Cleared)], readAt,
                  published)
  {
    assert Opens(0);
    var s := slots[k];
    var b1 := b[s.start % 1024 := s.len % 256];
    FlagOfSlot(b, s);
    ByteOfSlot(b, slots, readAt, s.start, s.len % 256, k, s);
    assert slots[k := s] == slots;
    ByteOfSlot(b1, slots, readAt, s.start + 1, s.len / 256, k, s.(phase := Cleared));
    Changed(b, b', newWrite, doneWrite, readyRead, dataSize, slots, readAt, published, k, s.(phase := Cleared));
  }

  /** A step of a writer that changes no byte. */
  lemma PhaseChanged(b: Ring, newWrite: nat, doneWrite: nat, readyRead: nat, dataSize: nat, slots: seq<Slot>,
                     readAt: nat, published: nat, k: nat, phase: Phase)
    requires State(b, newWrite, doneWrite, readyRead, dataSize, slots, readAt, published)
    requires k < |slots| && !slots[k].phase.Writing? && !phase.Writing?
    requires PhasesFit(slots[k := slots[k].(phase := phase)], published)
    ensures State(b, newWrite, doneWrite, readyRead, dataSize, slots[k := slots[k].(phase := phase)], readAt, published)
  {
    assert Opens(0);
    var s := slots[k].(phase := phase);
    var t := slots[k := s];
    forall i | 0 <= i < |t| ensures InRing(b, t[i]) { assert InRing(b, slots[i]); }
    Changed(b, b, newWrite, doneWrite, readyRead, dataSize, slots, readAt, published, k, s);
  }

  /** end_read: the oldest slot is gone. */
  lemma Retired(b: Ring, newWrite: nat, doneWrite: nat, readyRead: nat, dataSize: nat, slots: seq<Slot>, readAt: nat,
                published: nat)
    requires State(b, newWrite, doneWrite, readyRead, dataSize, slots, readAt, published) && 0 < published
    ensures slots[0].len <= dataSize && slots[0].start == readAt
    ensures State(b, newWrite, doneWrite, (readyRead + slots[0].len) % 1024, dataSize - slots[0].len, slots[1..],
                  readAt + slots[0].len, published - 1)
  {
    assert Opens(0);
    RestInRing(b, slots, published);
    RetiredIndices(newWrite, doneWrite, readyRead, dataSize, slots, readAt, published);
  }

  lemma RestInRing(b: Ring, slots: seq<Slot>, published: nat)
    requires AllInRing(b, slots) && PhasesFit(slots, published) && 0 < published
    ensures AllInRing(b, slots[1..]) && PhasesFit(slots[1..], published - 1)
  {
    forall i | 0 <= i < |slots| - 1 ensures slots[1..][i] == slots[i + 1] && InRing(b, slots[1..][i]) { }
  }

  lemma RetiredIndices(newWrite: nat, doneWrite: nat, readyRead: nat, dataSize: nat, slots: seq<Slot>, readAt: nat,
                       published: nat)
    requires IndicesFit(newWrite, doneWrite, readyRead, dataSize, slots, readAt, published) && 0 < published
    ensures slots[0].len <= dataSize && slots[0].start == readAt
    ensures IndicesFit(newWrite, doneWrite, (readyRead + slots[0].len) % 1024, dataSize - slots[0].len, slots[1..],
                       readAt + slots[0].len, published - 1)
  {
    assert slots[..published][1..] == slots[1..][..published - 1];
    NextIndex(readAt, slots[0].len);
  }

  /** The index behind slot `n` is that of new_write_slot if and only if it is the last one. */
  lemma NextIsLast(slots: seq<Slot>, p: nat, n: nat)
    requires Tiled(slots, p) && Total(slots) < 1024 && n < |slots| && forall i :: 0 <= i < |slots| ==> 0 < slots[i].len
    ensures Total(slots[..n + 1]) == Total(slots[..n]) + slots[n].len <= Total(slots)
    ensures (slots[n].start % 1024 + slots[n].len) % 1024 == (p + Total(slots[..n + 1])) % 1024
    ensures (slots[n].start % 1024 + slots[n].len) % 1024 == (p + Total(slots)) % 1024 <==> n + 1 == |slots|
    ensures n + 1 < |slots| ==> slots[n + 1].start == p + Total(slots[..n + 1])
  {
    TiledAt(slots, p, n);
    NextIndex(slots[n].start, slots[n].len);
    if n + 1 == |slots| {
      assert slots[..n + 1] == slots;
    } else {
      TiledAt(slots, p, n + 1);
      TotalPrefix(slots, n + 2);
      OneTurn(p + Total(slots[..n + 1]), p + Total(slots));
    }
  }

  /** After publishing up to slot `n`. */
  lemma Published(b: Ring, newWrite: nat, doneWrite: nat, readyRead: nat, dataSize: nat, slots: seq<Slot>, readAt: nat,
                  published: nat, doneWrite': nat, dataSize': nat, n: nat)
    requires State(b, newWrite, doneWrite, readyRead, dataSize, slots, readAt, published)
    requires published < n <= |slots| && slots[published].phase.Publishing?
    requires doneWrite' == (readAt + Total(slots[..n])) % 1024 && dataSize' == Total(slots[..n])
    requires forall i :: published <= i < n ==> !slots[i].phase.Writing?
    requires n < |slots| ==> slots[n].phase.Writing?
    ensures State(b, newWrite, doneWrite', readyRead, dataSize', slots[published := slots[published].(phase := Over)],
                  readAt, n)
  {
    assert Opens(0);
    OverInRing(b, slots, published);
    PublishedIndices(newWrite, doneWrite, readyRead, dataSize, slots, readAt, published, doneWrite', dataSize', n);
    PublishedPhases(slots, published, n);
  }

  /** After publishing up to slot `n` for a writer that has not looked at done_write_slot yet. */
  lemma PublishedForAnother(b: Ring, newWrite: nat, doneWrite: nat, readyRead: nat, dataSize: nat, slots: seq<Slot>,
                            readAt: nat, published: nat, doneWrite': nat, dataSize': nat, n: nat)
    requires State(b, newWrite, doneWrite, readyRead, dataSize, slots, readAt, published)
    requires published < n <= |slots| && slots[published].phase.Cleared?
    requires doneWrite' == (readAt + Total(slots[..n])) % 1024 && dataSize' == Total(slots[..n])
    requires forall i :: published <= i < n ==> !slots[i].phase.Writing?
    requires n < |slots| ==> slots[n].phase.Writing?
    ensures State(b, newWrite, doneWrite', readyRead, dataSize', slots, readAt, n)
  {
    assert Opens(0);
  }

  lemma OverInRing(b: Ring, slots: seq<Slot>, k: nat)
    requires AllInRing(b, slots) && k < |slots| && !slots[k].phase.Writing?
    ensures AllInRing(b, slots[k := slots[k].(phase := Over)])
  {
    var t := slots[k := slots[k].(phase := Over)];
    forall i | 0 <= i < |t| ensures InRing(b, t[i]) { assert InRing(b, slots[i]); }
  }

  lemma PublishedIndices(newWrite: nat, doneWrite: nat, readyRead: nat, dataSize: nat, slots: seq<Slot>, readAt: nat,
                         published: nat, doneWrite': nat, dataSize': nat, n: nat)
    requires IndicesFit(newWrite, doneWrite, readyRead, dataSize, slots, readAt, published) && published < n <= |slots|
    requires doneWrite' == (readAt + Total(slots[..n])) % 1024 && dataSize' == Total(slots[..n])
    ensures IndicesFit(newWrite, doneWrite', readyRead, dataSize', slots[published := slots[published].(phase := Over)],
                       readAt, n)
  {
    TiledUpdate(slots, readAt, published, slots[published].(phase := Over), n);
  }

  lemma PublishedPhases(slots: seq<Slot>, published: nat, n: nat)
    requires PhasesFit(slots, published) && published < n <= |slots| && slots[published].phase.Publishing?
    requires forall i :: published <= i < n ==> !slots[i].phase.Writing?
    requires n < |slots| ==> slots[n].phase.Writing?
    ensures PhasesFit(slots[published := slots[published].(phase := Over)], n)
  {
  }
}
