/** Runs of the log buffer of Logging/Buffer.h under any interleaving of its writers and its reader. */
module LogRun {
  import opened Bytes
  import opened Sectors
  import opened LogRing
  import opened LogBuffer

  /** What a writer knows of its slot, and where it put terminators. */
  datatype Handle = Handle(start: nat, len: nat, phase: Phase, zeros: set<nat>)

  ghost predicate Knows(h: Handle, s: Slot) {
    && h.start == s.start % 1024 && h.len == s.len && h.phase == s.phase
    && forall j :: j in h.zeros ==> j < |s.text| && s.text[j] == 0
  }

  ghost predicate AllKnow(hs: seq<Handle>, slots: seq<Slot>) {
    |hs| == |slots| && forall i :: 0 <= i < |hs| ==>
        Knows(hs[i], slots[i]) && (!hs[i].phase.Writing? ==> hs[i].zeros != {})
  }

  /** Starts of slots that are gone while their writers have yet to look at done_write_slot. */
  ghost predicate LateOnes(late: seq<nat>, at: seq<nat>, retired: set<nat>, readAt: nat) {
    && |late| == |at| && (forall i :: 0 <= i < |at| ==> at[i] in retired && at[i] < readAt && late[i] == at[i] % 1024)
    && forall i, j :: 0 <= i < j < |at| ==> at[i] < at[j]
  }

  /** The texts of messages, each up to its terminator. */
  ghost predicate Texts(out: seq<seq<byte>>, taken: seq<Slot>) {
    |out| == |taken| && forall i :: 0 <= i < |out| ==> 0 !in out[i] && out[i] + [0] <= taken[i].text
  }

  /** Slots stay where they were reserved, and committed messages as they are. */
  ghost predicate Grows(all: seq<Slot>, all': seq<Slot>) {
    |all| <= |all'| && forall i :: 0 <= i < |all| ==>
      && all'[i].start == all[i].start && all'[i].len == all[i].len
      && (!all[i].phase.Writing? ==> !all'[i].phase.Writing? && all'[i].text == all[i].text)
  }

  lemma GrowsTwice(all: seq<Slot>, all': seq<Slot>, all'': seq<Slot>)
    requires Grows(all, all') && Grows(all', all'')
    ensures Grows(all, all'')
  {
    forall i | 0 <= i < |all|
      ensures all''[i].start == all[i].start && all''[i].len == all[i].len
      ensures !all[i].phase.Writing? ==> !all''[i].phase.Writing? && all''[i].text == all[i].text
    {
      assert all'[i].start == all[i].start && all''[i].start == all'[i].start;
    }
  }

  /** One live slot changes. */
  lemma GrowsAt(taken: seq<Slot>, slots: seq<Slot>, k: nat, s: Slot)
    requires k < |slots| && s.start == slots[k].start && s.len == slots[k].len
    requires slots[k].phase.Writing? || (!s.phase.Writing? && s.text == slots[k].text)
    ensures Grows(taken + slots, taken + slots[k := s])
  {
    forall i | 0 <= i < |taken + slots|
      ensures (taken + slots[k := s])[i] == if i == |taken| + k then s else (taken + slots)[i]
    {
    }
  }

  lemma GrowsBehind(taken: seq<Slot>, slots: seq<Slot>, slots': seq<Slot>)
    requires slots <= slots'
    ensures Grows(taken + slots, taken + slots')
  {
    forall i | 0 <= i < |taken + slots| ensures (taken + slots')[i] == (taken + slots)[i] { }
  }

  lemma RestKnow(hs: seq<Handle>, slots: seq<Slot>)
    requires AllKnow(hs, slots) && hs != []
    ensures AllKnow(hs[1..], slots[1..])
  {
    forall i | 0 <= i < |hs| - 1 ensures hs[1..][i] == hs[i + 1] && slots[1..][i] == slots[i + 1] { }
  }

  lemma OneLater(late: seq<nat>, at: seq<nat>, retired: set<nat>, retired': set<nat>, readAt: nat, readAt': nat,
                 start: nat, one: bool)
    requires LateOnes(late, at, retired, readAt) && readAt < readAt' && start == readAt % 1024
    requires retired' == retired + if one then {readAt} else {}
    ensures if one then LateOnes(late + [start], at + [readAt], retired', readAt')
            else LateOnes(late, at, retired', readAt')
  {
  }

  lemma OneLess(late: seq<nat>, at: seq<nat>, retired: set<nat>, readAt: nat, i: nat)
    requires LateOnes(late, at, retired, readAt) && i < |late|
    ensures LateOnes(late[..i] + late[i + 1..], at[..i] + at[i + 1..], retired - {at[i]}, readAt)
  {
  }

  lemma OneText(out: seq<seq<byte>>, taken: seq<Slot>, text: seq<byte>, s: Slot)
    requires Texts(out, taken) && 0 !in text && text + [0] <= s.text
    ensures Texts(out + [text], taken + [s])
  {
  }

  /** A step of the reader or of a writer: of the one whose slot is the `k`-th live one, or of a late one. */
  datatype Turn = Begin(strLen: nat) | Put(k: nat, j: nat, c: byte) | Commit(k: nat) | Look(k: nat) | LookLate(i: nat)
                | Announce(k: nat) | Take

  /** What writers and reader know, what was read, and the live slots of which the reader may see `published`. */
  datatype Snap = Snap(handles: seq<Handle>, late: seq<nat>, lateAt: seq<nat>, out: seq<seq<byte>>, spoiled: bool,
                       slots: seq<Slot>, published: nat, readAt: nat)

  /** A slot is reserved behind the others if it leaves a byte free. */
  ghost predicate BeginTook(s: Snap, n: nat, max: nat, s': Snap) {
    if !(0 < n <= max && n + 2 < 1024 - Total(s.slots)) then s' == s
    else && |s'.slots| == |s.slots| + 1 && s'.slots[..|s.slots|] == s.slots
         && var slot := s'.slots[|s.slots|];
            && slot.start == s.readAt + Total(s.slots) && slot.len == n + 2 && slot.phase == Writing
            && s' == s.(slots := s'.slots, handles := s.handles + [Handle(slot.start % 1024, n + 2, Writing, {})])
  }

  ghost predicate Live(s: Snap, k: nat) {
    k < |s.handles| == |s.slots|
  }

  /** A character of a slot is set. */
  ghost predicate PutTook(s: Snap, k: nat, j: nat, c: byte, s': Snap) {
    && Live(s, k) && j < |s.slots[k].text|
    && var h, slot := s.handles[k], s.slots[k];
       s' == s.(slots := s.slots[k := slot.(text := slot.text[j := c])],
                handles := s.handles[k := h.(zeros := if c == 0 then h.zeros + {j} else h.zeros - {j})])
  }

  ghost predicate PhaseTook(s: Snap, k: nat, phase: Phase, s': Snap) {
    Live(s, k) && s' == s.(slots := s.slots[k := s.slots[k].(phase := phase)],
                           handles := s.handles[k := s.handles[k].(phase := phase)])
  }

  /** A late writer is to publish if done_write_slot has come around by whole turns. */
  ghost predicate LateTook(s: Snap, i: nat, s': Snap) {
    && i < |s.late| == |s.lateAt| && s.published <= |s.slots|
    && s' == s.(late := s.late[..i] + s.late[i + 1..], lateAt := s.lateAt[..i] + s.lateAt[i + 1..],
                spoiled := s.spoiled || (s.readAt + Total(s.slots[..s.published]) - s.lateAt[i]) % 1024 == 0)
  }

  /** All that is committed in a row is published. */
  ghost predicate PublishTook(s: Snap, k: nat, s': Snap) {
    && PhaseTook(s, k, Over, s'.(published := s.published)) && k == s.published < s'.published <= |s.slots|
    && (forall i :: k < i < s'.published ==> s.slots[i].phase != Writing)
    && (s'.published < |s.slots| ==> s.slots[s'.published].phase == Writing)
  }

  /** The oldest message is read, up to its terminator, if there is one. */
  ghost predicate TakeTook(s: Snap, s': Snap) {
    if s.published == 0 then s' == s
    else && Live(s, 0) && |s'.out| == |s.out| + 1
         && var text := s'.out[|s.out|];
            && 0 !in text && text + [0] <= s.slots[0].text
            && s' == s.(out := s.out + [text], slots := s.slots[1..], handles := s.handles[1..],
                        published := s.published - 1, readAt := s.readAt + s.slots[0].len,
                        late := s.late + (if s.handles[0].phase.Cleared? then [s.handles[0].start] else []),
                        lateAt := s.lateAt + (if s.handles[0].phase.Cleared? then [s.readAt] else []))
  }

  ghost predicate Took(s: Snap, t: Turn, max: nat, s': Snap) {
    match t
    case Begin(n) => BeginTook(s, n, max, s')
    case Put(k, j, c) =>
      if k < |s.handles| && s.handles[k].phase.Writing? && j < s.handles[k].len - 2 then PutTook(s, k, j, c, s')
      else s' == s
    case Commit(k) =>
      if k < |s.handles| && s.handles[k].phase.Writing? && s.handles[k].zeros != {} then PhaseTook(s, k, Cleared, s')
      else s' == s
    case Look(k) =>
      if k < |s.handles| && s.handles[k].phase.Cleared?
      then PhaseTook(s, k, if k == s.published then Publishing else Over, s')
      else s' == s
    case LookLate(i) => if i < |s.late| then LateTook(s, i, s') else s' == s
    case Announce(k) => if k < |s.handles| && s.handles[k].phase.Publishing? then PublishTook(s, k, s') else s' == s
    case Take => TakeTook(s, s')
  }

  class Log {
    const b: Buffer
    var handles: seq<Handle>      // of the live slots
    var late: seq<nat>            // of late writers
    var out: seq<seq<byte>>       // what was read
    var spoiled: bool             // a late writer is to publish again
    ghost var lateAt: seq<nat>
    ghost var taken: seq<Slot>    // what was read, with where it was
    ghost const from: nat

    ghost predicate Valid()
      reads this, b, b.buff
    {
      && b.Valid() && AllKnow(handles, b.slots) && LateOnes(late, lateAt, b.retired, b.readAt)
      && Tiled(taken, from) && b.readAt == from + Total(taken) && Texts(out, taken)
      && (forall i :: 0 <= i < |taken| ==> !taken[i].phase.Writing?)
    }

    ghost function Now(): Snap
      reads this, b
    {
      Snap(handles, late, lateAt, out, spoiled, b.slots, b.published, b.readAt)
    }

    /** All messages so far, in the order in which their slots were reserved. */
    ghost function All(): seq<Slot>
      reads this, b
    {
      taken + b.slots
    }

    constructor (b: Buffer)
      requires b.Valid() && b.slots == []
      ensures Valid() && this.b == b && All() == [] && !spoiled
    {
      this.b := b;
      handles, late, out, spoiled := [], [], [], false;
      lateAt, taken, from := [], [], b.readAt;
      new;
      assert taken + b.slots == [];
    }

    method Begin(strLen: nat)
      requires Valid()
      modifies this, b, b.buff
      ensures Valid() && Grows(old(All()), All()) && BeginTook(old(Now()), strLen, b.maxLength, Now())
    {
      ghost var slots := b.slots;
      var ok, start := b.StartWrite(strLen);
      if ok { handles := handles + [Handle(start, strLen + 2, Writing, {})]; }
      GrowsBehind(taken, slots, b.slots);
    }

    method Put(k: nat, j: nat, c: byte)
      requires Valid() && k < |handles| && handles[k].phase.Writing? && j < handles[k].len - 2
      modifies this, b, b.buff
      ensures Valid() && Grows(old(All()), All()) && PutTook(old(Now()), k, j, c, Now())
    {
      ghost var slots := b.slots;
      b.SetChar(handles[k].start, j, c, k);
      var h := handles[k];
      handles := handles[k := h.(zeros := if c == 0 then h.zeros + {j} else h.zeros - {j})];
      GrowsAt(taken, slots, k, b.slots[k]);
    }

    /** A writer commits a message that has a terminator. */
    method Commit(k: nat)
      requires Valid() && k < |handles| && handles[k].phase.Writing? && handles[k].zeros != {}
      modifies this, b, b.buff
      ensures Valid() && Grows(old(All()), All()) && PhaseTook(old(Now()), k, Cleared, Now())
    {
      ghost var slots := b.slots;
      b.ClearFlag(handles[k].start, k);
      handles := handles[k := handles[k].(phase := Cleared)];
      GrowsAt(taken, slots, k, b.slots[k]);
    }

    method Look(k: nat)
      requires Valid() && k < |handles| && handles[k].phase.Cleared?
      modifies this, b, b.buff
      ensures Valid() && Grows(old(All()), All())
      ensures PhaseTook(old(Now()), k, if k == old(b.published) then Publishing else Over, Now())
    {
      ghost var slots := b.slots;
      var mine := b.IsMine(handles[k].start, Live(k));
      handles := handles[k := handles[k].(phase := if mine then Publishing else Over)];
      GrowsAt(taken, slots, k, b.slots[k]);
    }

    /** A writer whose slot is gone; if it is to publish, the run is over. */
    method LookLate(i: nat)
      requires Valid() && i < |late|
      modifies this, b, b.buff
      ensures Valid() && Grows(old(All()), All()) && LateTook(old(Now()), i, Now())
      ensures spoiled ==> old(spoiled) || b.DoneAt() >= old(lateAt[i]) + 1024
    {
      ghost var slots := b.slots;
      OneLess(late, lateAt, b.retired, b.readAt, i);
      var mine := b.IsMine(late[i], Gone(lateAt[i]));
      if mine { spoiled := true; }
      late, lateAt := late[..i] + late[i + 1..], lateAt[..i] + lateAt[i + 1..];
      GrowsBehind(taken, slots, b.slots);
    }

    method Announce(k: nat)
      requires Valid() && k < |handles| && handles[k].phase.Publishing?
      modifies this, b, b.buff
      ensures Valid() && Grows(old(All()), All()) && PublishTook(old(Now()), k, Now())
    {
      ghost var slots := b.slots;
      b.Publish(handles[k].start, handles[k].len, k);
      handles := handles[k := handles[k].(phase := Over)];
      GrowsAt(taken, slots, k, b.slots[k]);
      forall i | k < i < b.published ensures slots[i].phase != Writing { assert b.slots[i] == slots[i]; }
    }

    /** The reader takes a message, if there is one. */
    method Take()
      requires Valid()
      modifies this, b, b.buff
      ensures Valid() && Grows(old(All()), All()) && TakeTook(old(Now()), Now())
    {
      var ok, start := b.TryRead();
      if ok { TakeFirst(start); }
    }

    method TakeFirst(start: nat)
      requires Valid() && b.published > 0 && start == b.slots[0].start % 1024
      modifies this, b
      ensures Valid() && All() == old(All()) && TakeTook(old(Now()), Now())
    {
      ghost var slots, retired, readAt := b.slots, b.retired, b.readAt;
      ghost var s;
      var text;
      text, s := ReadFirst(start);
      Record(text, s, slots, retired, readAt);
      assert slots == [s] + b.slots;
    }

    /** copy_to and end_read */
    method ReadFirst(start: nat) returns (text: seq<byte>, ghost s: Slot)
      requires Valid() && b.published > 0 && start == b.slots[0].start % 1024
      modifies b
      ensures b.Valid() && old(b.slots) == [s] + b.slots && s.start == old(b.readAt) && b.readAt == s.End() > s.start
      ensures b.retired == old(b.retired) + Late(s) && !s.phase.Writing? && b.published == old(b.published) - 1
      ensures 0 !in text && text + [0] <= s.text
    {
      s := b.slots[0];
      FirstSlot();
      assert handles[0].zeros != {} && Knows(handles[0], s);
      text := b.CopyTo(start);
      b.EndRead();
    }

    lemma FirstSlot()
      requires b.Valid() && b.published > 0
      ensures b.slots != [] && !b.slots[0].phase.Writing? && b.slots[0].start == b.readAt && 0 < b.slots[0].len
    {
      b.Phased();
      b.Laid();
      b.Lengths();
    }

    /** What the reader and a late writer remember of a slot that is gone. */
    method Record(text: seq<byte>, ghost s: Slot, ghost slots: seq<Slot>, ghost retired: set<nat>, ghost readAt: nat)
      requires b.Valid() && AllKnow(handles, slots) && slots == [s] + b.slots && s.start == readAt
               && b.readAt == s.End() > readAt
      requires LateOnes(late, lateAt, retired, readAt) && b.retired == retired + Late(s)
      requires Tiled(taken, from) && readAt == from + Total(taken) && Texts(out, taken)
      requires (forall i :: 0 <= i < |taken| ==> !taken[i].phase.Writing?) && !s.phase.Writing?
      requires 0 !in text && text + [0] <= s.text
      modifies `handles, `late, `out, `lateAt, `taken
      ensures Valid() && taken == old(taken) + [s] && handles == old(handles)[1..] && out == old(out) + [text]
      ensures var gone := old(handles)[0];
              && late == old(late) + (if gone.phase.Cleared? then [gone.start] else [])
              && lateAt == old(lateAt) + (if gone.phase.Cleared? then [readAt] else [])
    {
      assert Knows(handles[0], s);
      assert late + [] == late && lateAt + [] == lateAt;
      OneLater(late, lateAt, retired, b.retired, readAt, b.readAt, handles[0].start, handles[0].phase.Cleared?);
      if handles[0].phase.Cleared? { late, lateAt := late + [handles[0].start], lateAt + [readAt]; }
      TiledAppend(taken, from, s);
      RestKnow(handles, slots);
      OneText(out, taken, text, s);
      handles, out, taken := handles[1..], out + [text], taken + [s];
    }

    method Step(t: Turn)
      requires Valid()
      modifies this, b, b.buff
      ensures Valid() && Grows(old(All()), All()) && Took(old(Now()), t, b.maxLength, Now())
    {
      match t
      case Begin(n) => Begin(n);
      case Put(k, j, c) =>
        if k < |handles| && handles[k].phase.Writing? && j < handles[k].len - 2 { Put(k, j, c); } else { Stay(); }
      case Commit(k) =>
        if k < |handles| && handles[k].phase.Writing? && handles[k].zeros != {} { Commit(k); } else { Stay(); }
      case Look(k) => if k < |handles| && handles[k].phase.Cleared? { Look(k); } else { Stay(); }
      case LookLate(i) => if i < |late| { LookLate(i); } else { Stay(); }
      case Announce(k) => if k < |handles| && handles[k].phase.Publishing? { Announce(k); } else { Stay(); }
      case Take => Take();
    }

    lemma Stay()
      ensures Grows(All(), All())
    {
    }
  }

  /** Under any interleaving, until a late writer is to publish again, messages are read in the order in which
      their slots were reserved, each once, and as their writers left them when they committed. */
  method Run(log: Log, turns: seq<Turn>) returns (ghost snaps: seq<Snap>)
    requires log.Valid()
    modifies log, log.b, log.b.buff
    ensures log.Valid() && Grows(old(log.All()), log.All())
    ensures 0 < |snaps| <= |turns| + 1 && (|snaps| == |turns| + 1 || log.spoiled)
    ensures snaps[0] == old(log.Now()) && snaps[|snaps| - 1] == log.Now()
    ensures forall i :: 0 <= i < |snaps| - 1 ==> Took(snaps[i], turns[i], log.b.maxLength, snaps[i + 1])
    ensures Texts(log.out, log.All()[..|log.out|]) && Tiled(log.All(), log.from)
  {
    log.Stay();
    snaps := [log.Now()];
    var i := 0;
    while i < |turns| && !log.spoiled
      invariant i <= |turns| && log.Valid() && Grows(old(log.All()), log.All())
      invariant |snaps| == i + 1 && snaps[0] == old(log.Now()) && snaps[i] == log.Now()
      invariant forall k :: 0 <= k < i ==> Took(snaps[k], turns[k], log.b.maxLength, snaps[k + 1])
    {
      ghost var all := log.All();
      log.Step(turns[i]);
      GrowsTwice(old(log.All()), all, log.All());
      i, snaps := i + 1, snaps + [log.Now()];
    }
    log.b.Laid();
    TiledJoin(log.taken, log.b.slots, log.from);
    assert log.All()[..|log.out|] == log.taken;
  }

  lemma {:induction false} TiledJoin(a: seq<Slot>, b: seq<Slot>, p: nat)
    requires Tiled(a, p) && Tiled(b, p + Total(a))
    ensures Tiled(a + b, p)
  {
    if a == [] {
      assert a + b == b;
    } else {
      assert (a + b)[1..] == a[1..] + b;
      TiledJoin(a[1..], b, a[0].End());
    }
  }
}
