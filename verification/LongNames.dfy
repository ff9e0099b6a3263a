/** Long file names of fatfs/ff.c: put_lfn, pick_lfn and cmp_lfn on directory entries of 32 bytes,
    and the loops of dir_register, dir_read and dir_find around them. */
module LongNames {
  import opened Guards
  import opened Bytes
  import opened Sectors
  import opened BootRecord

  const MAX_LFN: nat := 64
  const LDIR_Attr: nat := 11
  const LDIR_Type: nat := 12
  const LDIR_Chksum: nat := 13
  const LDIR_FstClusLO: nat := 26
  const AM_LFN: byte := 0x0F
  const LLEF: nat := 0x40

  type Entry = e: seq<byte> | |e| == 32 witness seq(32, _ => 0)

  /** Offset of the `s`-th character in an entry. */
  function LfnOfs(s: nat): (k: nat)
    requires s < 13
    ensures k == 2 * s + (if s < 5 then 1 else if s < 11 then 4 else 6)
  {
    [1, 3, 5, 7, 9, 14, 16, 18, 20, 22, 24, 28, 30][s]
  }

  /** A name: 1 to MAX_LFN units, none of them 0 or 0xFFFF. */
  ghost predicate IsName(name: seq<word>) {
    1 <= |name| <= MAX_LFN && forall i :: 0 <= i < |name| ==> name[i] != 0 && name[i] != 0xFFFF
  }

  /** `buf` holds `name` and its terminator; anything may follow. */
  ghost predicate Holds(buf: seq<word>, name: seq<word>) {
    |name| < |buf| && buf[..|name|] == name && buf[|name|] == 0
  }

  /** The name with its terminator, filled up. */
  function Unit(name: seq<word>, i: nat): word {
    if i < |name| then name[i] else if i == |name| then 0 else 0xFFFF
  }

  /** Number of entries a name takes. */
  function EntryCount(name: seq<word>): nat {
    (|name| + 12) / 13
  }

  /** Entry `ord` of a name; the characters before it are `base`. */
  ghost predicate IsEntry(e: Entry, name: seq<word>, ord: nat, base: nat, sum: byte) {
    && 1 <= ord <= 20 && base == 13 * (ord - 1) && base < |name|
    && e[0] == (if ord == EntryCount(name) then ord + LLEF else ord)
    && e[LDIR_Attr] == AM_LFN && e[LDIR_Type] == 0 && e[LDIR_Chksum] == sum && LdWord(e, LDIR_FstClusLO) == 0
    && forall s :: 0 <= s < 13 ==> LdWord(e, LfnOfs(s)) == Unit(name, base + s)
  }

  /** put_lfn */
  method PutLfn(lfn: array<word>, dir: array<byte>, ord: nat, sum: byte, ghost name: seq<word>)
    requires dir.Length == 32 && lfn.Length == MAX_LFN + 1
    requires IsName(name) && Holds(lfn[..], name) && 1 <= ord <= EntryCount(name)
    modifies dir
    ensures IsEntry(dir[..], name, ord, 13 * (ord - 1), sum)
  {
    dir[LDIR_Chksum] := sum;
    dir[LDIR_Attr] := AM_LFN;
    dir[LDIR_Type] := 0;
    StWord(dir, LDIR_FstClusLO, 0);
    var i := (ord - 1) * 13;
    ghost var base := i;
    var s, wc := 0, 0;
    while true
      invariant 0 <= s < 13 && base <= i <= base + s
      invariant if wc == 0xFFFF then base + s > |name| else i == base + s <= |name|
      invariant dir[LDIR_Attr] == AM_LFN && dir[LDIR_Type] == 0 && dir[LDIR_Chksum] == sum
                && Word(dir[26], dir[27]) == 0
      invariant forall t :: 0 <= t < s ==> Word(dir[LfnOfs(t)], dir[LfnOfs(t) + 1]) == Unit(name, base + t)
      decreases 13 - s
    {
      if wc != 0xFFFF {
        wc := lfn[i];
        assert wc == Unit(name, i);
        i := i + 1;
      }
      StWord(dir, LfnOfs(s), wc);
      if wc == 0 { wc := 0xFFFF; }
      s := s + 1;
      if s >= 13 { break; }
    }
    var o := ord;
    if wc == 0xFFFF || lfn[i] == 0 { o := ord + LLEF; }
    dir[0] := o;
    EntryFilled(dir, name, ord, base, sum);
  }

  /** Byte by byte: the order, with bit 6 in the last part; attribute 0x0F, type 0, the checksum and no cluster;
      below, the units at 1 to 10, at 14 to 25 and at 28 to 31. */
  lemma EntryBytes(e: Entry, name: seq<word>, ord: nat, base: nat, sum: byte)
    requires IsEntry(e, name, ord, base, sum)
    ensures e[0] == if base + 13 >= |name| then ord + 64 else ord
    ensures e[11] == 0x0F && e[12] == 0 && e[13] == sum && e[26] == 0 && e[27] == 0
  {
    LastEntry(name, ord, base);
    assert LdWord(e, 26) == Word(e[26], e[27]);
    BytesOfWord(e[26], e[27]);
  }

  lemma EntryUnitAt(e: Entry, name: seq<word>, ord: nat, base: nat, sum: byte, s: nat, k: nat)
    requires IsEntry(e, name, ord, base, sum) && s < 13
    requires k == if s < 5 then 2 * s + 1 else if s < 11 then 2 * s + 4 else 2 * s + 6
    ensures k + 1 < 32
    ensures Word(e[k], e[k + 1]) == if base + s < |name| then name[base + s] else if base + s == |name| then 0
            else 0xFFFF
  {
    assert LdWord(e, LfnOfs(s)) == Unit(name, base + s);
  }

  lemma EntryFilled(dir: array<byte>, name: seq<word>, ord: nat, base: nat, sum: byte)
    requires dir.Length == 32 && 1 <= ord <= 20 && base == 13 * (ord - 1) && base < |name|
    requires dir[0] == (if base + 13 >= |name| then ord + LLEF else ord)
    requires dir[LDIR_Attr] == AM_LFN && dir[LDIR_Type] == 0 && dir[LDIR_Chksum] == sum && Word(dir[26], dir[27]) == 0
    requires forall t :: 0 <= t < 13 ==> Word(dir[LfnOfs(t)], dir[LfnOfs(t) + 1]) == Unit(name, base + t)
    ensures IsEntry(dir[..], name, ord, base, sum)
  {
    LastEntry(name, ord, base);
  }

  /** The last entry of a name is the one that reaches its end. */
  lemma LastEntry(name: seq<word>, ord: nat, base: nat)
    requires 1 <= ord && base == 13 * (ord - 1) && base < |name|
    ensures ord <= EntryCount(name) && (base + 13 >= |name| <==> ord == EntryCount(name))
  {
  }

  /** The part of a buffer that entry `ord` of `name` covers has the characters of `name`, and the
      terminator where that falls in or right behind the entry. */
  ghost predicate Matches(name: seq<word>, base: nat, buf: seq<word>, up: word -> word)
    requires |name| < |buf|
  {
    && (forall i :: base <= i < base + 13 && i <= |name| ==> up(Unit(name, i)) == up(buf[i]))
    && (|name| == base + 13 ==> buf[|name|] == 0)
  }

  /** `(o - 1) * 13` in 32-bit arithmetic. */
  method FirstOffset(o: nat) returns (i: dword)
    requires o < 0x100
    ensures if o == 0 then i > MAX_LFN + 1 else i == 13 * (o - 1)
  {
    i := (o - 1) * 13 % 0x1_0000_0000;
  }

  lemma Numbered(e: Entry, name: seq<word>, ord: nat, base: nat, sum: byte)
    requires IsEntry(e, name, ord, base, sum)
    ensures e[0] % LLEF == ord && (e[0] / LLEF % 2 == 1 <==> ord == EntryCount(name))
    ensures (if e[0] / LLEF % 2 == 1 then e[0] - LLEF else e[0]) == ord
    ensures base + 13 >= |name| <==> ord == EntryCount(name)
  {
    LastEntry(name, ord, base);
  }

  /** The 13 units of an entry. */
  ghost function Units(e: Entry): (u: seq<word>)
    ensures |u| == 13 && forall s :: 0 <= s < 13 ==> u[s] == LdWord(e, LfnOfs(s))
  {
    seq(13, s requires 0 <= s < 13 => LdWord(e, LfnOfs(s)))
  }

  /** Behind a terminator there are only fillers. */
  ghost predicate Filled(u: seq<word>) {
    forall s, t :: 0 <= s < t < |u| && u[s] == 0 ==> u[t] == 0xFFFF
  }

  /** ...and the cluster field is zero. */
  ghost predicate IsSane(e: Entry) {
    LdWord(e, LDIR_FstClusLO) == 0 && Filled(Units(e))
  }

  /** cmp_lfn reads behind the buffer: a last entry, the fifth, has no terminator, and its 13
      characters match the end of the buffer. */
  ghost predicate ReadsBeyond(e: Entry, buf: seq<word>, up: word -> word) {
    && |buf| == MAX_LFN + 1 && LdWord(e, LDIR_FstClusLO) == 0 && e[0] / LLEF % 2 == 1 && e[0] % LLEF == 5
    && var u := Units(e); forall s :: 0 <= s < 13 ==> u[s] != 0 && up(u[s]) == up(buf[52 + s])
  }

  /** With a name in the buffer that can happen only with what a longer name left there... */
  lemma BeyondIsRemnant(e: Entry, buf: seq<word>, up: word -> word, wanted: seq<word>)
    requires Holds(buf, wanted) && 52 <= |wanted| && |buf| == MAX_LFN + 1 && forall x :: up(x) == 0 <==> x == 0
    ensures !ReadsBeyond(e, buf, up)
  {
    var u := Units(e)[|wanted| - 52];
    assert u == 0 || up(u) != up(buf[52 + (|wanted| - 52)]);
  }

  /** Such an entry is the fifth of a name of 65 units that are all alike, when the buffer has a short
      name before what is left of that one. */
  lemma BeyondExample(e: Entry, buf: seq<word>, up: word -> word)
    requires e[0] == LLEF + 5 && LdWord(e, LDIR_FstClusLO) == 0 && forall s :: 0 <= s < 13 ==> Units(e)[s] == 0x4141
    requires buf == [0x42, 0] + seq(63, _ => 0x4141)
    ensures ReadsBeyond(e, buf, up) && Holds(buf, [0x42])
  {
    FifthAndLast(e[0]);
    assert buf[..1] == [0x42];
  }

  lemma FifthAndLast(o: byte)
    requires o == LLEF + 5
    ensures o / LLEF % 2 == 1 && o % LLEF == 5
  {
  }

  /** ...and an entry of a name of at most MAX_LFN units is none of those. */
  lemma NamesStayWithin(e: Entry, name: seq<word>, ord: nat, base: nat, sum: byte, buf: seq<word>, up: word -> word)
    requires IsName(name) && IsEntry(e, name, ord, base, sum)
    ensures !ReadsBeyond(e, buf, up)
  {
    Numbered(e, name, ord, base, sum);
    if ord == 5 { assert Units(e)[|name| - base] == Unit(name, base + (|name| - base)); }
  }

  /** The first `s` units have no terminator. */
  ghost predicate GoesOn(u: seq<word>, s: nat)
    requires s <= |u|
  {
    forall j :: 0 <= j < s ==> u[j] != 0
  }

  /** The units up to the terminator match the buffer from `first` on, as far as the first `n`. */
  ghost predicate UnitsMatch(u: seq<word>, n: nat, buf: seq<word>, up: word -> word, first: nat)
    requires n <= |u| && |buf| == MAX_LFN + 1
  {
    forall s :: 0 <= s < n && GoesOn(u, s) ==> first + s <= MAX_LFN && up(u[s]) == up(buf[first + s])
  }

  /** The loop of cmp_lfn. */
  method CompareUnits(lfnbuf: array<word>, e: Entry, up: word -> word, first: dword)
    returns (ok: bool, open: bool, i: dword)
    requires lfnbuf.Length == MAX_LFN + 1
    ensures ok <==> UnitsMatch(Units(e), 13, lfnbuf[..], up, first) && Filled(Units(e))
    ensures ok ==> (open <==> GoesOn(Units(e), 13)) && (open ==> i == first + 13)
  {
    i := first;
    ghost var u := Units(e);
    var wc, s := 1, 0;
    while s < 13
      invariant 0 <= s <= 13 && (wc != 0 <==> GoesOn(u, s)) && (wc != 0 ==> i == first + s)
      invariant wc != 0 && s > 0 ==> i <= MAX_LFN + 1
      invariant UnitsMatch(u, s, lfnbuf[..], up, first) && Filled(u[..s])
    {
      var uc := LdWord(e, LfnOfs(s));
      assert uc == u[s];
      NextUnit(u, s);
      NextMatch(u, s, lfnbuf[..], up, first);
      if wc != 0 {
        if i >= MAX_LFN + 1 || up(uc) != up(lfnbuf[i]) { return false, false, i; }
        i := i + 1;
        wc := uc;
      } else {
        if uc != 0xFFFF { return false, false, i; }
      }
      s := s + 1;
    }
    assert u[..13] == u;
    ok, open := true, wc != 0;
  }

  lemma NextMatch(u: seq<word>, s: nat, buf: seq<word>, up: word -> word, first: nat)
    requires s < |u| && |buf| == MAX_LFN + 1
    ensures UnitsMatch(u, s + 1, buf, up, first) <==>
              && UnitsMatch(u, s, buf, up, first)
              && (GoesOn(u, s) ==> first + s <= MAX_LFN && up(u[s]) == up(buf[first + s]))
    ensures UnitsMatch(u, |u|, buf, up, first) ==> UnitsMatch(u, s + 1, buf, up, first)
  {
  }

  lemma NextUnit(u: seq<word>, s: nat)
    requires s < |u| && Filled(u[..s])
    ensures GoesOn(u, s + 1) <==> GoesOn(u, s) && u[s] != 0
    ensures Filled(u[..s + 1]) <==> GoesOn(u, s) || u[s] == 0xFFFF
    ensures Filled(u) ==> GoesOn(u, s) || u[s] == 0xFFFF
  {
    var v := u[..s + 1];
    assert v[..s] == u[..s];
    if !GoesOn(u, s) {
      var j :| 0 <= j < s && u[j] == 0;
      assert v[j] == 0 && v[s] == u[s];
    }
    if GoesOn(u, s) || u[s] == 0xFFFF {
      forall i, t | 0 <= i < t < |v| && v[i] == 0 ensures v[t] == 0xFFFF {
        if t < s { assert u[..s][i] == 0 && u[..s][t] == v[t]; }
      }
    }
  }

  /** For an entry of a name, this is what is to be found out. */
  lemma EntryUnits(e: Entry, name: seq<word>, ord: nat, base: nat, sum: byte, buf: seq<word>, up: word -> word)
    requires IsName(name) && IsEntry(e, name, ord, base, sum) && |buf| == MAX_LFN + 1
    ensures (GoesOn(Units(e), 13) <==> base + 13 <= |name|) && Filled(Units(e))
    ensures UnitsMatch(Units(e), 13, buf, up, base)
            <==> forall i :: base <= i < base + 13 && i <= |name| ==> up(Unit(name, i)) == up(buf[i])
  {
    var u := Units(e);
    assert forall s :: 0 <= s < 13 ==> u[s] == Unit(name, base + s);
    forall s | 0 <= s <= 13 ensures GoesOn(u, s) <==> base + s <= |name| {
      if base + s > |name| { assert u[|name| - base] == 0; }
    }
    if UnitsMatch(u, 13, buf, up, base) {
      forall i | base <= i < base + 13 && i <= |name| ensures up(Unit(name, i)) == up(buf[i]) {
        assert GoesOn(u, i - base) && u[i - base] == Unit(name, base + (i - base));
      }
    }
  }

  /** The units of an entry, up to a terminator, are those of the buffer at the place that its order gives. */
  ghost predicate PartMatches(e: Entry, buf: seq<word>, up: word -> word)
    requires |buf| == MAX_LFN + 1
  {
    var o := e[0] % 64;
    1 <= o && forall s :: 0 <= s < 13 && GoesOn(Units(e), s) ==>
                13 * (o - 1) + s <= MAX_LFN && up(Units(e)[s]) == up(buf[13 * (o - 1) + s])
  }

  lemma PartOf(e: Entry, buf: seq<word>, up: word -> word, first: nat)
    requires |buf| == MAX_LFN + 1 && if e[0] % LLEF == 0 then first > MAX_LFN + 1 else first == 13 * (e[0] % LLEF - 1)
    ensures UnitsMatch(Units(e), 13, buf, up, first) ==> PartMatches(e, buf, up)
  {
    assert GoesOn(Units(e), 0);
  }

  /** cmp_lfn.  `beyond` is the word behind the buffer, which is read (`left`) for some entries of
      names that are too long. */
  method CmpLfn(lfnbuf: array<word>, beyond: word, e: Entry, up: word -> word,
                ghost name: seq<word>, ghost ord: nat, ghost base: nat, ghost sum: byte) returns (ok: bool, left: bool)
    requires lfnbuf.Length == MAX_LFN + 1 && forall x :: up(x) == 0 <==> x == 0
    ensures IsName(name) && IsEntry(e, name, ord, base, sum) ==> !left && (ok <==> Matches(name, base, lfnbuf[..], up))
    ensures ok ==> IsSane(e) && PartMatches(e, lfnbuf[..], up)
    ensures left <==> ReadsBeyond(e, lfnbuf[..], up)
  {
    if IsName(name) && IsEntry(e, name, ord, base, sum) {
      Numbered(e, name, ord, base, sum);
      EntryUnits(e, name, ord, base, sum, lfnbuf[..], up);
      NamesStayWithin(e, name, ord, base, sum, lfnbuf[..], up);
    }
    if LdWord(e, LDIR_FstClusLO) != 0 { return false, false; }
    var i: dword := FirstOffset(e[0] % LLEF);
    BeyondUnits(e, lfnbuf[..], up, i);
    PartOf(e, lfnbuf[..], up, i);
    var open;
    ok, open, i := CompareUnits(lfnbuf, e, up, i);
    if !ok { return false, false; }
    left := e[0] / LLEF % 2 == 1 && open && i >= lfnbuf.Length;
    if e[0] / LLEF % 2 == 1 && open && (if i < lfnbuf.Length then lfnbuf[i] else beyond) != 0 { return false, left; }
    ok := true;
  }

  lemma BeyondUnits(e: Entry, buf: seq<word>, up: word -> word, first: nat)
    requires |buf| == MAX_LFN + 1 && if e[0] % LLEF == 0 then first > MAX_LFN + 1 else first == 13 * (e[0] % LLEF - 1)
    ensures var u := Units(e);
            ReadsBeyond(e, buf, up) <==>
              && LdWord(e, LDIR_FstClusLO) == 0 && UnitsMatch(u, 13, buf, up, first) && Filled(u)
              && e[0] / LLEF % 2 == 1 && GoesOn(u, 13) && first + 13 >= |buf|
  {
    var u := Units(e);
    assert GoesOn(u, 0);
    if GoesOn(u, 13) {
      forall s | 0 <= s <= 13 ensures GoesOn(u, s) { }
      if UnitsMatch(u, 13, buf, up, first) { assert first + 12 <= MAX_LFN; }
    }
  }

  /** Among the first `s` units the terminator did not come yet, or only fillers came after it. */
  ghost predicate UnitsSeen(u: seq<word>, s: nat, on: bool)
    requires s <= |u|
  {
    forall k: nat :: Opens(k) ==> (on <==> GoesOn(u, s)) && Filled(u[..s])
  }

  lemma NextSeen(u: seq<word>, s: nat, on: bool)
    requires s < |u| && UnitsSeen(u, s, on)
    ensures on || u[s] == 0xFFFF ==> UnitsSeen(u, s + 1, on && u[s] != 0)
    ensures !on && u[s] != 0xFFFF ==> !Filled(u)
  {
    assert Opens(0);
    NextUnit(u, s);
  }

  lemma AllSeen(u: seq<word>, on: bool)
    requires UnitsSeen(u, |u|, on)
    ensures Filled(u)
  {
    assert Opens(0);
    assert u[..|u|] == u;
  }

  /** pick_lfn */
  method PickLfn(lfnbuf: array<word>, e: Entry, ghost name: seq<word>, ghost ord: nat, ghost base: nat, ghost sum: byte)
    returns (ok: bool)
    requires lfnbuf.Length == MAX_LFN + 1
    modifies lfnbuf
    ensures IsName(name) && IsEntry(e, name, ord, base, sum) ==>
              && ok
              && (forall i :: base <= i <= |name| && (i < base + 13 || ord == EntryCount(name)) ==>
                  lfnbuf[i] == Unit(name, i))
              && (forall i :: base + 13 <= i < lfnbuf.Length && ord != EntryCount(name) ==> lfnbuf[i] == old(lfnbuf[i]))
    ensures ok ==> IsSane(e)
  {
    ghost var entry := IsName(name) && IsEntry(e, name, ord, base, sum);
    if LdWord(e, LDIR_FstClusLO) != 0 { return false; }
    var i: dword := FirstOffset(if e[0] / LLEF % 2 == 1 then e[0] - LLEF else e[0]);
    if entry { Numbered(e, name, ord, base, sum); }
    ghost var u := Units(e);
    var wc, s := 1, 0;
    while s < 13
      invariant 0 <= s <= 13
      invariant wc != 0 && s > 0 ==> i <= MAX_LFN + 1
      invariant UnitsSeen(u, s, wc != 0)
      invariant entry && wc != 0 ==> i == base + s <= |name|
      invariant entry && wc == 0 ==> base + s > |name|
      invariant entry ==> forall j :: base <= j < base + s && j <= |name| ==> lfnbuf[j] == Unit(name, j)
      invariant entry ==> forall j :: 0 <= j < lfnbuf.Length && !(base <= j < base + s && j <= |name|) ==>
                lfnbuf[j] == old(lfnbuf[j])
    {
      var uc := LdWord(e, LfnOfs(s));
      assert uc == u[s] && (entry ==> uc == Unit(name, base + s));
      NextSeen(u, s, wc != 0);
      if wc != 0 {
        if i >= MAX_LFN + 1 { return false; }
        wc := uc;
        lfnbuf[i] := wc;
        i := i + 1;
      } else {
        if uc != 0xFFFF { return false; }
      }
      s := s + 1;
    }
    AllSeen(u, wc != 0);
    if e[0] / LLEF % 2 == 1 && wc != 0 {
      if i >= MAX_LFN + 1 { return false; }
      lfnbuf[i] := 0;
    }
    ok := true;
  }

  // ----- entry sets

  /** A directory's LFN entries for a name, in the order they lie on the disk: last part first. */
  ghost predicate IsEntrySet(es: seq<Entry>, name: seq<word>, sum: byte) {
    |es| == EntryCount(name) && forall k :: 0 <= k < |es| ==> IsEntry(es[k], name, |es| - k, 13 * (|es| - k - 1), sum)
  }

  /** From entry `k0` on, the last part of a name, the orders count down and all have the same checksum; `n` entries
      were seen, and `ord` is the order that the next one has to have. */
  ghost predicate IsSequence(es: seq<Entry>, k0: nat, n: nat, ord: nat, sum: byte) {
    && k0 < n <= |es| && es[k0][0] / 64 % 2 == 1 && es[k0][0] == ord + (n - k0) + 64
    && (forall i :: k0 < i < n ==> es[i][0] / 64 % 2 == 0 && es[i][0] == ord + (n - i))
    && forall i :: k0 <= i < n ==> es[i][13] == sum
  }

  /** A part starts a sequence, or has the order and the checksum that are expected. */
  lemma SequenceGoesOn(es: seq<Entry>, k0: nat, k: nat, ord: byte, sum: byte, ord': byte, sum': byte) returns (k1: nat)
    requires k < |es| && (ord != 0xFF ==> IsSequence(es, k0, k, ord, sum))
    requires es[k][13] == sum' && ord' != 0xFF
    requires if es[k][0] / 64 % 2 == 1 then es[k][0] - 64 == ord' + 1
             else es[k][0] == ord == ord' + 1 && sum' == sum && ord != 0xFF
    ensures IsSequence(es, k1, k + 1, ord', sum') && k1 == if es[k][0] / 64 % 2 == 1 then k else k0
  {
    k1 := if es[k][0] / 64 % 2 == 1 then k else k0;
  }

  /** Such a sequence, each part of which matches the buffer. */
  ghost predicate IsMatch(es: seq<Entry>, k0: nat, n: nat, ord: nat, sum: byte, buf: seq<word>, up: word -> word)
    requires |buf| == MAX_LFN + 1
  {
    IsSequence(es, k0, n, ord, sum) && forall i :: k0 <= i < n ==> PartMatches(es[i], buf, up)
  }

  lemma MatchGoesOn(es: seq<Entry>, k0: nat, k: nat, ord: byte, sum: byte, ord': byte, sum': byte, buf: seq<word>,
                    up: word -> word) returns (k1: nat)
    requires |buf| == MAX_LFN + 1 && k < |es| && (ord != 0xFF ==> IsMatch(es, k0, k, ord, sum, buf, up))
    requires PartMatches(es[k], buf, up) && es[k][13] == sum' && ord' != 0xFF
    requires if es[k][0] / 64 % 2 == 1 then es[k][0] - 64 == ord' + 1
             else es[k][0] == ord == ord' + 1 && sum' == sum && ord != 0xFF
    ensures IsMatch(es, k1, k + 1, ord', sum', buf, up)
  {
    k1 := SequenceGoesOn(es, k0, k, ord, sum, ord', sum');
  }

  /** The loop of dir_register over put_lfn. */
  method Register(lfn: array<word>, sum: byte, ghost name: seq<word>) returns (es: seq<Entry>)
    requires lfn.Length == MAX_LFN + 1 && IsName(name) && Holds(lfn[..], name)
    ensures IsEntrySet(es, name, sum)
  {
    var len := 0;
    assert forall j :: 0 <= j < |name| ==> lfn[j] == lfn[..|name|][j];
    while lfn[len] != 0
      invariant 0 <= len <= |name|
      decreases |name| - len
    {
      len := len + 1;
    }
    assert len == |name|;
    var n := (len + 12) / 13;
    es := [];
    ghost var total := n;
    while n > 0
      invariant 0 <= n && |es| + n == total
      invariant forall k :: 0 <= k < |es| ==> IsEntry(es[k], name, total - k, 13 * (total - k - 1), sum)
    {
      var dir := new byte[32](_ => 0);
      PutLfn(lfn, dir, n, sum, name);
      es := es + [dir[..]];
      n := n - 1;
    }
  }

  /** dir_read over LFN entries and the SFN entry behind them, whose checksum is `sfnSum`. */
  method ReadName(es: seq<Entry>, sfnSum: byte, lfnbuf: array<word>, ghost name: seq<word>) returns (valid: bool)
    requires lfnbuf.Length == MAX_LFN + 1
    modifies lfnbuf
    ensures IsName(name) && IsEntrySet(es, name, sfnSum) ==> valid && Holds(lfnbuf[..], name)
    // what is valid ends with a sequence that counts down to 1, with the right checksum in all parts
    ensures valid ==> exists k0: nat :: IsSequence(es, k0, |es|, 0, sfnSum)
  {
    ghost var k0: nat := 0;
    ghost var proper := IsName(name) && IsEntrySet(es, name, sfnSum);
    var ord, sum: byte := 0xFF, 0xFF;
    var k := 0;
    while k < |es|
      invariant 0 <= k <= |es|
      invariant proper && k > 0 ==> ord == |es| - k && sum == sfnSum
      invariant proper && k > 0 ==> forall i :: 13 * (|es| - k) <= i <= |name| ==> lfnbuf[i] == Unit(name, i)
      invariant ord != 0xFF ==> IsSequence(es, k0, k, ord, sum)
    {
      var e := es[k];
      var b;
      ghost var before, was := ord, sum;
      ord, sum, b := Expect(e, ord, sum, name, |es| - k, sfnSum);
      var ok := false;
      if b == ord && sum == e[LDIR_Chksum] { ok := PickLfn(lfnbuf, e, name, |es| - k, 13 * (|es| - k - 1), sfnSum); }
      ord := if !ok then 0xFF else if ord == 0 then 0xFF else ord - 1;
      if ord != 0xFF { k0 := SequenceGoesOn(es, k0, k, before, was, ord, sum); }
      k := k + 1;
    }
    valid := ord == 0 && sum == sfnSum;
  }

  /** Names equal but for case. */
  ghost predicate SameName(a: seq<word>, b: seq<word>, up: word -> word) {
    |a| == |b| && forall i :: 0 <= i < |a| ==> up(a[i]) == up(b[i])
  }

  /** dir_find over LFN entries and the SFN entry behind them, whose checksum is `sfnSum`. */
  method FindName(es: seq<Entry>, sfnSum: byte, lfnbuf: array<word>, beyond: word,
                  up: word -> word, ghost stored: seq<word>, ghost wanted: seq<word>) returns (found: bool)
    requires lfnbuf.Length == MAX_LFN + 1 && forall x :: up(x) == 0 <==> x == 0
    ensures IsName(stored) && IsName(wanted) && IsEntrySet(es, stored, sfnSum) && Holds(lfnbuf[..], wanted) ==>
              (found <==> SameName(stored, wanted, up))
    // what is found is a sequence that counts down to 1, each part of which matches
    ensures found ==> exists k0: nat :: IsMatch(es, k0, |es|, 0, sfnSum, lfnbuf[..], up)
  {
    ghost var proper := IsName(stored) && IsEntrySet(es, stored, sfnSum);
    ghost var n, buf := |es|, lfnbuf[..];
    var ord, sum;
    ghost var k0;
    ord, sum, k0 := MatchEntries(es, sfnSum, lfnbuf, beyond, up, stored, buf);
    found := ord == 0 && sum == sfnSum;
    if found { assert IsMatch(es, k0, |es|, 0, sfnSum, lfnbuf[..], up); }
    if proper && IsName(wanted) && Holds(buf, wanted) { AllMatchIsSame(stored, wanted, n, buf, up); }
  }

  /** Of the entry set of `stored`, the first `k` parts have matched if and only if the next one is expected. */
  ghost predicate MatchedSoFar(es: seq<Entry>, stored: seq<word>, sfnSum: byte, k: nat, ord: byte, sum: byte,
                               buf: seq<word>, up: word -> word)
    requires |buf| == MAX_LFN + 1 && k <= |es|
  {
    IsName(stored) && IsEntrySet(es, stored, sfnSum) ==>
      && sum == sfnSum && (ord == 0xFF || ord == |es| - k)
      && (ord == |es| - k <==> AllMatch(stored, |es|, |es| - k, buf, up))
  }

  lemma MatchedOneMore(es: seq<Entry>, stored: seq<word>, sfnSum: byte, k: nat, ord: byte, sum: byte, ord': byte,
                       sum': byte, buf: seq<word>, up: word -> word)
    requires |buf| == MAX_LFN + 1 && k < |es|
    requires k > 0 ==> MatchedSoFar(es, stored, sfnSum, k, ord, sum, buf, up)
    requires var n := |es| - k;
             IsName(stored) && IsEntry(es[k], stored, n, 13 * (n - 1), sfnSum)
             && (n == EntryCount(stored) || sum == sfnSum) ==>
               && sum' == sfnSum && (ord' == 0xFF || ord' == n - 1)
               && (ord' == n - 1 <==> (n == EntryCount(stored) || ord == n) && EntryMatches(stored, n, buf, up))
    ensures MatchedSoFar(es, stored, sfnSum, k + 1, ord', sum', buf, up)
  {
    if IsName(stored) && IsEntrySet(es, stored, sfnSum) { AllMatchStep(stored, |es|, |es| - k, buf, up); }
  }

  /** The loop of dir_find over LFN entries. */
  method MatchEntries(es: seq<Entry>, sfnSum: byte, lfnbuf: array<word>, beyond: word,
                      up: word -> word, ghost stored: seq<word>, ghost buf: seq<word>)
    returns (ord: byte, sum: byte, ghost k0: nat)
    requires lfnbuf.Length == MAX_LFN + 1 && (forall x :: up(x) == 0 <==> x == 0) && buf == lfnbuf[..]
    ensures IsName(stored) && IsEntrySet(es, stored, sfnSum) ==>
              sum == sfnSum && (ord == 0 <==> AllMatch(stored, |es|, 0, buf, up))
    ensures ord != 0xFF ==> IsMatch(es, k0, |es|, ord, sum, buf, up)
  {
    k0 := 0;
    ghost var n := |es|;
    ord, sum := 0xFF, 0xFF;
    var k := 0;
    while k < |es|
      invariant 0 <= k <= |es|
      invariant k > 0 ==> MatchedSoFar(es, stored, sfnSum, k, ord, sum, buf, up)
      invariant ord != 0xFF ==> IsMatch(es, k0, k, ord, sum, buf, up)
    {
      ghost var before, was := ord, sum;
      ord, sum := MatchEntry(es[k], ord, sum, lfnbuf, beyond, up, stored, n - k, sfnSum);
      MatchedOneMore(es, stored, sfnSum, k, before, was, ord, sum, buf, up);
      if ord != 0xFF { k0 := MatchGoesOn(es, k0, k, before, was, ord, sum, buf, up); }
      k := k + 1;
    }
  }

  /** One LFN entry in dir_find: the order and checksum to expect next. */
  method MatchEntry(e: Entry, ord: byte, sum: byte, lfnbuf: array<word>, beyond: word,
                    up: word -> word, ghost name: seq<word>, ghost k: nat, ghost s: byte)
    returns (ord': byte, sum': byte)
    requires lfnbuf.Length == MAX_LFN + 1 && (forall x :: up(x) == 0 <==> x == 0) && 1 <= k
    ensures IsName(name) && IsEntry(e, name, k, 13 * (k - 1), s) && (k == EntryCount(name) || sum == s) ==>
              && sum' == s && (ord' == 0xFF || ord' == k - 1)
              && (ord' == k - 1 <==> (k == EntryCount(name) || ord == k) && EntryMatches(name, k, lfnbuf[..], up))
    ensures ord' != 0xFF ==>
              && PartMatches(e, lfnbuf[..], up) && e[13] == sum'
              && if e[0] / 64 % 2 == 1 then e[0] - 64 == ord' + 1 else e[0] == ord == ord' + 1 && sum' == sum
  {
    var c;
    ord', sum', c := Expect(e, ord, sum, name, k, s);
    var ok := false;
    if c == ord' && sum' == e[LDIR_Chksum] {
      var left;
      ok, left := CmpLfn(lfnbuf, beyond, e, up, name, k, 13 * (k - 1), s);
    }
    ord' := if !ok then 0xFF else if ord' == 0 then 0xFF else ord' - 1;
  }

  /** The order and checksum that LFN entry `e` is to have, and its order; a last part starts a sequence. */
  method Expect(e: Entry, ord: byte, sum: byte, ghost name: seq<word>, ghost k: nat, ghost s: byte)
    returns (ord': byte, sum': byte, c: byte)
    requires 1 <= k
    ensures IsEntry(e, name, k, 13 * (k - 1), s) ==>
            c == k && (if k == EntryCount(name) then ord' == k && sum' == s else ord' == ord && sum' == sum)
    ensures if e[0] / 64 % 2 == 1 then c == ord' == e[0] - 64 && sum' == e[13]
            else c == e[0] && ord' == ord && sum' == sum
  {
    if IsEntry(e, name, k, 13 * (k - 1), s) { Numbered(e, name, k, 13 * (k - 1), s); }
    c, ord', sum' := e[0], ord, sum;
    if c / LLEF % 2 == 1 {
      sum' := e[LDIR_Chksum];
      c := c - LLEF;
      ord' := c;
    }
  }

  /** Entries `n` down to `lo + 1` of `name` all match the buffer. */
  ghost predicate AllMatch(name: seq<word>, n: nat, lo: nat, buf: seq<word>, up: word -> word)
    requires |name| < |buf|
  {
    forall ord :: lo < ord <= n ==> EntryMatches(name, ord, buf, up)
  }

  ghost predicate EntryMatches(name: seq<word>, ord: nat, buf: seq<word>, up: word -> word)
    requires 1 <= ord && |name| < |buf|
  {
    Matches(name, 13 * (ord - 1), buf, up)
  }

  lemma AllMatchStep(name: seq<word>, n: nat, lo: nat, buf: seq<word>, up: word -> word)
    requires |name| < |buf| && 1 <= lo <= n
    ensures AllMatch(name, n, lo - 1, buf, up) <==> AllMatch(name, n, lo, buf, up) && EntryMatches(name, lo, buf, up)
  {
  }

  /** A whole entry set matches a name in the buffer if and only if the names are equal, whatever
      lies in the buffer behind a shorter name. */
  lemma AllMatchIsSame(stored: seq<word>, wanted: seq<word>, n: nat, buf: seq<word>, up: word -> word)
    requires IsName(stored) && IsName(wanted) && n == EntryCount(stored) && |buf| == MAX_LFN + 1 && Holds(buf, wanted)
    requires forall x :: up(x) == 0 <==> x == 0
    ensures AllMatch(stored, n, 0, buf, up) <==> SameName(stored, wanted, up)
  {
    assert forall i :: 0 <= i < |wanted| ==> buf[i] == buf[..|wanted|][i];
    if AllMatch(stored, n, 0, buf, up) {
      forall i | 0 <= i < |stored| ensures up(stored[i]) == up(buf[i]) {
        assert EntryMatches(stored, i / 13 + 1, buf, up);
        assert Unit(stored, i) == stored[i];
      }
      EndMatches(stored, n, buf, up);
      assert |stored| <= |wanted|;
    }
  }

  lemma EndMatches(stored: seq<word>, n: nat, buf: seq<word>, up: word -> word)
    requires IsName(stored) && n == EntryCount(stored) && |stored| < |buf| && AllMatch(stored, n, 0, buf, up)
    requires forall x :: up(x) == 0 <==> x == 0
    ensures buf[|stored|] == 0
  {
    assert EntryMatches(stored, n, buf, up);
    if |stored| < 13 * n { assert up(Unit(stored, |stored|)) == up(buf[|stored|]); }
  }
}
