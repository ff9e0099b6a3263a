/** The FAT branch of f_mkfs (fatfs/ff.c), first half: choosing sub-type, cluster size and the sizes
    of the areas, with the data area aligned to single sectors. */
module MkfsLayout {
  import opened Bytes
  import opened Guards
  import opened FatEntries
  import opened FileLayout

  /** What the volume is going to look like; sizes in sectors. */
  datatype Layout = Layout(
    ty: FatType, vol: nat, size: nat, csize: nat, reserved: nat, fatSize: nat, nFats: nat, nRoot: nat, nClusters: nat)
  {
    /** Sectors before the data area. */
    function System(): nat {
      reserved + (if nFats == 2 then fatSize + fatSize else fatSize) + nRoot / 16
    }
  }

  predicate PowerOfTwo(x: nat) {
    x in {1, 2, 4, 8, 16, 32, 64, 128}
  }

  /** A volume that f_mkfs may create. */
  ghost predicate Sound(l: Layout) {
    && PowerOfTwo(l.csize) && (l.nFats == 1 || l.nFats == 2)
    && 128 <= l.size < 0x1_0000_0000
    && l.reserved == (if l.ty.Fat32? then 32 else 1)
    && (if l.ty.Fat32? then l.nRoot == 0 else 0 < l.nRoot <= 32768 && l.nRoot % 16 == 0)
    && l.System() + l.csize * 16 <= l.size
    && l.nClusters == Whole(l.size - l.System(), l.csize)
    && 16 <= l.nClusters
    && SubType(l.nClusters) == l.ty && l.nClusters <= MAX_FAT32
    && FatSize(l.ty, l.nClusters + 2) <= 512 * l.fatSize
    && (!l.ty.Fat32? ==> l.fatSize < 0x1_0000)
  }

  /** The sub-type that mounting derives from the number of clusters. */
  function SubType(n: nat): FatType {
    if n <= MAX_FAT12 then Fat12 else if n <= MAX_FAT16 then Fat16 else Fat32
  }

  const CST: seq<nat> := [1, 4, 16, 64, 256, 512, 0]
  const CST32: seq<nat> := [1, 2, 4, 8, 16, 32, 0]

  const AU_SIZES: seq<nat> := [1, 2, 4, 8, 16, 32, 64]

  /** The first size whose boundary the volume does not reach. */
  ghost function AutoSizeOf(table: seq<nat>, n: nat): nat
    requires |table| == 7
  {
    if n < table[0] then 1
    else if n < table[1] then 2
    else if n < table[2] then 4
    else if n < table[3] then 8
    else if n < table[4] then 16
    else if n < table[5] then 32
    else 64
  }

  /** The cluster size that a volume of `size` sectors has by default. */
  ghost function DefaultSize(ty: FatType, size: nat): nat {
    if ty.Fat32? then
      if size < 0x2_0000 then 1 else if size < 0x4_0000 then 2 else if size < 0x8_0000 then 4
      else if size < 0x10_0000 then 8 else if size < 0x20_0000 then 16 else if size < 0x40_0000 then 32 else 64
    else
      if size < 0x1000 then 1 else if size < 0x4000 then 2 else if size < 0x1_0000 then 4
      else if size < 0x4_0000 then 8 else if size < 0x10_0000 then 16 else if size < 0x20_0000 then 32 else 64
  }

  lemma DefaultIsAuto(ty: FatType, size: nat)
    ensures DefaultSize(ty, size) == if ty.Fat32? then AutoSizeOf(CST32, size / 0x2_0000)
            else AutoSizeOf(CST, size / 0x1000)
  {
  }

  /** A sound layout, in numbers. */
  lemma SoundMeans(l: Layout)
    requires Sound(l)
    ensures var sys := l.reserved + l.nFats * l.fatSize + l.nRoot * 32 / 512;
            && l.csize in {1, 2, 4, 8, 16, 32, 64, 128} && l.nFats in {1, 2} && sys + 16 * l.csize <= l.size
            && l.nClusters == (l.size - sys) / l.csize
    ensures l.ty == if l.nClusters <= 0xFF5 then Fat12 else if l.nClusters <= 0xFFF5 then Fat16 else Fat32
    ensures match l.ty
            case Fat12 => l.reserved == 1 && l.nClusters + (l.nClusters + 1) / 2 + 3 <= 512 * l.fatSize
            case Fat16 => l.reserved == 1 && 2 * (l.nClusters + 2) <= 512 * l.fatSize
            case Fat32 => l.reserved == 32 && l.nRoot == 0 && 4 * (l.nClusters + 2) <= 512 * l.fatSize
  {
    if l.nFats == 2 { assert 2 * l.fatSize == l.fatSize + l.fatSize; }
    assert l.nRoot * 32 / 512 == l.nRoot / 16;
    WholeIsQuotient(l.size - l.System(), l.csize);
  }

  /** Cluster size for a volume of `n` units, from a table that 0 ends. */
  method AutoSize(table: seq<nat>, n: nat) returns (pau: nat)
    requires table == CST || table == CST32
    ensures PowerOfTwo(pau) && pau <= 64 && pau == AutoSizeOf(table, n)
    ensures forall j :: 0 <= j < 6 ==> (pau > AU_SIZES[j] <==> table[j] <= n)
  {
    var i := 0;
    pau := 1;
    while table[i] != 0 && table[i] <= n
      invariant 0 <= i <= 6 && pau == AU_SIZES[i] && forall j :: 0 <= j < i ==> table[j] <= n
      decreases 6 - i
    {
      i := i + 1;
      pau := pau * 2;
    }
  }

  /** Removing `s` sectors costs at most `s` clusters. */
  lemma QuotientDrop(v: nat, s: nat, m: nat)
    requires 1 <= m && s <= v
    ensures Whole(v - s, m) <= Whole(v, m) <= Whole(v - s, m) + s
  {
    var q, f := Whole(v, m), Whole(v - s, m);
    WholeBounds(v, m);
    WholeBounds(v - s, m);
    if f > q { TimesMono(m, q + 1, f); }
    if q > f + s {
      TimesDrop(m, q, s);
      TimesMono(m, f + 1, q - s);
    }
  }

  lemma {:induction false} TimesDrop(m: nat, q: nat, s: nat)
    requires 1 <= m && s <= q
    ensures Times(m, q - s) + s <= Times(m, q)
  {
    if s > 0 { TimesDrop(m, q, s - 1); }
  }

  /** Room for 16 clusters is room for at least 16 clusters. */
  lemma Sixteen(v: nat, m: nat)
    requires 1 <= m && m * 16 <= v
    ensures Whole(v, m) >= 16
  {
    WholeBounds(v, m);
    TimesIsProduct(m, 16);
    if Whole(v, m) < 16 { TimesMono(m, Whole(v, m) + 1, 16); }
  }

  lemma WholeAtMost(x: nat, m: nat)
    requires 1 <= m
    ensures Whole(x, m) <= x
  {
    QuotientDrop(x, x, m);
  }

  /** The size of one FAT, in sectors, for a number of clusters estimated from the whole volume;
      `n * 2 + 4` and `n * 4 + 8` are computed modulo 2^32. */
  function FatSectorsFor(ty: FatType, n: nat): nat {
    match ty
    case Fat12 => ((n * 3 + 1) / 2 + 3 + 511) / 512
    case Fat16 => ((n * 2 + 4 + 511) % 0x1_0000_0000) / 512
    case Fat32 => ((n * 4 + 8 + 511) % 0x1_0000_0000) / 512
  }

  /** The estimate exceeds the true number of clusters, so the FAT is large enough. */
  lemma FatIsLarge(ty: FatType, pre: nat, n: nat)
    requires n <= pre && (ty.Fat12? || pre * 4 + 8 + 511 < 0x1_0000_0000)
    ensures FatSize(ty, n + 2) <= 512 * FatSectorsFor(ty, pre)
  {
    match ty
    case Fat12 =>
      Fat12Bytes(pre, n);
      RoundUp((pre * 3 + 1) / 2 + 3);
    case Fat16 =>
      NoWrap(pre * 2 + 4);
    case Fat32 =>
      NoWrap(pre * 4 + 8);
  }

  lemma Fat12Bytes(pre: nat, n: nat)
    requires n <= pre
    ensures FatSize(Fat12, n + 2) <= (pre * 3 + 1) / 2 + 3
  {
    var x := n + 2;
    ThreeHalves(x, x / 2, x % 2);
    AtLeastHalf(pre * 3);
  }

  lemma ThreeHalves(x: nat, h: nat, b: nat)
    requires x == 2 * h + b && b < 2
    ensures x * 3 / 2 == 3 * h + b
  {
    assert x * 3 == 2 * (3 * h + b) + b;
  }

  lemma AtLeastHalf(y: nat)
    ensures 2 * ((y + 1) / 2) >= y
  {
  }

  lemma NoWrap(x: nat)
    requires x + 511 < 0x1_0000_0000
    ensures x <= 512 * (((x + 511) % 0x1_0000_0000) / 512)
  {
    RoundUp(x);
  }

  lemma RoundUp(x: nat)
    ensures x <= 512 * ((x + 511) / 512)
  {
  }

  /** A FAT16 layout that passes the final check has an estimate that does not wrap around, and a
      FAT whose size fits the 16-bit field of the boot record. */
  lemma Fat16Fits(pre: nat, n: nat, sys: nat, nFats: nat, nRoot: nat)
    requires pre < 0x1_0000_0000 && n <= MAX_FAT16 && pre <= n + sys && 1 <= nFats <= 2 && nRoot <= 32768
    requires var f := FatSectorsFor(Fat16, pre); sys == 1 + (if nFats == 2 then f + f else f) + nRoot / 16
    ensures pre * 4 + 519 < 0x1_0000_0000 && FatSectorsFor(Fat16, pre) < 0x1_0000
  {
    var f := FatSectorsFor(Fat16, pre);
    assert f < 0x80_0000;
    assert pre < 0x200_0000;
    assert f == (pre * 2 + 515) / 512;
  }

  /** The first half of a pass: the areas, unless FAT32 is out of the question. */
  method Areas(ty0: FatType, size: nat, vol: nat, pau: nat, nFats: nat, nRoot: nat)
    returns (ok: bool, l: Layout, ghost pre: nat)
    requires 128 <= size < 0x1_0000_0000 && PowerOfTwo(pau) && ty0 != Fat12
    requires 1 <= nFats <= 2 && 0 < nRoot <= 32768 && nRoot % 16 == 0
    ensures l == Layout(l.ty, vol, size, pau, l.reserved, l.fatSize, nFats, if l.ty.Fat32? then 0 else nRoot, 0)
    ensures l.ty == ty0 || (ty0.Fat16? && l.ty.Fat12?)
    ensures ok ==> Planned(l, pre)
    ensures l.ty == (if ty0.Fat16? then SmallType(size, pau) else Fat32) && pre == Whole(size, pau)
    ensures l.reserved == (if l.ty.Fat32? then 32 else 1) && l.fatSize == FatSectorsFor(l.ty, pre)
    ensures ok <==> ty0.Fat16? || MAX_FAT16 < pre <= MAX_FAT32
  {
    WholeIsQuotient(size, pau);
    WholeAtMost(size, pau);
    pre := Whole(size, pau);
    var n := size / pau;
    if ty0.Fat32? {
      l := Layout(Fat32, vol, size, pau, 32, ((n * 4 + 8 + 511) % 0x1_0000_0000) / 512, nFats, 0, 0);
      ok := !(n <= MAX_FAT16 || n > MAX_FAT32);
    } else {
      var ty := ty0;
      var szFat;
      if n > MAX_FAT12 {
        szFat := ((n * 2 + 4 + 511) % 0x1_0000_0000) / 512;
      } else {
        ty := Fat12;
        szFat := ((n * 3 + 1) / 2 + 3 + 511) / 512;
      }
      l := Layout(ty, vol, size, pau, 1, szFat, nFats, nRoot, 0);
      ok := true;
    }
  }

  /** What the first half of a pass leaves. */
  ghost predicate Planned(l: Layout, pre: nat) {
    && 128 <= l.size < 0x1_0000_0000 && PowerOfTwo(l.csize) && 1 <= l.nFats <= 2
    && pre == Whole(l.size, l.csize) && pre < 0x1_0000_0000 && l.fatSize == FatSectorsFor(l.ty, pre)
    && l.reserved == (if l.ty.Fat32? then 32 else 1)
    && (if l.ty.Fat32? then l.nRoot == 0 && pre <= MAX_FAT32 else 0 < l.nRoot <= 32768 && l.nRoot % 16 == 0)
    && (l.ty.Fat12? ==> pre <= MAX_FAT12)
  }

  /** What the final check makes of it. */
  lemma Checked(l: Layout, pre: nat)
    requires Planned(l, pre)
    requires l.System() + l.csize * 16 <= l.size && l.nClusters == Whole(l.size - l.System(), l.csize)
    ensures 16 <= l.nClusters <= pre <= l.nClusters + l.System()
    ensures SubType(l.nClusters) == l.ty ==> Sound(l)
  {
    QuotientDrop(l.size, l.System(), l.csize);
    Sixteen(l.size - l.System(), l.csize);
    if SubType(l.nClusters) == l.ty {
      if l.ty.Fat16? { Fat16Fits(pre, l.nClusters, l.System(), l.nFats, l.nRoot); }
      FatIsLarge(l.ty, pre, l.nClusters);
    }
  }

  /** The second half of a pass: the number of clusters, if the volume holds 16. */
  method Count(l: Layout, ghost pre: nat) returns (ok: bool, l': Layout)
    requires Planned(l, pre)
    ensures l' == l.(nClusters := l'.nClusters)
    ensures ok <==> l.System() + l.csize * 16 <= l.size
    ensures ok ==> l'.nClusters == Whole(l.size - l.System(), l.csize)
    ensures ok ==> 16 <= l'.nClusters <= pre && (SubType(l'.nClusters) == l.ty ==> Sound(l'))
  {
    if l.size < l.System() + l.csize * 16 { return false, l; }
    WholeIsQuotient(l.size - l.System(), l.csize);
    l' := l.(nClusters := (l.size - l.System()) / l.csize);
    ok := true;
    Checked(l', pre);
  }

  /** The layout of a sub-type and cluster size, with a FAT for the estimated number of clusters. */
  ghost function Candidate(ty: FatType, size: nat, vol: nat, csize: nat, nFats: nat, nRoot: nat): Layout
    requires 1 <= csize
  {
    var l := Layout(ty, vol, size, csize, if ty.Fat32? then 32 else 1, FatSectorsFor(ty, Whole(size, csize)), nFats,
                    if ty.Fat32? then 0 else nRoot, 0);
    l.(nClusters := if l.System() <= size then Whole(size - l.System(), csize) else 0)
  }

  /** The sub-type tried first for a cluster size, when FAT32 is not asked for. */
  ghost function SmallType(size: nat, csize: nat): FatType
    requires 1 <= csize
  {
    if Whole(size, csize) <= MAX_FAT12 then Fat12 else Fat16
  }

  /** With a fixed cluster size, when a layout is found. */
  ghost predicate Feasible(ty: FatType, size: nat, vol: nat, csize: nat, nFats: nat, nRoot: nat)
    requires 1 <= csize
  {
    (ty.Fat32? ==> Whole(size, csize) <= MAX_FAT32) && Sound(Tried(ty, size, vol, csize, nFats, nRoot))
  }

  /** The layout that a pass tries. */
  ghost function Tried(ty: FatType, size: nat, vol: nat, csize: nat, nFats: nat, nRoot: nat): Layout
    requires 1 <= csize
  {
    Candidate(if ty.Fat32? then Fat32 else SmallType(size, csize), size, vol, csize, nFats, nRoot)
  }

  /** It leaves room for 16 clusters. */
  predicate Roomy(l: Layout) {
    l.System() + l.csize * 16 <= l.size
  }

  lemma FewerClusters(ty: FatType, size: nat, vol: nat, csize: nat, nFats: nat, nRoot: nat)
    requires 1 <= csize
    ensures Candidate(ty, size, vol, csize, nFats, nRoot).nClusters <= Whole(size, csize)
  {
    var s := Candidate(ty, size, vol, csize, nFats, nRoot).System();
    if s <= size { QuotientDrop(size, s, csize); }
  }

  /** Where FAT32 is feasible, the pass for FAT16 finds more clusters than FAT12 has. */
  lemma FarFromFat12(size: nat, vol: nat, csize: nat, nFats: nat, nRoot: nat)
    requires PowerOfTwo(csize) && 1 <= nFats <= 2 && nRoot <= 32768 && Feasible(Fat32, size, vol, csize, nFats, nRoot)
    ensures SmallType(size, csize) == Fat16
    ensures var l := Candidate(Fat16, size, vol, csize, nFats, nRoot);
            Roomy(l) && l.nClusters > MAX_FAT12
  {
    FewerClusters(Fat32, size, vol, csize, nFats, nRoot);
    var s16, s32 := Candidate(Fat16, size, vol, csize, nFats, nRoot).System(),
        Candidate(Fat32, size, vol, csize, nFats, nRoot).System();
    SmallerFat(Whole(size, csize));
    ManyLeft(size, s16, s32, csize);
  }

  lemma ManyLeft(size: nat, s16: nat, s32: nat, m: nat)
    requires 1 <= m && s32 <= size && s16 <= s32 + 2048 && MAX_FAT16 < Whole(size - s32, m)
    ensures s16 + m * 16 <= size && MAX_FAT12 < Whole(size - s16, m)
  {
    WholeAtMost(size - s32, m);
    if s16 > s32 { QuotientDrop(size - s32, s16 - s32, m); } else { QuotientDrop(size - s16, s32 - s16, m); }
    RoomFor(size - s16, m, 16);
  }

  lemma SmallerFat(n: nat)
    requires n <= MAX_FAT32
    ensures FatSectorsFor(Fat16, n) <= FatSectorsFor(Fat32, n)
  {
  }

  lemma RoomFor(x: nat, m: nat, n: nat)
    requires 1 <= m && n <= Whole(x, m)
    ensures m * n <= x
  {
    WholeBounds(x, m);
    TimesMono(m, n, Whole(x, m));
    TimesIsProduct(m, n);
  }

  /** A pass of the sizing loop: a candidate that still has to have the right sub-type. */
  method Pass(ty: FatType, size: nat, vol: nat, pau: nat, nFats: nat, nRoot: nat) returns (ok: bool, l: Layout)
    requires 128 <= size < 0x1_0000_0000 && PowerOfTwo(pau) && ty != Fat12
    requires 1 <= nFats <= 2 && 0 < nRoot <= 32768 && nRoot % 16 == 0
    ensures ok ==> l == Tried(ty, size, vol, pau, nFats, nRoot)
    ensures ok ==> (SubType(l.nClusters) == l.ty <==> Feasible(ty, size, vol, pau, nFats, nRoot))
    ensures ok ==>
              && 16 <= l.nClusters && (l.ty.Fat12? ==> l.nClusters <= MAX_FAT12)
              && (l.ty.Fat32? ==> l.nClusters <= MAX_FAT32)
    ensures !ok ==> !Feasible(ty, size, vol, pau, nFats, nRoot)
    ensures ok <==>
              && Roomy(Tried(ty, size, vol, pau, nFats, nRoot))
              && (ty.Fat32? ==> MAX_FAT16 < Whole(size, pau) <= MAX_FAT32)
  {
    ghost var c, pre := Tried(ty, size, vol, pau, nFats, nRoot), 0;
    ok, l, pre := Areas(ty, size, vol, pau, nFats, nRoot);
    assert l == c.(nClusters := 0);
    if ok {
      ok, l := CountFor(l, pre, c);
    } else {
      FewerClusters(Fat32, size, vol, pau, nFats, nRoot);
      Hopeless(c, pre);
    }
  }

  /** Count, in terms of the candidate that it completes. */
  method CountFor(l: Layout, ghost pre: nat, ghost c: Layout) returns (ok: bool, l': Layout)
    requires Planned(l, pre) && l == c.(nClusters := 0)
    requires c.nClusters == if c.System() <= c.size then Whole(c.size - c.System(), c.csize) else 0
    ensures ok <==> Roomy(c)
    ensures !ok ==> !Sound(c)
    ensures ok ==> l' == c && 16 <= c.nClusters <= pre && (SubType(c.nClusters) == c.ty <==> Sound(c))
  {
    ok, l' := Count(l, pre);
  }

  /** Too few clusters for FAT32, or too many. */
  lemma Hopeless(c: Layout, pre: nat)
    requires c.ty.Fat32? && c.nClusters <= pre && !(MAX_FAT16 < pre <= MAX_FAT32)
    ensures !(pre <= MAX_FAT32 && Sound(c))
  {
  }

  /** When a layout is found for a fixed cluster size. */
  ghost predicate FixedSucceeds(ty: FatType, fm32: bool, size: nat, vol: nat, csize: nat, nFats: nat, nRoot: nat)
    requires 1 <= csize
  {
    || Feasible(ty, size, vol, csize, nFats, nRoot)
    || (fm32 && Feasible(Fat32, size, vol, csize, nFats, nRoot))
  }

  /** When one is found for FAT32 and an automatic size: at that size, or, if only the FATs take too much, at half of
      it. */
  ghost predicate Auto32Succeeds(size: nat, vol: nat, nFats: nat, nRoot: nat) {
    var p := AutoSizeOf(CST32, size / 0x2_0000);
    var l := Tried(Fat32, size, vol, p, nFats, nRoot);
    || Feasible(Fat32, size, vol, p, nFats, nRoot)
    || (&& MAX_FAT16 < Whole(size, p) <= MAX_FAT32 && Roomy(l) && l.nClusters <= MAX_FAT16
        && p > 1 && Feasible(Fat32, size, vol, p / 2, nFats, nRoot))
  }

  /** When one is found for FAT12 or FAT16 and an automatic size: at that size; at twice the size, with too
      many clusters for FAT16 or too few; or as FAT32, if clusters of 64 sectors are too many. */
  ghost predicate Auto16Succeeds(fm32: bool, size: nat, vol: nat, nFats: nat, nRoot: nat) {
    var p := AutoSizeOf(CST, size / 0x1000);
    var l := Tried(Fat16, size, vol, p, nFats, nRoot);
    || Feasible(Fat16, size, vol, p, nFats, nRoot)
    || (&& Roomy(l) && l.ty.Fat16? && l.nClusters > MAX_FAT16
        && if p <= 32 then FixedSucceeds(Fat16, fm32, size, vol, p * 2, nFats, nRoot)
           else if fm32 then Auto32Succeeds(size, vol, nFats, nRoot)
           else Feasible(Fat16, size, vol, p * 2, nFats, nRoot))
    || (Roomy(l) && l.ty.Fat16? && l.nClusters <= MAX_FAT12
        && FixedSucceeds(Fat16, fm32, size, vol, p * 2, nFats, nRoot))
  }

  /** When the sizing loop finds a layout. */
  ghost predicate Succeeds(ty: FatType, fm32: bool, size: nat, vol: nat, au: nat, nFats: nat, nRoot: nat) {
    forall k: nat :: Opens(k) ==>
      if au != 0 then FixedSucceeds(ty, fm32, size, vol, au, nFats, nRoot)
      else if ty.Fat32? then Auto32Succeeds(size, vol, nFats, nRoot)
      else Auto16Succeeds(fm32, size, vol, nFats, nRoot)
  }

  /** The sizing loop.  A pass is repeated with a fixed cluster size, or for FAT32. */
  method Choose(ty: FatType, fm32: bool, size: nat, vol: nat, au: nat, nFats: nat, nRoot: nat)
    returns (ok: bool, l: Layout)
    requires 128 <= size < 0x1_0000_0000 && ty != Fat12 && (au == 0 || PowerOfTwo(au))
    requires 1 <= nFats <= 2 && 0 < nRoot <= 32768 && nRoot % 16 == 0
    ensures ok ==> Sound(l) && l.vol == vol && l.size == size && l.nFats == nFats && l.nRoot == if l.ty.Fat32? then 0
            else nRoot
    ensures ok && l.ty.Fat32? && ty != Fat32 ==> fm32
    ensures ok && ty == Fat32 ==> l.ty == Fat32
    ensures ok ==> l == Candidate(l.ty, size, vol, l.csize, nFats, nRoot) && LeastFat(l)
    ensures ok && au != 0 ==> l.csize == au
    ensures ok <==> Succeeds(ty, fm32, size, vol, au, nFats, nRoot)
    // the default size, or that of a second pass: twice it, half of it, or the default for FAT32 in place of FAT16
    ensures ok && au == 0 ==> var d := DefaultSize(ty, size);
              || l.csize == d || (if ty.Fat32? then 2 * l.csize == d else l.csize == 2 * d)
              || (!ty.Fat32? && l.ty.Fat32? && (l.csize == DefaultSize(Fat32, size)
                                                || 2 * l.csize == DefaultSize(Fat32, size)))
    ensures au == 0 && Feasible(ty, size, vol, DefaultSize(ty, size), nFats, nRoot) ==>
            ok && l.csize == DefaultSize(ty, size)
  {
    ghost var first := true;
    var fsty, szAu := ty, au;
    while true
      invariant fsty != Fat12 && (szAu == 0 || PowerOfTwo(szAu)) && (fsty != ty ==> fsty == Fat32 && fm32)
      invariant au != 0 ==> szAu == au
      invariant au == 0 && szAu != 0 ==>
                  || (if ty.Fat32? then 2 * szAu == DefaultSize(ty, size) else szAu == 2 * DefaultSize(ty, size))
                  || (!ty.Fat32? && fsty.Fat32? && 2 * szAu == DefaultSize(Fat32, size))
      invariant if first then fsty == ty && szAu == au
                else au == 0 ==> !Feasible(ty, size, vol, DefaultSize(ty, size), nFats, nRoot)
      invariant Succeeds(ty, fm32, size, vol, au, nFats, nRoot) <==> Succeeds(fsty, fm32, size, vol, szAu, nFats, nRoot)
      decreases (if fsty.Fat16? then 1 else 0) + (if szAu == 0 then 1 else 0)
    {
      var again;
      ok, l, again, fsty, szAu := Attempt(fsty, fm32, size, vol, szAu, nFats, nRoot);
      if !again { return; }
      first := false;
    }
  }

  /** A pass of the sizing loop, and what is made of it: its layout is taken, or another pass is made, or none. */
  method Attempt(ty: FatType, fm32: bool, size: nat, vol: nat, szAu: nat, nFats: nat, nRoot: nat)
    returns (ok: bool, l: Layout, again: bool, ty': FatType, szAu': nat)
    requires 128 <= size < 0x1_0000_0000 && ty != Fat12 && (szAu == 0 || PowerOfTwo(szAu))
    requires 1 <= nFats <= 2 && 0 < nRoot <= 32768 && nRoot % 16 == 0
    ensures ok && !again ==> Sound(l) && l == Candidate(l.ty, size, vol, l.csize, nFats, nRoot) && LeastFat(l)
    ensures ok && !again ==> (l.ty.Fat32? <==> ty.Fat32?) && (szAu != 0 ==> l.csize == szAu)
    ensures !again ==> (ok <==> Succeeds(ty, fm32, size, vol, szAu, nFats, nRoot))
    ensures again ==> Retried(ty, szAu, ty', szAu', fm32)
    ensures again ==> (Succeeds(ty, fm32, size, vol, szAu, nFats, nRoot) <==>
            Succeeds(ty', fm32, size, vol, szAu', nFats, nRoot))
    ensures var pau := if szAu != 0 then szAu else DefaultSize(ty, size);
            && (ok && !again ==> l.csize == pau)
            && (again && ty' == ty ==> if ty.Fat32? then 2 * szAu' == pau else szAu' == 2 * pau)
            && (Feasible(ty, size, vol, pau, nFats, nRoot) ==> ok && !again)
  {
    DefaultIsAuto(ty, size);
    var pau := szAu;
    if pau == 0 {
      if ty.Fat32? { pau := AutoSize(CST32, size / 0x2_0000); } else { pau := AutoSize(CST, size / 0x1000); }
    }
    ok, l := Pass(ty, size, vol, pau, nFats, nRoot);
    again, ty', szAu' := false, ty, szAu;
    if ok {
      ok, again, ty', szAu' := Judge(l, ty, fm32, szAu, pau, nRoot);
    } else {
      PassFailed(ty, fm32, size, vol, szAu, pau, nFats, nRoot);
    }
  }

  /** Another pass has a fixed cluster size, or is made for FAT32. */
  ghost predicate Retried(ty: FatType, szAu: nat, ty': FatType, szAu': nat, fm32: bool) {
    if ty' == ty then szAu == 0 && PowerOfTwo(szAu') else ty.Fat16? && ty'.Fat32? && fm32 && szAu' == szAu
  }

  /** The cluster size of a pass. */
  ghost predicate IsTried(ty: FatType, size: nat, szAu: nat, pau: nat) {
    PowerOfTwo(pau)
    && pau == if szAu != 0 then szAu else if ty.Fat32? then AutoSizeOf(CST32, size / 0x2_0000)
        else AutoSizeOf(CST, size / 0x1000)
  }

  /** Nothing can be done about a pass that has no room, or too few clusters for FAT32 from the start. */
  lemma PassFailed(ty: FatType, fm32: bool, size: nat, vol: nat, szAu: nat, pau: nat, nFats: nat, nRoot: nat)
    requires ty != Fat12 && IsTried(ty, size, szAu, pau) && 1 <= nFats <= 2 && nRoot <= 32768
    requires !Feasible(ty, size, vol, pau, nFats, nRoot)
    requires !(Roomy(Tried(ty, size, vol, pau, nFats, nRoot))
               && (ty.Fat32? ==> MAX_FAT16 < Whole(size, pau) <= MAX_FAT32))
    ensures !Succeeds(ty, fm32, size, vol, szAu, nFats, nRoot)
  {
    assert Opens(0);
    if Feasible(Fat32, size, vol, pau, nFats, nRoot) { FarFromFat12(size, vol, pau, nFats, nRoot); }
  }

  /** The layout of a pass that had room. */
  ghost predicate IsPass(l: Layout, ty: FatType, szAu: nat, pau: nat, nRoot: nat) {
    && ty != Fat12 && IsTried(ty, l.size, szAu, pau) && (szAu == 0 ==> pau <= 64)
    && 1 <= l.nFats <= 2 && 0 < nRoot <= 32768 && l == Tried(ty, l.size, l.vol, pau, l.nFats, nRoot)
    && Roomy(l) && 16 <= l.nClusters && (l.ty.Fat12? ==> l.nClusters <= MAX_FAT12)
    && (l.ty.Fat32? ==> MAX_FAT16 < Whole(l.size, pau) <= MAX_FAT32 && l.nClusters <= MAX_FAT32)
    && (SubType(l.nClusters) == l.ty <==> Feasible(ty, l.size, l.vol, pau, l.nFats, nRoot))
  }

  method Judge(l: Layout, ty: FatType, fm32: bool, szAu: nat, pau: nat, ghost nRoot: nat)
    returns (ok: bool, again: bool, ty': FatType, szAu': nat)
    requires IsPass(l, ty, szAu, pau, nRoot)
    ensures !again ==> (ok <==> Succeeds(ty, fm32, l.size, l.vol, szAu, l.nFats, nRoot))
    ensures !again && ok ==> Sound(l) && LeastFat(l)
    ensures again ==> Retried(ty, szAu, ty', szAu', fm32)
    ensures again ==> (Succeeds(ty, fm32, l.size, l.vol, szAu, l.nFats, nRoot) <==>
            Succeeds(ty', fm32, l.size, l.vol, szAu', l.nFats, nRoot))
    ensures again && ty' == ty ==> if ty.Fat32? then 2 * szAu' == pau else szAu' == 2 * pau
    ensures Feasible(ty, l.size, l.vol, pau, l.nFats, nRoot) ==> ok && !again
  {
    ok, again, ty', szAu' := true, false, ty, szAu;
    var n := l.nClusters;
    if l.ty.Fat32? && n <= MAX_FAT16 {
      Few32(l, ty, fm32, szAu, pau, nRoot);
      if szAu == 0 && pau / 2 != 0 { return true, true, ty, pau / 2; }
      return false, false, ty, szAu;
    }
    if l.ty.Fat16? {
      if n > MAX_FAT16 {
        Many16(l, ty, fm32, szAu, pau, nRoot);
        if szAu == 0 && pau * 2 <= 64 { return true, true, ty, pau * 2; }
        if fm32 { return true, true, Fat32, szAu; }
        if szAu == 0 && pau * 2 <= 128 { return true, true, ty, pau * 2; }
        return false, false, ty, szAu;
      }
      if n <= MAX_FAT12 {
        Few16(l, ty, fm32, szAu, pau, nRoot);
        if szAu == 0 && pau * 2 <= 128 { return true, true, ty, pau * 2; }
        return false, false, ty, szAu;
      }
    }
    Confirmed(l, ty, fm32, szAu, pau, nRoot);
    FatIsLeast(l, ty, szAu, pau, nRoot);
  }

  /** The FAT has just the sectors that the clusters estimated from the whole volume need. */
  ghost predicate LeastFat(l: Layout)
    requires 0 < l.csize
  {
    var n := l.size / l.csize;
    var bytes := match l.ty
      case Fat12 => (3 * n + 1) / 2 + 3
      case Fat16 => 2 * n + 4
      case Fat32 => 4 * n + 8;
    512 * l.fatSize - 512 < bytes <= 512 * l.fatSize
  }

  lemma FatIsLeast(l: Layout, ty: FatType, szAu: nat, pau: nat, nRoot: nat)
    requires IsPass(l, ty, szAu, pau, nRoot) && SubType(l.nClusters) == l.ty
    ensures LeastFat(l)
  {
    var pre := Whole(l.size, pau);
    assert l.fatSize == FatSectorsFor(l.ty, pre) && l.csize == pau;
    WholeIsQuotient(l.size, pau);
    if l.ty.Fat16? {
      WholeAtMost(l.size, pau);
      QuotientDrop(l.size, l.System(), pau);
      Fat16Fits(pre, l.nClusters, l.System(), l.nFats, nRoot);
    }
    LeastSectors(l.ty, pre, l.fatSize);
  }

  lemma LeastSectors(ty: FatType, n: nat, f: nat)
    requires f == FatSectorsFor(ty, n) && (!ty.Fat12? ==> 4 * n + 519 < 0x1_0000_0000)
    ensures var bytes := match ty case Fat12 => (3 * n + 1) / 2 + 3 case Fat16 => 2 * n + 4 case Fat32 => 4 * n + 8;
            512 * f - 512 < bytes <= 512 * f
  {
  }

  lemma Confirmed(l: Layout, ty: FatType, fm32: bool, szAu: nat, pau: nat, nRoot: nat)
    requires IsPass(l, ty, szAu, pau, nRoot) && SubType(l.nClusters) == l.ty
    ensures Sound(l) && Succeeds(ty, fm32, l.size, l.vol, szAu, l.nFats, nRoot)
  {
  }

  /** Too few clusters for FAT32 */
  lemma Few32(l: Layout, ty: FatType, fm32: bool, szAu: nat, pau: nat, nRoot: nat)
    requires IsPass(l, ty, szAu, pau, nRoot) && l.ty.Fat32? && l.nClusters <= MAX_FAT16
    ensures Succeeds(ty, fm32, l.size, l.vol, szAu, l.nFats, nRoot)
            <==> szAu == 0 && pau / 2 != 0 && Succeeds(ty, fm32, l.size, l.vol, pau / 2, l.nFats, nRoot)
  {
    assert Opens(0);
  }

  /** Too many for FAT16 */
  lemma Many16(l: Layout, ty: FatType, fm32: bool, szAu: nat, pau: nat, nRoot: nat)
    requires IsPass(l, ty, szAu, pau, nRoot) && l.ty.Fat16? && l.nClusters > MAX_FAT16
    ensures Succeeds(ty, fm32, l.size, l.vol, szAu, l.nFats, nRoot)
            <==> if szAu == 0 && pau * 2 <= 64 then Succeeds(ty, fm32, l.size, l.vol, pau * 2, l.nFats, nRoot)
                 else if fm32 then Succeeds(Fat32, fm32, l.size, l.vol, szAu, l.nFats, nRoot)
                 else szAu == 0 && pau * 2 <= 128 && Succeeds(ty, fm32, l.size, l.vol, pau * 2, l.nFats, nRoot)
  {
    assert Opens(0);
  }

  /** Too few for FAT16 */
  lemma Few16(l: Layout, ty: FatType, fm32: bool, szAu: nat, pau: nat, nRoot: nat)
    requires IsPass(l, ty, szAu, pau, nRoot) && l.ty.Fat16? && l.nClusters <= MAX_FAT12
    ensures Succeeds(ty, fm32, l.size, l.vol, szAu, l.nFats, nRoot)
            <==> szAu == 0 && pau * 2 <= 128 && Succeeds(ty, fm32, l.size, l.vol, pau * 2, l.nFats, nRoot)
  {
    assert Opens(0);
    if Feasible(Fat32, l.size, l.vol, pau, l.nFats, nRoot) { FarFromFat12(l.size, l.vol, pau, l.nFats, nRoot); }
  }
}
