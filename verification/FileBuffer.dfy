/** The private sector buffer of an open file (fatfs/ff.c, `FIL.buf`): what the file's bytes are
    when one of its sectors may be newer in the buffer than on the disk, and what each kind of
    transfer does to them. */
module FileBuffer {
  import opened Bytes
  import opened Guards
  import opened Sectors
  import opened FatEntries
  import opened FatChains
  import opened FatVolume
  import opened FileLayout

  /** `chain` is the cluster chain of a file that starts at `sclust`. */
  ghost predicate Chained(g: Geometry, fat: FatMap, sclust: nat, chain: seq<nat>) {
    && (chain == [] <==> sclust == 0)
    && (chain != [] ==> IsChain(fat, chain) && chain[0] == sclust)
    && AreClusters(g, chain) && Distinct(chain)
  }

  /** The volume window holds no sector of the file. */
  ghost predicate WindowAway(g: Geometry, chain: seq<nat>, winsect: nat) {
    forall c :: c in chain && 2 <= c ==> !(Base(g, c) <= winsect < Base(g, c) + g.csize)
  }

  lemma FatIsAway(g: Geometry, chain: seq<nat>, winsect: nat)
    requires HasData(g) && AreClusters(g, chain) && g.InFirstFat(winsect)
    ensures WindowAway(g, chain, winsect)
  {
    forall c | c in chain && 2 <= c ensures Base(g, c) >= g.database { BaseBounds(g, c); }
  }

  /** The disk with the dirty buffer in place. */
  ghost function Logical(vol: Disk, dirty: bool, sect: nat, buf: Sector): Disk
    requires sect < |vol|
  {
    if dirty then vol[sect := buf] else vol
  }

  /** The buffer holds sector `at.1` of the `at.0`-th cluster, changed if it is dirty, and
      `image` is what the clusters then spell. */
  ghost predicate Buffered(g: Geometry, vol: Disk, chain: seq<nat>, dirty: bool, sect: nat, at: (nat, nat), buf: Sector,
                           image: seq<byte>)
    requires HasData(g) && IsDisk(g, vol) && AreClusters(g, chain)
  {
    && sect < g.sectors && |buf| == 512
    && (dirty ==> sect != 0)
    && (sect != 0 ==>
         at.0 < |chain| && at.1 < g.csize && sect == Base(g, chain[at.0]) + at.1 && (!dirty ==> buf == vol[sect]))
    && image == Image(g, Logical(vol, dirty, sect, buf), chain)
    && |image| == 512 * Times(g.csize, |chain|)
  }

  /** Byte `p - 1` lies in the `k`-th cluster, `clust`. */
  ghost predicate Located(csize: nat, chain: seq<nat>, p: nat, clust: nat, k: nat) {
    p > 0 ==> k < |chain| && clust == chain[k] && 512 * Times(csize, k) < p <= 512 * Times(csize, k + 1)
  }

  /** What the fields of an open file say with respect to the disk `vol`. */
  ghost predicate FileOn(g: Geometry, vol: Disk, sclust: nat, chain: seq<nat>, dirty: bool, sect: nat, at: (nat, nat),
                         buf: Sector, image: seq<byte>) {
    && HasData(g) && IsDisk(g, vol) && Chained(g, FatOf(g, vol), sclust, chain)
    && Buffered(g, vol, chain, dirty, sect, at, buf, image)
  }

  lemma FlatOne(sec: Sector)
    ensures Flat([sec]) == sec
  {
    assert [sec][1..] == [];
  }

  /** The bytes of a run of sectors, read with the dirty buffer in place. */
  lemma RunInImage(g: Geometry, vol: Disk, chain: seq<nat>, dirty: bool, sect: nat, at: (nat, nat), buf: Sector,
                   image: seq<byte>, p: nat, k: nat, j: nat, s: nat, n: nat, secs: seq<Sector>)
    requires HasData(g) && IsDisk(g, vol) && AreClusters(g, chain)
    requires Buffered(g, vol, chain, dirty, sect, at, buf, image)
    requires PositionIs(g.csize, p, k, j) && p % 512 == 0 && k < |chain| && j + n <= g.csize
    requires s == Base(g, chain[k]) + j && s + n <= g.sectors && secs == Logical(vol, dirty, sect, buf)[s..s + n]
    ensures p + 512 * n <= |image| && image[p..p + 512 * n] == Flat(secs)
  {
    RunAt(g, Logical(vol, dirty, sect, buf), chain, image, p, k, j, s, n);
  }

  lemma RunAt(g: Geometry, d: Disk, chain: seq<nat>, image: seq<byte>, p: nat, k: nat, j: nat, s: nat, n: nat)
    requires HasData(g) && IsDisk(g, d) && AreClusters(g, chain) && image == Image(g, d, chain)
    requires PositionIs(g.csize, p, k, j) && p % 512 == 0 && k < |chain| && j + n <= g.csize
    requires s == Base(g, chain[k]) + j && s + n <= g.sectors
    ensures p + 512 * n <= |image| && image[p..p + 512 * n] == Flat(d[s..s + n])
  {
    var t := Times(g.csize, k) + j;
    assert p == 512 * t;
    ImageSlice(g, d, chain, k, j, n, t);
  }

  /** The buffer shows the sector of the file it belongs to. */
  lemma BufferInImage(g: Geometry, vol: Disk, chain: seq<nat>, dirty: bool, sect: nat, at: (nat, nat), buf: Sector,
                      image: seq<byte>, p: nat)
    requires HasData(g) && IsDisk(g, vol) && AreClusters(g, chain)
    requires Buffered(g, vol, chain, dirty, sect, at, buf, image) && sect != 0
    requires PositionIs(g.csize, p, at.0, at.1) && p % 512 == 0
    ensures p + 512 <= |image| && image[p..p + 512] == buf
  {
    assert Logical(vol, dirty, sect, buf)[sect..sect + 1] == [buf];
    RunInImage(g, vol, chain, dirty, sect, at, buf, image, p, at.0, at.1, sect, 1, [buf]);
    FlatOne(buf);
  }

  lemma PartOfBuffer(g: Geometry, vol: Disk, chain: seq<nat>, dirty: bool, sect: nat, at: (nat, nat), buf: Sector,
                     image: seq<byte>, p: nat, n: nat, piece: seq<byte>)
    requires HasData(g) && IsDisk(g, vol) && AreClusters(g, chain)
    requires Buffered(g, vol, chain, dirty, sect, at, buf, image) && sect != 0
    requires PositionIs(g.csize, p, at.0, at.1) && p % 512 + n <= 512
    requires piece == buf[p % 512..p % 512 + n]
    ensures p + n <= |image| && image[p..p + n] == piece
  {
    var o := p % 512;
    BufferInImage(g, vol, chain, dirty, sect, at, buf, image, p - o);
    SliceOf(image, p - o, buf, o, n);
  }

  lemma SliceOf(image: seq<byte>, q: nat, b: seq<byte>, o: nat, n: nat)
    requires q + |b| <= |image| && image[q..q + |b|] == b && o + n <= |b|
    ensures image[q + o..q + o + n] == b[o..o + n]
  {
    var l, r := image[q + o..q + o + n], b[o..o + n];
    forall i | 0 <= i < n ensures l[i] == r[i] { assert image[q..q + |b|][o + i] == b[o + i]; }
    assert l == r;
  }

  /** f_read's direct transfer, where the dirty buffer replaces the sector it holds. */
  lemma RunWithBuffer(vol: Disk, dirty: bool, sect: nat, buf: Sector, s: nat, n: nat, secs: seq<Sector>)
    requires s + n <= |vol| && sect < |vol|
    requires secs == if dirty && s <= sect < s + n then vol[s..s + n][sect - s := buf] else vol[s..s + n]
    ensures secs == Logical(vol, dirty, sect, buf)[s..s + n]
  {
  }

  lemma RunRead(g: Geometry, vol: Disk, chain: seq<nat>, dirty: bool, sect: nat, at: (nat, nat), buf: Sector,
                image: seq<byte>, p: nat, k: nat, j: nat, s: nat, n: nat, secs: seq<Sector>)
    requires HasData(g) && IsDisk(g, vol) && AreClusters(g, chain)
    requires Buffered(g, vol, chain, dirty, sect, at, buf, image)
    requires PositionIs(g.csize, p, k, j) && p % 512 == 0 && k < |chain| && j + n <= g.csize
    requires s == Base(g, chain[k]) + j && s + n <= |vol|
    requires secs == if dirty && s <= sect < s + n then vol[s..s + n][sect - s := buf] else vol[s..s + n]
    ensures p + 512 * n <= |image| && image[p..p + 512 * n] == Flat(secs)
  {
    RunWithBuffer(vol, dirty, sect, buf, s, n, secs);
    RunInImage(g, vol, chain, dirty, sect, at, buf, image, p, k, j, s, n, secs);
  }

  /** Writing the dirty buffer back makes it clean. */
  lemma Cleaned(g: Geometry, vol: Disk, vol': Disk, chain: seq<nat>, sect: nat, at: (nat, nat), buf: Sector,
                image: seq<byte>)
    requires HasData(g) && IsDisk(g, vol) && AreClusters(g, chain)
    requires Buffered(g, vol, chain, true, sect, at, buf, image) && vol' == Overwrite(vol, sect, [buf])
    ensures IsDisk(g, vol') && Buffered(g, vol', chain, false, sect, at, buf, image)
  {
    assert vol' == vol[sect := buf];
  }

  /** A clean buffer may be filled from another sector of the file. */
  lemma Refilled(g: Geometry, vol: Disk, chain: seq<nat>, sect: nat, at: (nat, nat), buf: Sector, image: seq<byte>,
                 k: nat, j: nat)
    requires HasData(g) && IsDisk(g, vol) && AreClusters(g, chain)
    requires Buffered(g, vol, chain, false, sect, at, buf, image)
    requires k < |chain| && j < g.csize
    ensures var s := Base(g, chain[k]) + j;
            0 < s < g.sectors && Buffered(g, vol, chain, false, s, (k, j), vol[s], image)
  {
    BaseBounds(g, chain[k]);
  }

  /** Marking the buffer dirty changes nothing. */
  lemma Dirtied(g: Geometry, vol: Disk, chain: seq<nat>, sect: nat, at: (nat, nat), buf: Sector, image: seq<byte>)
    requires HasData(g) && IsDisk(g, vol) && AreClusters(g, chain) && sect != 0
    requires Buffered(g, vol, chain, false, sect, at, buf, image)
    ensures Buffered(g, vol, chain, true, sect, at, buf, image)
  {
    assert vol[sect := buf] == vol;
  }

  /** Any bytes may be taken for a sector of the file: they replace it. */
  lemma Replaced(g: Geometry, vol: Disk, chain: seq<nat>, dirty: bool, sect: nat, at: (nat, nat), buf: Sector,
                 image: seq<byte>, p: nat, k: nat, j: nat, s: nat, buf': Sector)
    requires HasData(g) && IsDisk(g, vol) && AreClusters(g, chain) && Distinct(chain)
    requires Buffered(g, vol, chain, dirty, sect, at, buf, image)
    requires PositionIs(g.csize, p, k, j) && p % 512 == 0 && k < |chain| && |buf'| == 512
    requires s == Base(g, chain[k]) + j && (dirty ==> s == sect)
    ensures p + 512 <= |image| && Buffered(g, vol, chain, true, s, (k, j), buf', Patch(image, p, buf'))
  {
    var d := Logical(vol, dirty, sect, buf);
    BaseBounds(g, chain[k]);
    ImageWritten(g, d, chain, image, p, k, j, s, [buf']);
    FlatOne(buf');
    assert Overwrite(d, s, [buf']) == vol[s := buf'];
  }

  /** ImagePatch at a position. */
  lemma ImageWritten(g: Geometry, d: Disk, chain: seq<nat>, image: seq<byte>, p: nat, k: nat, j: nat, s: nat,
                     secs: seq<Sector>)
    requires HasData(g) && IsDisk(g, d) && AreClusters(g, chain) && Distinct(chain) && image == Image(g, d, chain)
    requires PositionIs(g.csize, p, k, j) && p % 512 == 0 && k < |chain| && AreSectors(secs) && j + |secs| <= g.csize
    requires s == Base(g, chain[k]) + j
    ensures s + |secs| <= g.sectors && p + |Flat(secs)| <= |image|
    ensures var d' := Overwrite(d, s, secs); IsDisk(g, d') && Image(g, d', chain) == Patch(image, p, Flat(secs))
  {
    BaseBounds(g, chain[k]);
    var t := Times(g.csize, k) + j;
    assert p == 512 * t;
    ImagePatch(g, d, chain, k, j, secs, t);
  }

  /** Changing bytes of the buffer changes them in the file. */
  lemma Patched(g: Geometry, vol: Disk, chain: seq<nat>, sect: nat, at: (nat, nat), buf: Sector, image: seq<byte>,
                p: nat, bs: seq<byte>)
    requires HasData(g) && IsDisk(g, vol) && AreClusters(g, chain) && Distinct(chain)
    requires Buffered(g, vol, chain, true, sect, at, buf, image) && sect != 0
    requires PositionIs(g.csize, p, at.0, at.1) && p % 512 + |bs| <= 512
    ensures p + |bs| <= |image|
    ensures Buffered(g, vol, chain, true, sect, at, Patch(buf, p % 512, bs), Patch(image, p, bs))
  {
    var o, q := p % 512, p - p % 512;
    assert PositionIs(g.csize, q, at.0, at.1);
    BufferInImage(g, vol, chain, true, sect, at, buf, image, q);
    Replaced(g, vol, chain, true, sect, at, buf, image, q, at.0, at.1, sect, Patch(buf, o, bs));
    PatchWithin(image, q, buf, o, bs);
  }

  lemma PatchWithin(s: seq<byte>, q: nat, c: seq<byte>, o: nat, bs: seq<byte>)
    requires q + |c| <= |s| && s[q..q + |c|] == c && o + |bs| <= |c|
    ensures Patch(s, q, Patch(c, o, bs)) == Patch(s, q + o, bs)
  {
    forall i | q <= i < q + |c| ensures s[i] == c[i - q] { assert s[q..q + |c|][i - q] == c[i - q]; }
    assert Patch(s, q, Patch(c, o, bs)) == Patch(s, q + o, bs);
  }

  /** Writing sectors of a cluster past a clean buffer, which is refilled if it held one of them. */
  lemma WrittenThrough(g: Geometry, vol: Disk, chain: seq<nat>, sect: nat, at: (nat, nat), buf: Sector,
                       image: seq<byte>, p: nat, k: nat, j: nat, s: nat, secs: seq<Sector>)
    requires HasData(g) && IsDisk(g, vol) && AreClusters(g, chain) && Distinct(chain)
    requires Buffered(g, vol, chain, false, sect, at, buf, image)
    requires PositionIs(g.csize, p, k, j) && p % 512 == 0 && k < |chain| && AreSectors(secs) && j + |secs| <= g.csize
    requires s == Base(g, chain[k]) + j
    ensures s + |secs| <= g.sectors && p + |Flat(secs)| <= |image|
    ensures var vol' := Overwrite(vol, s, secs);
            var buf' := if s <= sect < s + |secs| then secs[sect - s] else buf;
            IsDisk(g, vol') && Buffered(g, vol', chain, false, sect, at, buf', Patch(image, p, Flat(secs)))
  {
    ImageWritten(g, vol, chain, image, p, k, j, s, secs);
    var buf' := if s <= sect < s + |secs| then secs[sect - s] else buf;
    var vol' := Overwrite(vol, s, secs);
    if sect != 0 { RefilledFrom(vol, s, secs, sect, buf, buf'); }
    CleanBuffered(g, vol, vol', chain, sect, at, buf, buf', image, Patch(image, p, Flat(secs)));
  }

  lemma CleanBuffered(g: Geometry, vol: Disk, vol': Disk, chain: seq<nat>, sect: nat, at: (nat, nat), buf: Sector,
                      buf': Sector, image: seq<byte>, image': seq<byte>)
    requires HasData(g) && IsDisk(g, vol) && IsDisk(g, vol') && AreClusters(g, chain)
    requires Buffered(g, vol, chain, false, sect, at, buf, image)
    requires |buf'| == 512 && (sect != 0 ==> buf' == vol'[sect])
    requires image' == Image(g, vol', chain) && |image'| == |image|
    ensures Buffered(g, vol', chain, false, sect, at, buf', image')
  {
  }

  lemma RefilledFrom(vol: Disk, s: nat, secs: seq<Sector>, sect: nat, buf: Sector, buf': Sector)
    requires s + |secs| <= |vol| && sect < |vol| && buf == vol[sect]
    requires buf' == if s <= sect < s + |secs| then secs[sect - s] else buf
    ensures buf' == Overwrite(vol, s, secs)[sect]
  {
  }

  /** A free cluster may be appended to a chain. */
  lemma ChainedGrowth(g: Geometry, fat: FatMap, f: FatMap, sclust: nat, chain: seq<nat>, r: nat, eoc: nat)
    requires Chained(g, fat, sclust, chain) && |fat| == g.nFatent && IsCluster(fat, r) && fat[r] == 0 && eoc >= |fat|
    requires f == Grown(fat, if chain == [] then 0 else chain[|chain| - 1], r, eoc)
    ensures Chained(g, f, if chain == [] then r else sclust, chain + [r]) && r !in chain
  {
    if chain != [] {
      if r in chain { InChain(fat, chain, r); }
      ChainExtended(fat, f, chain, r);
    }
    var ch := chain + [r];
    forall i, j | 0 <= i < j < |ch| ensures ch[i] != ch[j] { if j < |chain| { assert chain[i] != chain[j]; } }
  }

  /** A cluster appended to the chain appends its bytes. */
  lemma Extended(g: Geometry, vol: Disk, vol': Disk, chain: seq<nat>, dirty: bool, sect: nat, at: (nat, nat),
                 buf: Sector, image: seq<byte>, r: nat) returns (image': seq<byte>)
    requires HasData(g) && IsDisk(g, vol) && IsDisk(g, vol') && AreClusters(g, chain)
    requires Buffered(g, vol, chain, dirty, sect, at, buf, image)
    requires 2 <= r < g.nFatent && OnlyFatsChange(g, vol, vol')
    ensures AreClusters(g, chain + [r])
    ensures image <= image' && Buffered(g, vol', chain + [r], dirty, sect, at, buf, image')
  {
    var d, d' := Logical(vol, dirty, sect, buf), Logical(vol', dirty, sect, buf);
    BufferStays(g, vol, vol', chain, dirty, sect, at, buf, r);
    image' := ImageExtended(g, d, d', chain, image, r);
  }

  /** The bytes of a chain with one cluster more, on a disk that differs in its FATs only. */
  lemma ImageExtended(g: Geometry, d: Disk, d': Disk, chain: seq<nat>, image: seq<byte>, r: nat)
    returns (image': seq<byte>)
    requires HasData(g) && IsDisk(g, d) && IsDisk(g, d') && AreClusters(g, chain) && 2 <= r < g.nFatent
    requires forall i :: 0 <= i < g.sectors && !g.InFats(i) ==> d'[i] == d[i]
    requires image == Image(g, d, chain) && |image| == 512 * Times(g.csize, |chain|)
    ensures AreClusters(g, chain + [r]) && image <= image' == Image(g, d', chain + [r])
    ensures |image'| == 512 * Times(g.csize, |chain + [r]|)
  {
    ImageSame(g, d, d', chain);
    ImageAppend(g, d', chain, r);
    image' := image + Flat(Cluster(g, d', r));
    assert Times(g.csize, |chain + [r]|) == g.csize + Times(g.csize, |chain|);
  }

  /** The buffer and what it stands for are elsewhere. */
  lemma BufferStays(g: Geometry, vol: Disk, vol': Disk, chain: seq<nat>, dirty: bool, sect: nat, at: (nat, nat),
                    buf: Sector, r: nat)
    requires HasData(g) && IsDisk(g, vol) && IsDisk(g, vol') && AreClusters(g, chain) && OnlyFatsChange(g, vol, vol')
    requires |buf| == 512 && sect < g.sectors && (dirty ==> sect != 0)
    requires sect != 0 ==> at.0 < |chain| && at.1 < g.csize && sect == Base(g, chain[at.0]) + at.1
    ensures sect != 0 ==> sect == Base(g, (chain + [r])[at.0]) + at.1 && vol'[sect] == vol[sect]
    ensures var d, d' := Logical(vol, dirty, sect, buf), Logical(vol', dirty, sect, buf);
            IsDisk(g, d) && IsDisk(g, d') && forall i :: 0 <= i < g.sectors && !g.InFats(i) ==> d'[i] == d[i]
  {
    if sect != 0 { BaseBounds(g, chain[at.0]); }
  }

  // ----- what a file operation leaves alone

  /** Sector `i` belongs neither to the FATs nor to a cluster of `chain`. */
  ghost predicate Foreign(g: Geometry, chain: seq<nat>, i: int) {
    !g.InFats(i) && forall c :: c in chain && 2 <= c ==> !(Base(g, c) <= i < Base(g, c) + g.csize)
  }

  /** From `d` to `d'`, a file's chain went from `chain` to `chain'` by taking free clusters.  No other
      cluster changed in contents, no other entry of the FAT and no sector outside the data area; copies
      of the FAT that agreed still do. */
  ghost predicate OwnChanges(g: Geometry, d: Disk, d': Disk, chain: seq<nat>, chain': seq<nat>) {
    forall k: nat :: Opens(k) ==>
      && HasData(g) && IsDisk(g, d) && IsDisk(g, d')
      && chain <= chain'
      && (forall c :: c in chain' && c !in chain ==> 2 <= c < g.nFatent && FatOf(g, d)[c] == 0)
      && (forall c :: 2 <= c < g.nFatent && c !in chain' ==> Cluster(g, d', c) == Cluster(g, d, c))
      && (forall c :: 0 <= c < g.nFatent && (c < 2 || c !in chain') ==> FatOf(g, d')[c] == FatOf(g, d)[c])
      && (forall i :: 0 <= i < g.sectors && Foreign(g, chain', i) ==> d'[i] == d[i])
      && (Mirrored(g, d) ==> Mirrored(g, d'))
  }

  lemma OwnChangesTwice(g: Geometry, d: Disk, d1: Disk, d2: Disk, chain: seq<nat>, chain1: seq<nat>, chain2: seq<nat>)
    requires OwnChanges(g, d, d1, chain, chain1) && OwnChanges(g, d1, d2, chain1, chain2)
    ensures OwnChanges(g, d, d2, chain, chain2)
  {
    assert Opens(0);
    forall c | c in chain1 ensures c in chain2 { assert chain2[..|chain1|] == chain1; }
    forall i | 0 <= i < g.sectors && Foreign(g, chain2, i) ensures d2[i] == d[i] { assert Foreign(g, chain1, i); }
  }

  lemma OwnNothing(g: Geometry, d: Disk, chain: seq<nat>)
    requires HasData(g) && IsDisk(g, d)
    ensures OwnChanges(g, d, d, chain, chain)
  {
  }

  /** Overwriting sectors of one of the file's clusters. */
  lemma OwnSectors(g: Geometry, d: Disk, d': Disk, chain: seq<nat>, k: nat, j: nat, s: nat, secs: seq<Sector>)
    requires HasData(g) && IsDisk(g, d) && IsDisk(g, d') && AreClusters(g, chain) && k < |chain|
    requires j + |secs| <= g.csize && AreSectors(secs)
    requires s == Base(g, chain[k]) + j && s + |secs| <= g.sectors && d' == Overwrite(d, s, secs)
    requires FatOf(g, d') == FatOf(g, d)
    ensures OwnChanges(g, d, d', chain, chain)
  {
    forall c | 2 <= c < g.nFatent && c !in chain ensures Cluster(g, d', c) == Cluster(g, d, c) {
      SectorsElsewhere(g, d, d', chain[k], c, j, s, secs);
    }
  }

  lemma SectorsElsewhere(g: Geometry, d: Disk, d': Disk, own: nat, c: nat, j: nat, s: nat, secs: seq<Sector>)
    requires HasData(g) && IsDisk(g, d) && IsDisk(g, d') && 2 <= own < g.nFatent && 2 <= c < g.nFatent && c != own
    requires j + |secs| <= g.csize && AreSectors(secs)
    requires s == Base(g, own) + j && s + |secs| <= g.sectors && d' == Overwrite(d, s, secs)
    ensures Cluster(g, d', c) == Cluster(g, d, c)
  {
    PatchElsewhere(g, d, own, c, j, secs);
  }

  /** Appending a free cluster to the file's chain. */
  lemma OwnGrowth(g: Geometry, d: Disk, d': Disk, chain: seq<nat>, r: nat, eoc: nat)
    requires HasData(g) && IsDisk(g, d) && IsDisk(g, d') && AreClusters(g, chain) && 2 <= r < g.nFatent
    requires OnlyFatsChange(g, d, d') && FatOf(g, d)[r] == 0
    requires FatOf(g, d') == Grown(FatOf(g, d), if chain == [] then 0 else chain[|chain| - 1], r, eoc)
    ensures OwnChanges(g, d, d', chain, chain + [r])
  {
    forall c | 2 <= c < g.nFatent && c !in chain + [r]
      ensures Cluster(g, d', c) == Cluster(g, d, c) && FatOf(g, d')[c] == FatOf(g, d)[c]
    {
      BaseBounds(g, c);
      if chain != [] { assert chain[|chain| - 1] in chain + [r]; }
    }
  }

  /** create_chain appended cluster `r` to the chain. */
  ghost predicate Grew(g: Geometry, d: Disk, d': Disk, chain: seq<nat>, r: nat, eoc: nat) {
    && HasData(g) && IsDisk(g, d) && IsDisk(g, d')
    && 2 <= r < g.nFatent <= eoc && OnlyFatsChange(g, d, d') && FatOf(g, d)[r] == 0
    && (chain != [] ==> chain[|chain| - 1] < g.nFatent)
    && FatOf(g, d') == Grown(FatOf(g, d), if chain == [] then 0 else chain[|chain| - 1], r, eoc)
  }

  /** The invariant of an open file after its chain grew. */
  lemma AfterGrowth(g: Geometry, vol: Disk, vol': Disk, sclust: nat, chain: seq<nat>, dirty: bool, sect: nat,
                    at: (nat, nat), buf: Sector, image: seq<byte>, r: nat, eoc: nat) returns (image': seq<byte>)
    requires Grew(g, vol, vol', chain, r, eoc) && FileOn(g, vol, sclust, chain, dirty, sect, at, buf, image)
    ensures FileOn(g, vol', if chain == [] then r else sclust, chain + [r], dirty, sect, at, buf, image')
    ensures image <= image'
    ensures OwnChanges(g, vol, vol', chain, chain + [r])
  {
    ChainedGrowth(g, FatOf(g, vol), FatOf(g, vol'), sclust, chain, r, eoc);
    OwnGrowth(g, vol, vol', chain, r, eoc);
    image' := Extended(g, vol, vol', chain, dirty, sect, at, buf, image, r);
  }

  /** The table stays well formed, with every other chain as it was... */
  lemma OthersKeepChains(g: Geometry, d: Disk, d': Disk, chains: set<seq<nat>>, sclust: nat, chain: seq<nat>,
                         chain': seq<nat>)
    requires OwnChanges(g, d, d', chain, chain')
    requires g.Valid() && IsDisk(g, d) && IsDisk(g, d') && WellFormed(FatOf(g, d), chains) && chain in chains
             && Chained(g, FatOf(g, d'), sclust, chain')
    ensures WellFormed(FatOf(g, d'), chains - {chain} + {chain'})
  {
    assert Opens(0);
    GrewRewires(FatOf(g, d), FatOf(g, d'), chain, chain');
    RewiredIsWellFormed(FatOf(g, d), FatOf(g, d'), chains, chain, chain');
  }

  /** ...and every other file keeps its bytes. */
  lemma OthersKeepBytes(g: Geometry, d: Disk, d': Disk, chains: set<seq<nat>>, chain: seq<nat>, chain': seq<nat>,
                        other: seq<nat>)
    requires OwnChanges(g, d, d', chain, chain')
    requires HasData(g) && IsDisk(g, d) && IsDisk(g, d') && WellFormed(FatOf(g, d), chains) && other in chains
             && (chain == [] || (chain in chains && other != chain))
    ensures AreClusters(g, other) && Image(g, d', other) == Image(g, d, other)
  {
    assert Opens(0);
    forall i | 0 <= i < |other|
      ensures 2 <= other[i] < g.nFatent && Cluster(g, d', other[i]) == Cluster(g, d, other[i])
    {
      assert other[i] in other;
      InChain(FatOf(g, d), other, other[i]);
      assert chain != [] ==> Disjoint(other, chain);
    }
    DataSame(g, d', d, other);
  }
}
