/** An open file of fatfs/ff.c on a FAT volume: f_read, f_write and f_lseek through a private
    one-sector buffer, against a flat byte array with a position. */
module FatFile {
  import opened Bytes
  import opened Guards
  import opened Sectors
  import opened FatEntries
  import opened FatChains
  import opened FatVolume
  import opened FatAllocation
  import opened FileLayout
  import opened FileBuffer

  /** What a user of the file sees. */
  datatype FlatFile = FlatFile(data: seq<byte>, pos: nat)

  /** `c` with the bytes from `p` on overwritten by `d`, longer if need be. */
  ghost function Written(c: seq<byte>, p: nat, d: seq<byte>): seq<byte>
    requires p <= |c|
  {
    c[..p] + d + if p + |d| < |c| then c[p + |d|..] else []
  }

  /** f_read of at most `n` bytes. */
  ghost predicate ReadStep(f: FlatFile, f': FlatFile, n: nat, out: seq<byte>) {
    && f.pos <= |f.data|
    && |out| == (if n > |f.data| - f.pos then |f.data| - f.pos else n)
    && out == f.data[f.pos..f.pos + |out|]
    && f' == FlatFile(f.data, f.pos + |out|)
  }

  /** f_lseek to `ofs`: what is read between the old end and a position past it is unspecified. */
  ghost predicate SeekStep(f: FlatFile, f': FlatFile, ofs: nat, canWrite: bool) {
    if ofs <= |f.data| then f' == FlatFile(f.data, ofs)
    else if !canWrite then f' == FlatFile(f.data, |f.data|)
    else f.data <= f'.data && f'.pos == |f'.data| <= ofs
  }

  lemma WrittenTwice(c: seq<byte>, p: nat, d: seq<byte>, e: seq<byte>)
    requires p <= |c|
    ensures p + |d| <= |Written(c, p, d)| && Written(Written(c, p, d), p + |d|, e) == Written(c, p, d + e)
  {
    var w := Written(c, p, d);
    assert w[..p + |d|] == c[..p] + d;
  }

  lemma PatchIsWritten(image: seq<byte>, size: nat, p: nat, d: seq<byte>)
    requires p <= size <= |image| && p + |d| <= |image|
    ensures Patch(image, p, d)[..if p + |d| > size then p + |d| else size] == Written(image[..size], p, d)
  {
  }

  /** f_write of `d`, of which it stored `bw` bytes. */
  ghost predicate WriteStep(f: FlatFile, f': FlatFile, d: seq<byte>, bw: nat) {
    && f.pos <= |f.data| && bw <= |d|
    && f' == FlatFile(Written(f.data, f.pos, d[..bw]), f.pos + bw)
  }

  lemma WriteStepTwice(f: FlatFile, f1: FlatFile, f2: FlatFile, d: seq<byte>, a: nat, n: nat)
    requires a <= |d| && WriteStep(f, f1, d, a) && WriteStep(f1, f2, d[a..], n)
    ensures WriteStep(f, f2, d, a + n)
  {
    WrittenTwice(f.data, f.pos, d[..a], d[a..][..n]);
    assert d[..a] + d[a..][..n] == d[..a + n];
  }

  lemma WriteStepOfMore(f: FlatFile, f': FlatFile, d: seq<byte>, n: nat, bw: nat)
    requires n <= |d| && WriteStep(f, f', d[..n], bw)
    ensures WriteStep(f, f', d, bw)
  {
    assert d[..n][..bw] == d[..bw];
  }

  /** No cluster can be had: none is free, or none is by the count that is kept. */
  ghost predicate Full(g: Geometry, vol: Disk, free: dword) {
    free == 0 || (g.Valid() && IsDisk(g, vol) && NoneFree(FatOf(g, vol)))
  }

  ghost predicate DiskFull(fs: FatFs)
    reads fs
  {
    Full(fs.g, fs.vol, fs.freeClst)
  }

  /** The count that is kept, if it is known, is right. */
  ghost predicate Counted(g: Geometry, vol: Disk, free: dword) {
    g.Valid() && IsDisk(g, vol) && (free <= g.nFatent - 2 ==> free == FreeCount(FatOf(g, vol)))
  }

  /** On a volume with a right count none is free indeed. */
  lemma FullIsFull(g: Geometry, vol: Disk, free: dword)
    requires Full(g, vol, free) && Counted(g, vol, free)
    ensures NoneFree(FatOf(g, vol))
  {
    if free == 0 { CountedNone(FatOf(g, vol)); }
  }

  /** An entry of the table makes get_fat report an internal error. */
  ghost predicate Corrupt(fs: FatFs)
    reads fs
  {
    fs.g.Valid() && IsDisk(fs.g, fs.vol) && HasCorrupt(FatOf(fs.g, fs.vol))
  }

  /** What create_chain does for the `k`-th cluster of a file: it is the next one, or one that was free. */
  lemma Asked(g: Geometry, d: Disk, d': Disk, free: dword, last: nat, chain: seq<nat>, k: nat, from: nat, r: nat,
              eoc: nat)
    requires HasData(g) && IsDisk(g, d) && IsDisk(g, d') && OnlyFatsChange(g, d, d') && AreClusters(g, chain)
             && eoc >= g.nFatent
    requires k <= |chain| && (k == 0 ==> from == 0 && chain == []) && (0 < k ==> from == chain[k - 1])
    requires 0 < k < |chain| ==> FatOf(g, d)[from] == chain[k]
    requires 0 < k == |chain| ==> FatOf(g, d)[from] >= g.nFatent
    requires CreateOutcome(FatOf(g, d), free, last, from, r)
    requires if Allocated(FatOf(g, d), from, r) then FatOf(g, d') == Grown(FatOf(g, d), from, r, eoc) else d' == d
    ensures k < |chain| ==> r == chain[k] >= 2
    ensures k < |chain| || r < 2 ==> d' == d
    ensures k == |chain| && r >= 2 ==> Grew(g, d, d', chain, r, eoc)
    ensures r == 0 ==> Full(g, d', free)
    ensures r == 1 ==> HasCorrupt(FatOf(g, d'))
  {
  }

  /** `sect - s < n` in 32-bit arithmetic. */
  method Within(sect: dword, s: dword, n: nat) returns (b: bool)
    requires s + n <= 0x1_0000_0000
    ensures b <==> s <= sect < s + n
  {
    b := (sect - s) % 0x1_0000_0000 < n;
  }

  class Fil {
    const fs: FatFs
    const canRead: bool      // FA_READ
    const canWrite: bool     // FA_WRITE
    var dirty: bool          // FA_DIRTY
    var modified: bool       // FA_MODIFIED
    var err: FResult
    var sclust: dword        // start cluster, 0: none
    var objsize: dword
    var fptr: dword
    var clust: dword         // current cluster, meaningless when fptr is 0
    var sect: dword          // sector in buf, 0: none
    const buf: array<byte>

    ghost var known: bool         // the free count of the volume was right when the last call began
    ghost var home: dword         // the sector in the volume window then
    ghost var chain: seq<nat>     // the clusters of the file
    ghost var clustAt: nat        // index of clust among them
    ghost var bufAt: (nat, nat)   // cluster index and sector in it that buf holds
    ghost var image: seq<byte>    // the bytes of all clusters, with the dirty buffer in place

    /** The invariant apart from the position: of the disk, the chain and the buffer. */
    ghost predicate Core()
      reads `known, `home, `sclust, `chain, `dirty, `sect, `bufAt, `image, `objsize, buf, fs`disk, fs`vol, fs`winsect,
            fs`wflag, fs`freeClst, fs.win
    {
      CoreIf(dirty)
    }

    /** The same if the buffer is taken to be dirty or not.  The operations pass it on as a whole;
        where its parts matter, `Opens` gets at them. */
    ghost predicate CoreIf(d: bool)
      reads `known, `home, `sclust, `chain, `sect, `bufAt, `image, `objsize, buf, fs`disk, fs`vol, fs`winsect, fs`wflag,
            fs`freeClst, fs.win
    {
      objsize <= |image| && forall k: nat :: Opens(k) ==>
        Around() && FileOn(fs.g, fs.vol, sclust, chain, d, sect, bufAt, buf[..], image)
    }

    ghost predicate Around()
      reads `known, `home, `chain, fs`disk, fs`vol, fs`winsect, fs`wflag, fs`freeClst, fs.win
    {
      && fs.Valid() && HasData(fs.g) && buf.Length == 512 && buf != fs.win
      && WindowAway(fs.g, chain, fs.winsect)
      && (fs.winsect == home || fs.g.InFirstFat(fs.winsect)) && (known ==> fs.FreeKnown())
    }

    /** `clust` holds byte `fptr - 1`, and the buffer the sector `fptr` is inside of. */
    ghost predicate Positioned()
      reads `fptr, `clust, `clustAt, `chain, `sect, `bufAt
    {
      && Located(fs.g.csize, chain, fptr, clust, clustAt)
      && (fptr % 512 != 0 ==> sect != 0 && PositionIs(fs.g.csize, fptr, bufAt.0, bufAt.1))
    }

    ghost predicate Valid()
      reads this, buf, fs`disk, fs`vol, fs`winsect, fs`wflag, fs`freeClst, fs.win
    {
      Core() && (err == Ok ==> fptr <= objsize && Positioned())
    }

    ghost function Abs(): FlatFile
      requires Valid()
      reads this, buf, fs`disk, fs`vol, fs`winsect, fs`wflag, fs`freeClst, fs.win
    {
      FlatFile(image[..objsize], fptr)
    }

    /** f_open of an existing file: start cluster and size come from its directory entry. */
    constructor Open(fs: FatFs, canRead: bool, canWrite: bool, start: dword, size: dword, ghost clusters: seq<nat>)
      requires HasData(fs.g) && fs.Valid()
      requires clusters == [] <==> start == 0
      requires clusters != [] ==> IsChain(fs.Fat(), clusters) && clusters[0] == start
      requires size <= 512 * Times(fs.g.csize, |clusters|)
      requires WindowAway(fs.g, clusters, fs.winsect)
      ensures Valid() && fresh(this) && fresh(buf)
      ensures this.fs == fs && chain == clusters && err == Ok && !modified
      ensures image == Image(fs.g, fs.vol, clusters) && objsize == size && fptr == 0
    {
      this.fs, this.canRead, this.canWrite := fs, canRead, canWrite;
      dirty, modified, err := false, false, Ok;
      sclust, objsize, fptr, clust, sect := start, size, 0, 0, 0;
      buf := new byte[512](_ => 0);
      chain, clustAt, bufAt, known, home := clusters, 0, (0, 0), false, fs.winsect;
      image := if AreClusters(fs.g, clusters) then Image(fs.g, fs.vol, clusters) else [];
      new;
      forall i, j | 0 <= i < j < |chain| ensures chain[i] != chain[j] { ChainIsAcyclic(fs.Fat(), chain, i, j); }
      ImageLength(fs.g, fs.vol, chain);
    }

    /** A call begins: what it may count on, and has to keep. */
    ghost method Begin()
      requires Core()
      modifies `known, `home
      ensures Core() && home == fs.winsect && (known <==> Counted(fs.g, fs.vol, fs.freeClst))
      ensures OwnChanges(fs.g, fs.vol, fs.vol, chain, chain)
    {
      Untouched();
      assert Opens(0);
      known, home := Counted(fs.g, fs.vol, fs.freeClst), fs.winsect;
    }

    /** The parts make the whole. */
    lemma Closed(d: bool)
      requires Around() && FileOn(fs.g, fs.vol, sclust, chain, d, sect, bufAt, buf[..], image) && objsize <= |image|
      ensures CoreIf(d)
    {
    }

    /** The volume under a valid file: its window and, if it was right, its free count. */
    lemma Underneath()
      requires Core()
      ensures Around() && FileOn(fs.g, fs.vol, sclust, chain, dirty, sect, bufAt, buf[..], image)
      ensures fs.Valid()
      ensures known ==> Counted(fs.g, fs.vol, fs.freeClst)
    {
      assert Opens(0);
    }

    lemma Untouched()
      requires Core()
      ensures OwnChanges(fs.g, fs.vol, fs.vol, chain, chain)
    {
      assert Opens(0);
      OwnNothing(fs.g, fs.vol, chain);
    }

    /** Write-back of the dirty buffer. */
    method WriteBack()
      requires Core()
      modifies `dirty, fs`disk, fs`vol
      ensures Core() && !dirty && OwnChanges(fs.g, old(fs.vol), fs.vol, chain, chain)
    {
      assert Opens(0);
      if dirty {
        ghost var k, j := bufAt.0, bufAt.1;
        BaseBounds(fs.g, chain[k]);
        assert chain[k] in chain;
        var data := buf[..];
        fs.WriteSectors(sect, [data]);
        dirty := false;
        Cleaned(fs.g, old(fs.vol), fs.vol, chain, sect, bufAt, data, image);
        OwnSectors(fs.g, old(fs.vol), fs.vol, chain, k, j, sect, [data]);
        Closed(false);
      }
    }

    /** Reading the FAT leaves the file as it is. */
    method NextCluster(clst: dword) returns (nxt: dword)
      requires Core()
      modifies fs`disk, fs`wflag, fs`winsect, fs.win
      ensures Core() && HasData(fs.g) && IsDisk(fs.g, fs.vol)
      ensures nxt == if 2 <= clst < fs.g.nFatent then FatOf(fs.g, fs.vol)[clst] else 1
    {
      assert Opens(0);
      nxt := fs.GetFat(clst);
      if fs.g.InFirstFat(fs.winsect) { FatIsAway(fs.g, chain, fs.winsect); }
    }

    /** The cluster that the sector boundary `fptr` lies in, `k`-th of the file, and the sector in it. */
    method Offset() returns (csect: nat, ghost k: nat)
      requires 0 < fs.g.csize && Located(fs.g.csize, chain, fptr, clust, clustAt) && fptr % 512 == 0
      ensures PositionIs(fs.g.csize, fptr, k, csect)
      ensures fptr == 0 ==> k == 0 && csect == 0
      ensures fptr > 0 ==> k == if csect == 0 then clustAt + 1 else clustAt
    {
      csect := fptr / 512 % fs.g.csize;
      k := Locate(fs.g.csize, fptr, clustAt);
    }

    /** get_fat along the file's chain. */
    method NextInChain() returns (nxt: dword)
      requires Core() && clustAt + 1 < |chain| && clust == chain[clustAt]
      modifies fs`disk, fs`wflag, fs`winsect, fs.win
      ensures Core() && nxt == chain[clustAt + 1] >= 2
    {
      assert Opens(0);
      assert FatOf(fs.g, fs.vol)[chain[clustAt]] == chain[clustAt + 1];
      nxt := NextCluster(clust);
    }

    /** Cluster `c`, the `k`-th of the file, becomes the current one. */
    method Enter(c: dword, ghost k: nat)
      requires Core()
      modifies `clust, `clustAt
      ensures Core() && clust == c && clustAt == k
    {
      clust := c;
      clustAt := k;
    }

    /** f_read at a cluster boundary. */
    method FollowForRead(ghost k: nat)
      requires Core() && Located(fs.g.csize, chain, fptr, clust, clustAt)
      requires k < |chain| && k == if fptr == 0 then 0 else clustAt + 1
      modifies `clust, `clustAt, fs`disk, fs`wflag, fs`winsect, fs.win
      ensures Core() && clustAt == k && clust == chain[k]
    {
      ChainStarts();
      var clst;
      if fptr == 0 {
        clst := sclust;
      } else {
        clst := NextInChain();
      }
      Enter(clst, k);
    }

    /** The sector of `csect` in the current cluster. */
    method CurrentSector(csect: nat) returns (s: dword)
      requires HasData(fs.g) && clustAt < |chain| && clust == chain[clustAt]
      requires 2 <= clust < fs.g.nFatent && csect < fs.g.csize
      ensures s == Base(fs.g, clust) + csect && 0 < s < fs.g.sectors
    {
      BaseBounds(fs.g, clust);
      s := Clst2Sect(fs.g, clust);
      s := s + csect;
    }

    /** Fill the buffer with sector `s`, after writing back what it holds. */
    method LoadSector(s: dword, ghost k: nat, ghost csect: nat)
      requires Core() && k < |chain| && csect < fs.g.csize && AreClusters(fs.g, chain)
               && s == Base(fs.g, chain[k]) + csect
      modifies `dirty, `sect, `bufAt, buf, fs`disk, fs`vol
      ensures Core() && sect == s != 0 && bufAt == (k, csect)
      ensures OwnChanges(fs.g, old(fs.vol), fs.vol, chain, chain)
    {
      if sect != s {
        WriteBack();
        Refill(s, k, csect);
      } else {
        Relabel(k, csect);
      }
    }

    /** The buffer's sector, found again. */
    ghost method Relabel(k: nat, csect: nat)
      requires Core() && k < |chain| && csect < fs.g.csize && AreClusters(fs.g, chain)
               && sect == Base(fs.g, chain[k]) + csect
      modifies `bufAt
      ensures Core() && sect != 0 && bufAt == (k, csect)
      ensures OwnChanges(fs.g, fs.vol, fs.vol, chain, chain)
    {
      assert Opens(0);
      OwnNothing(fs.g, fs.vol, chain);
      BaseBounds(fs.g, chain[k]);
      bufAt := (k, csect);
    }

    method Refill(s: dword, ghost k: nat, ghost csect: nat)
      requires Core() && !dirty && k < |chain| && csect < fs.g.csize && AreClusters(fs.g, chain)
               && s == Base(fs.g, chain[k]) + csect
      modifies `sect, `bufAt, buf
      ensures Core() && sect == s != 0 && bufAt == (k, csect)
    {
      Underneath();
      MayRead(k, csect, 1);
      Refilled(fs.g, fs.vol, chain, sect, bufAt, buf[..], image, k, csect);
      ReadIntoBuffer(s);
      sect := s;
      bufAt := (k, csect);
      Closed(false);
    }

    method ReadIntoBuffer(s: dword)
      requires fs.Valid() && buf.Length == 512 && buf != fs.win
      requires fs.g.database <= s < fs.g.sectors && fs.winsect != s
      modifies buf
      ensures s < |fs.vol| && buf[..] == fs.vol[s]
    {
      var secs := fs.ReadSectors(s, 1);
      var data := secs[0];
      forall i | 0 <= i < 512 { buf[i] := data[i]; }
      assert buf[..] == data;
    }

    /** The sectors of the file are data sectors outside the volume window. */
    lemma MayRead(k: nat, csect: nat, n: nat)
      requires Core() && k < |chain| && csect + n <= fs.g.csize && AreClusters(fs.g, chain)
      ensures HasData(fs.g) && fs.Valid()
      ensures var s := Base(fs.g, chain[k]) + csect;
              fs.g.database <= s && s + n <= fs.g.sectors && !(s <= fs.winsect < s + n)
    {
      assert Opens(0);
      BaseBounds(fs.g, chain[k]);
      assert chain[k] in chain;
    }

    lemma RunShows(s: dword, n: nat, k: nat, csect: nat, secs: seq<Sector>, bytes: seq<byte>)
      requires Core() && k < |chain| && csect + n <= fs.g.csize && AreClusters(fs.g, chain)
               && s == Base(fs.g, chain[k]) + csect
      requires PositionIs(fs.g.csize, fptr, k, csect) && fptr % 512 == 0 && s + n <= |fs.vol|
      requires secs == if dirty && s <= sect < s + n then fs.vol[s..s + n][sect - s := buf[..]] else fs.vol[s..s + n]
      requires bytes == Flat(secs)
      ensures fptr + 512 * n <= |image| && image[fptr..fptr + 512 * n] == bytes
    {
      Underneath();
      RunRead(fs.g, fs.vol, chain, dirty, sect, bufAt, buf[..], image, fptr, k, csect, s, n, secs);
    }

    /** The direct transfer of f_read, with the dirty buffer replacing its sector. */
    method ReadDirect(s: dword, cc: nat, ghost k: nat, ghost csect: nat) returns (piece: seq<byte>)
      requires Core() && k < |chain| && csect + cc <= fs.g.csize && AreClusters(fs.g, chain)
               && s == Base(fs.g, chain[k]) + csect
      requires PositionIs(fs.g.csize, fptr, k, csect) && fptr % 512 == 0
      ensures fptr + 512 * cc <= |image| && piece == image[fptr..fptr + 512 * cc]
    {
      MayRead(k, csect, cc);
      var secs := fs.ReadSectors(s, cc);
      var inRun := Within(sect, s, cc);
      if dirty && inRun {
        secs := secs[sect - s := buf[..]];
      }
      piece := Flat(secs);
      RunShows(s, cc, k, csect, secs, piece);
    }

    lemma IsSector()
      requires Core()
      ensures buf.Length == 512
    {
      assert Opens(0);
    }

    lemma BufferShows(n: nat, piece: seq<byte>)
      requires Core() && sect != 0 && PositionIs(fs.g.csize, fptr, bufAt.0, bufAt.1) && fptr % 512 + n <= 512
      requires buf.Length == 512 && piece == buf[..][fptr % 512..fptr % 512 + n]
      ensures bufAt.1 < fs.g.csize
      ensures fptr + n <= |image| && image[fptr..fptr + n] == piece
    {
      assert Opens(0);
      PartOfBuffer(fs.g, fs.vol, chain, dirty, sect, bufAt, buf[..], image, fptr, n, piece);
    }

    /** The end of a pass of f_read: bytes of the buffered sector. */
    method ReadPartial(btr: nat) returns (piece: seq<byte>)
      requires Core() && BufferHere() && 0 < btr && fptr + btr <= objsize
      modifies `fptr
      ensures Core() && fptr <= objsize && Positioned()
      ensures 0 < |piece| <= btr && fptr == old(fptr) + |piece| && piece == image[old(fptr)..fptr]
    {
      var rcnt := UpToBoundary(btr);
      var o := fptr % 512;
      IsSector();
      piece := buf[..][o..o + rcnt];
      BufferShows(rcnt, piece);
      Advance(fs.g.csize, fptr, bufAt.0, bufAt.1, 1, fptr + rcnt);
      fptr := fptr + rcnt;
    }

    /** At a sector boundary: make the cluster of `fptr` current and find its sector. */
    method SeekSectorForRead() returns (s: dword, csect: nat, ghost k: nat)
      requires Core() && Positioned() && fptr % 512 == 0 && fptr < objsize
      modifies `clust, `clustAt, fs`disk, fs`wflag, fs`winsect, fs.win
      ensures Core() && clustAt == k < |chain| && clust == chain[k] && AreClusters(fs.g, chain)
      ensures PositionIs(fs.g.csize, fptr, k, csect) && s == Base(fs.g, chain[k]) + csect
    {
      ChainStarts();
      ChainCovers(0);
      csect, k := Offset();
      PositionInChain(fs.g.csize, fptr, k, csect, |chain|);
      if csect == 0 { FollowForRead(k); }
      s := CurrentSector(csect);
    }

    /** The number of whole sectors of a direct transfer, clipped at the cluster boundary. */
    method WholeSectors(n: nat, csect: nat) returns (cc: nat)
      requires csect < fs.g.csize
      ensures 512 * cc <= n && csect + cc <= fs.g.csize && (cc == 0 <==> n < 512)
    {
      cc := n / 512;
      if csect + cc > fs.g.csize { cc := fs.g.csize - csect; }
    }

    /** Past `cc` sectors of the current cluster. */
    method Skip(cc: nat, ghost k: nat, ghost csect: nat)
      requires Core() && PositionIs(fs.g.csize, fptr, k, csect) && fptr % 512 == 0 && 0 < cc && csect + cc <= fs.g.csize
      requires clustAt == k < |chain| && clust == chain[k] && fptr + 512 * cc <= 0xFFFF_FFFF
      modifies `fptr
      ensures Core() && fptr == old(fptr) + 512 * cc && Positioned()
    {
      Advance(fs.g.csize, fptr, k, csect, cc, fptr + 512 * cc);
      fptr := fptr + 512 * cc;
      BoundaryAfter(old(fptr), cc);
    }

    /** One pass of the loop of f_read. */
    method ReadChunk(btr: nat) returns (piece: seq<byte>)
      requires Core() && Positioned() && 0 < btr && fptr + btr <= objsize
      modifies `dirty, `fptr, `clust, `clustAt, `sect, `bufAt, buf, fs`disk, fs`vol, fs`wflag, fs`winsect, fs.win
      ensures Core() && fptr <= objsize && Positioned()
      ensures 0 < |piece| <= btr && fptr == old(fptr) + |piece| && piece == image[old(fptr)..fptr]
      ensures OwnChanges(fs.g, old(fs.vol), fs.vol, chain, chain)
    {
      if fptr % 512 == 0 {
        piece := ReadAtBoundary(btr);
        if piece != [] { return; }
      } else {
        Untouched();
        InsideBuffer();
      }
      piece := ReadPartial(btr);
    }

    /** A direct transfer, or nothing but the sector of `fptr` in the buffer. */
    method ReadAtBoundary(btr: nat) returns (piece: seq<byte>)
      requires Core() && Positioned() && 0 < btr && fptr + btr <= objsize && fptr % 512 == 0
      modifies `dirty, `fptr, `clust, `clustAt, `sect, `bufAt, buf, fs`disk, fs`vol, fs`wflag, fs`winsect, fs.win
      ensures Core() && |piece| <= btr && fptr == old(fptr) + |piece| <= objsize && piece == image[old(fptr)..fptr]
      ensures if piece != [] then Positioned() else BufferHere()
      ensures OwnChanges(fs.g, old(fs.vol), fs.vol, chain, chain)
    {
      var s, csect, k := SeekSectorForRead();
      piece := TransferOrLoad(s, csect, btr, k);
    }

    /** The buffer has the sector `fptr` is in. */
    ghost predicate BufferHere()
      reads `fptr, `clust, `clustAt, `chain, `sect, `bufAt
    {
      && sect != 0 && PositionIs(fs.g.csize, fptr, bufAt.0, bufAt.1)
      && clustAt == bufAt.0 < |chain| && clust == chain[clustAt]
    }

    lemma InsideBuffer()
      requires Positioned() && fptr % 512 != 0
      ensures BufferHere()
    {
      PositionInside(fs.g.csize, fptr, bufAt.0, bufAt.1, clustAt);
    }

    method TransferOrLoad(s: dword, csect: nat, btr: nat, ghost k: nat) returns (piece: seq<byte>)
      requires Core() && 0 < btr && fptr + btr <= objsize && fptr % 512 == 0
      requires clustAt == k < |chain| && clust == chain[k] && AreClusters(fs.g, chain)
      requires PositionIs(fs.g.csize, fptr, k, csect) && csect < fs.g.csize && s == Base(fs.g, chain[k]) + csect
      modifies `dirty, `fptr, `sect, `bufAt, buf, fs`disk, fs`vol
      ensures Core() && |piece| <= btr && fptr == old(fptr) + |piece| <= objsize && piece == image[old(fptr)..fptr]
      ensures if piece != [] then Positioned() else BufferHere()
      ensures OwnChanges(fs.g, old(fs.vol), fs.vol, chain, chain)
    {
      var cc := WholeSectors(btr, csect);
      if cc > 0 {
        Untouched();
        piece := ReadDirect(s, cc, k, csect);
        Skip(cc, k, csect);
      } else {
        LoadSector(s, k, csect);
        piece := [];
      }
    }

    /** f_read */
    method Read(btr: dword) returns (res: FResult, buff: seq<byte>)
      requires Valid()
      modifies `known, `home, `dirty, `fptr, `clust, `clustAt, `sect, `bufAt, buf, fs`disk, fs`vol, fs`wflag,
               fs`winsect, fs.win
      ensures Valid() && OwnChanges(fs.g, old(fs.vol), fs.vol, chain, chain)
      ensures home == old(fs.winsect) && known == old(Counted(fs.g, fs.vol, fs.freeClst))
      ensures res == if err != Ok then err else if !canRead then Denied else Ok
      ensures if res == Ok then ReadStep(old(Abs()), Abs(), btr, buff) else buff == [] && Abs() == old(Abs())
    {
      Begin();
      if err != Ok { return err, []; }
      if !canRead { return Denied, []; }
      var remain := objsize - fptr;
      var n: nat := if btr > remain then remain else btr;
      buff := ReadAll(n);
      res := Ok;
      SliceOfPrefix(image, objsize, old(fptr), fptr);
    }

    /** The loop of f_read. */
    method ReadAll(n: nat) returns (buff: seq<byte>)
      requires Core() && Positioned() && fptr + n <= objsize
      modifies `dirty, `fptr, `clust, `clustAt, `sect, `bufAt, buf, fs`disk, fs`vol, fs`wflag, fs`winsect, fs.win
      ensures Core() && Positioned() && OwnChanges(fs.g, old(fs.vol), fs.vol, chain, chain)
      ensures fptr == old(fptr) + n <= objsize && |buff| == n && buff == image[old(fptr)..fptr]
    {
      buff := [];
      ghost var p, v0 := fptr, fs.vol;
      var left: nat := n;
      Untouched();
      while left > 0
        invariant Core() && fptr <= objsize && Positioned()
        invariant |buff| + left == n && fptr == p + |buff| && p + n <= objsize
        invariant buff == image[p..fptr]
        invariant OwnChanges(fs.g, v0, fs.vol, chain, chain)
      {
        var piece := ReadMore(left, p, v0, buff);
        left := left - |piece|;
        buff := buff + piece;
      }
    }

    /** A pass of f_read, in terms of all that was read. */
    method ReadMore(left: nat, ghost p: nat, ghost v0: Disk, ghost buff: seq<byte>) returns (piece: seq<byte>)
      requires Core() && Positioned() && 0 < left && p <= fptr && fptr + left <= objsize
      requires buff == image[p..fptr] && OwnChanges(fs.g, v0, fs.vol, chain, chain)
      modifies `dirty, `fptr, `clust, `clustAt, `sect, `bufAt, buf, fs`disk, fs`vol, fs`wflag, fs`winsect, fs.win
      ensures Core() && Positioned() && 0 < |piece| <= left && fptr == old(fptr) + |piece| <= objsize
      ensures buff + piece == image[p..fptr] && OwnChanges(fs.g, v0, fs.vol, chain, chain)
    {
      ghost var v := fs.vol;
      piece := ReadChunk(left);
      SlicesJoin(image, p, old(fptr), fptr);
      OwnTwice(v0, v, chain, chain);
    }

    /** create_chain for the `k`-th cluster of this file, given the one before it. */
    method Ask(from: dword, ghost k: nat) returns (clst: dword)
      requires Core() && k <= |chain|
      requires if k == 0 then from == 0 == sclust else from == chain[k - 1]
      modifies fs`disk, fs`vol, fs`wflag, fs`winsect, fs.win, fs`freeClst, fs`lastClst, fs`fsiFlag
      ensures k < |chain| ==> clst == chain[k] >= 2
      ensures k < |chain| || clst < 2 ==> Core() && fs.vol == old(fs.vol)
      ensures k == |chain| && clst >= 2 ==>
                && fs.Valid() && fs.g.InFirstFat(fs.winsect) && (known ==> fs.FreeKnown())
                && Grew(fs.g, old(fs.vol), fs.vol, chain, clst, Masked(fs.g.ty, EOC))
                && FileOn(fs.g, old(fs.vol), sclust, chain, dirty, sect, bufAt, buf[..], image) && buf.Length == 512
                && buf != fs.win
      ensures sclust == 0 <==> chain == []
      ensures clst == 0 ==> DiskFull(fs)
      ensures clst == 1 ==> Corrupt(fs)
    {
      BeforeAsk(from, k);
      ghost var v, w, free, last := fs.vol, fs.winsect, fs.freeClst, fs.lastClst;
      clst := fs.CreateChain(from);
      Asked(fs.g, v, fs.vol, free, last, chain, k, from, clst, Masked(fs.g.ty, EOC));
      if k < |chain| || clst < 2 {
        WindowMoved(w);
        Closed(dirty);
      }
    }

    /** The window is where it was, or on the FAT, so not on the file. */
    lemma WindowMoved(w: dword)
      requires fs.Valid() && HasData(fs.g) && AreClusters(fs.g, chain)
      requires fs.g.InFirstFat(fs.winsect) || WindowAway(fs.g, chain, w)
      requires (w == home || fs.g.InFirstFat(w)) && (fs.winsect == w || fs.g.InFirstFat(fs.winsect))
      requires (known ==> fs.FreeKnown()) && buf.Length == 512 && buf != fs.win
      ensures Around()
    {
      if fs.g.InFirstFat(fs.winsect) { FatIsAway(fs.g, chain, fs.winsect); }
    }

    lemma BeforeAsk(from: dword, k: nat)
      requires Core() && k <= |chain|
      requires if k == 0 then from == 0 == sclust else from == chain[k - 1]
      ensures Around() && FileOn(fs.g, fs.vol, sclust, chain, dirty, sect, bufAt, buf[..], image)
      ensures sclust == 0 <==> chain == []
      ensures k == 0 ==> chain == []
      ensures 0 < k ==> 2 <= from < fs.g.nFatent
      ensures 0 < k < |chain| ==> FatOf(fs.g, fs.vol)[from] == chain[k] && 2 <= chain[k] < fs.g.nFatent
      ensures 0 < k == |chain| ==> FatOf(fs.g, fs.vol)[from] >= fs.g.nFatent
      ensures Masked(fs.g.ty, EOC) >= fs.g.nFatent
    {
      assert Opens(0);
      LinkFits(fs.g.ty, fs.g.nFatent, 2);
    }

    /** create_chain for this file: the cluster after `from`, the `k - 1`-th of the file, or its
        first one; it is appended if the chain ends there. */
    method Stretch(from: dword, ghost k: nat) returns (clst: dword)
      requires Core() && k <= |chain|
      requires if k == 0 then from == 0 == sclust else from == chain[k - 1]
      modifies `sclust, `chain, `image, fs`disk, fs`vol, fs`wflag, fs`winsect, fs.win, fs`freeClst, fs`lastClst,
               fs`fsiFlag
      ensures Core() && OwnChanges(fs.g, old(fs.vol), fs.vol, old(chain), chain)
      ensures old(chain) <= chain && old(image) <= image
      ensures clst < 2 ==> k == |chain| && chain == old(chain) && image == old(image)
      ensures clst >= 2 ==> k < |chain| && chain[k] == clst
      ensures clst == 0 ==> DiskFull(fs)
      ensures clst == 1 ==> Corrupt(fs)
    {
      ghost var v, start := fs.vol, sclust;
      Untouched();
      clst := Ask(from, k);
      if clst >= 2 {
        if sclust == 0 { sclust := clst; }
        if k == |chain| { Adopt(v, start, clst); }
      }
    }

    /** Cluster `r` now belongs to the file. */
    ghost method Adopt(v: Disk, start: nat, r: nat)
      requires FileOn(fs.g, v, start, chain, dirty, sect, bufAt, buf[..], image) && fs.Valid()
               && fs.g.InFirstFat(fs.winsect)
      requires known ==> fs.FreeKnown()
      requires buf.Length == 512 && buf != fs.win && objsize <= |image|
      requires Grew(fs.g, v, fs.vol, chain, r, Masked(fs.g.ty, EOC)) && sclust == if chain == [] then r else start
      modifies `chain, `image
      ensures Core() && OwnChanges(fs.g, v, fs.vol, old(chain), chain)
      ensures chain == old(chain) + [r] && old(image) <= image
    {
      image := AfterGrowth(fs.g, v, fs.vol, start, chain, dirty, sect, bufAt, buf[..], image, r, Masked(fs.g.ty, EOC));
      chain := chain + [r];
      WindowMoved(home);
      Closed(dirty);
    }

    /** The first cluster of the file, which is allocated if there is none; 0: disk full, 1: corrupt table. */
    method FirstCluster() returns (clst: dword)
      requires Core()
      modifies `sclust, `chain, `image, fs`disk, fs`vol, fs`wflag, fs`winsect, fs.win, fs`freeClst, fs`lastClst,
               fs`fsiFlag
      ensures Core() && OwnChanges(fs.g, old(fs.vol), fs.vol, old(chain), chain)
      ensures old(chain) <= chain && old(image) <= image
      ensures clst >= 2 ==> 0 < |chain| && chain[0] == clst
      ensures clst < 2 ==> chain == old(chain) && image == old(image) && chain == []
      ensures clst == 0 ==> DiskFull(fs)
      ensures clst == 1 ==> Corrupt(fs)
    {
      ChainStarts();
      clst := sclust;
      if clst == 0 { clst := Stretch(0, 0); } else { Untouched(); }
    }

    /** f_write at a cluster boundary; 0: disk full, 1: corrupt table. */
    method FollowForWrite(ghost k: nat) returns (clst: dword)
      requires Core() && Located(fs.g.csize, chain, fptr, clust, clustAt)
      requires k == if fptr == 0 then 0 else clustAt + 1
      modifies `clust, `clustAt, `sclust, `chain, `image, fs`disk, fs`vol, fs`wflag, fs`winsect, fs.win, fs`freeClst,
               fs`lastClst, fs`fsiFlag
      ensures Core() && OwnChanges(fs.g, old(fs.vol), fs.vol, old(chain), chain)
      ensures old(chain) <= chain && old(image) <= image
      ensures clst >= 2 ==> clustAt == k < |chain| && clust == chain[k]
      ensures clst < 2 ==> chain == old(chain) && image == old(image) && clust == old(clust) && clustAt == old(clustAt)
      ensures clst == 0 ==> DiskFull(fs)
      ensures clst == 1 ==> Corrupt(fs)
    {
      if fptr == 0 {
        clst := FirstCluster();
      } else {
        clst := Stretch(clust, k);
      }
      if clst < 2 { return; }
      Enter(clst, k);
    }

    lemma ChainStarts()
      requires Core()
      ensures AreClusters(fs.g, chain) && HasData(fs.g)
      ensures if sclust == 0 then chain == [] else chain != [] && chain[0] == sclust >= 2
    {
      assert Opens(0);
    }

    /** The direct transfer of f_write, refilling the buffer if it held one of the sectors. */
    method WriteDirect(s: dword, secs: seq<Sector>, ghost k: nat, ghost csect: nat)
      requires Core() && !dirty && k < |chain| && csect + |secs| <= fs.g.csize && AreSectors(secs)
      requires AreClusters(fs.g, chain) && s == Base(fs.g, chain[k]) + csect
      requires PositionIs(fs.g.csize, fptr, k, csect) && fptr % 512 == 0
      modifies `dirty, `image, buf, fs`disk, fs`vol
      ensures Core() && OwnChanges(fs.g, old(fs.vol), fs.vol, chain, chain)
      ensures fptr + |Flat(secs)| <= |old(image)| && image == Patch(old(image), fptr, Flat(secs))
    {
      ghost var v := ForeseeOwn(s, secs, k, csect);
      ghost var b := if s <= sect < s + |secs| then secs[sect - s] else buf[..];
      ghost var img := ForeseeFile(s, secs, k, csect, v, b);
      Transfer(s, secs, v, b);
      Settled(v, b, img);
    }

    /** The file's bytes are now `img`. */
    ghost method Settled(v: Disk, b: Sector, img: seq<byte>)
      requires Around() && fs.vol == v && buf[..] == b && !dirty && objsize <= |img| && Foreseen(v, b, img)
      modifies `image
      ensures Core() && image == img
    {
      assert Opens(0);
      image := img;
      Closed(false);
    }

    /** On disk `v`, with `b` in the buffer, the file's bytes will be `img`. */
    ghost predicate Foreseen(v: Disk, b: Sector, img: seq<byte>)
      reads `sclust, `chain, `sect, `bufAt
    {
      forall k: nat :: Opens(k) ==> FileOn(fs.g, v, sclust, chain, false, sect, bufAt, b, img)
    }

    /** What the direct transfer is going to do to the disk... */
    lemma ForeseeOwn(s: dword, secs: seq<Sector>, k: nat, csect: nat) returns (v: Disk)
      requires Core() && k < |chain| && csect + |secs| <= fs.g.csize && AreSectors(secs)
      requires AreClusters(fs.g, chain) && s == Base(fs.g, chain[k]) + csect
      ensures Around() && fs.g.database <= s && s + |secs| <= fs.g.sectors && !(s <= fs.winsect < s + |secs|)
      ensures v == Overwrite(fs.vol, s, secs) && IsDisk(fs.g, v) && FatOf(fs.g, v) == FatOf(fs.g, fs.vol)
      ensures OwnChanges(fs.g, fs.vol, v, chain, chain)
    {
      Underneath();
      MayRead(k, csect, |secs|);
      v := Overwrite(fs.vol, s, secs);
      OwnWritten(s, secs, k, csect, v);
    }

    /** ...and to the file. */
    lemma ForeseeFile(s: dword, secs: seq<Sector>, k: nat, csect: nat, v: Disk, b: Sector) returns (img: seq<byte>)
      requires Core() && !dirty && k < |chain| && csect + |secs| <= fs.g.csize && AreSectors(secs)
      requires AreClusters(fs.g, chain) && s == Base(fs.g, chain[k]) + csect && s + |secs| <= fs.g.sectors == |fs.vol|
      requires PositionIs(fs.g.csize, fptr, k, csect) && fptr % 512 == 0
      requires v == Overwrite(fs.vol, s, secs) && b == if s <= sect < s + |secs| then secs[sect - s] else buf[..]
      requires Around() && IsDisk(fs.g, v) && FatOf(fs.g, v) == FatOf(fs.g, fs.vol)
      ensures fptr + |Flat(secs)| <= |image| && img == Patch(image, fptr, Flat(secs)) && objsize <= |img|
      ensures Foreseen(v, b, img)
    {
      Underneath();
      img := FileWritten(s, secs, k, csect, v, b);
    }

    lemma OwnWritten(s: dword, secs: seq<Sector>, k: nat, csect: nat, v: Disk)
      requires Around() && IsDisk(fs.g, fs.vol) && AreClusters(fs.g, chain)
      requires k < |chain| && csect + |secs| <= fs.g.csize && AreSectors(secs) && s == Base(fs.g, chain[k]) + csect
      requires fs.g.database <= s && s + |secs| <= fs.g.sectors && v == Overwrite(fs.vol, s, secs)
      ensures IsDisk(fs.g, v) && FatOf(fs.g, v) == FatOf(fs.g, fs.vol) && OwnChanges(fs.g, fs.vol, v, chain, chain)
    {
      DataIsNotFat(fs.g, fs.vol, s, secs);
      OwnSectors(fs.g, fs.vol, v, chain, k, csect, s, secs);
    }

    lemma FileWritten(s: dword, secs: seq<Sector>, k: nat, csect: nat, v: Disk, b: Sector) returns (img: seq<byte>)
      requires FileOn(fs.g, fs.vol, sclust, chain, false, sect, bufAt, buf[..], image) && buf.Length == 512
      requires k < |chain| && csect + |secs| <= fs.g.csize && AreSectors(secs) && s == Base(fs.g, chain[k]) + csect
      requires PositionIs(fs.g.csize, fptr, k, csect) && fptr % 512 == 0 && s + |secs| <= fs.g.sectors
      requires v == Overwrite(fs.vol, s, secs) && b == if s <= sect < s + |secs| then secs[sect - s] else buf[..]
      requires IsDisk(fs.g, v) && FatOf(fs.g, v) == FatOf(fs.g, fs.vol)
      ensures fptr + |Flat(secs)| <= |image| && img == Patch(image, fptr, Flat(secs))
      ensures FileOn(fs.g, v, sclust, chain, false, sect, bufAt, b, img)
    {
      WrittenThrough(fs.g, fs.vol, chain, sect, bufAt, buf[..], image, fptr, k, csect, s, secs);
      img := Patch(image, fptr, Flat(secs));
    }

    method Transfer(s: dword, secs: seq<Sector>, ghost v: Disk, ghost b: Sector)
      requires Around() && AreSectors(secs) && !dirty
      requires fs.g.database <= s && s + |secs| <= fs.g.sectors && !(s <= fs.winsect < s + |secs|)
      requires v == Overwrite(fs.vol, s, secs) && b == if s <= sect < s + |secs| then secs[sect - s] else buf[..]
      modifies `dirty, buf, fs`disk, fs`vol
      ensures Around() && fs.vol == v && buf[..] == b && !dirty
    {
      fs.WriteSectors(s, secs);
      var inRun := Within(sect, s, |secs|);
      if inRun {
        var data := secs[sect - s];
        forall i | 0 <= i < 512 { buf[i] := data[i]; }
        dirty := false;
        assert buf[..] == data;
      }
    }

    /** Make the buffer stand for sector `s`, which is read unless the file ends before it. */
    method TakeSector(s: dword, ghost k: nat, ghost csect: nat)
      requires Core() && !dirty && k < |chain| && csect < fs.g.csize && AreClusters(fs.g, chain)
      requires s == Base(fs.g, chain[k]) + csect
      requires PositionIs(fs.g.csize, fptr, k, csect) && fptr % 512 == 0 && fptr <= objsize
      modifies `sect, `bufAt, `image, buf
      ensures CoreIf(true) && sect == s != 0 && bufAt == (k, csect)
      ensures |image| == |old(image)| && image[..objsize] == old(image)[..objsize]
    {
      if sect != s && fptr < objsize {
        Refill(s, k, csect);
        MarkDirty();
      } else if sect == s {
        Relabel(k, csect);
        MarkDirty();
      } else {
        SupplySector(s, k, csect);
      }
    }

    ghost method MarkDirty()
      requires Core() && sect != 0
      ensures CoreIf(true)
    {
      assert Opens(0);
      if !dirty { Dirtied(fs.g, fs.vol, chain, sect, bufAt, buf[..], image); }
    }

    /** At the growing edge, whatever is in the buffer is taken for the sector. */
    method SupplySector(s: dword, ghost k: nat, ghost csect: nat)
      requires Core() && !dirty && k < |chain| && csect < fs.g.csize && AreClusters(fs.g, chain)
      requires s == Base(fs.g, chain[k]) + csect
      requires PositionIs(fs.g.csize, fptr, k, csect) && fptr % 512 == 0 && fptr == objsize
      modifies `sect, `bufAt, `image
      ensures CoreIf(true) && sect == s != 0 && bufAt == (k, csect)
      ensures |image| == |old(image)| && image[..objsize] == old(image)[..objsize]
    {
      WillSupply(s, k, csect);
      sect := s;
      bufAt := (k, csect);
      image := Patch(image, fptr, buf[..]);
      Closed(true);
    }

    lemma WillSupply(s: dword, k: nat, csect: nat)
      requires Core() && !dirty && k < |chain| && csect < fs.g.csize && AreClusters(fs.g, chain)
      requires s == Base(fs.g, chain[k]) + csect
      requires PositionIs(fs.g.csize, fptr, k, csect) && fptr % 512 == 0
      ensures Around() && s != 0 && fptr + 512 <= |image|
      ensures FileOn(fs.g, fs.vol, sclust, chain, true, s, (k, csect), buf[..], Patch(image, fptr, buf[..]))
    {
      assert Opens(0);
      BaseBounds(fs.g, chain[k]);
      Replaced(fs.g, fs.vol, chain, false, sect, bufAt, buf[..], image, fptr, k, csect, s, buf[..]);
    }

    /** The end of a pass of f_write: bytes into the buffered sector. */
    method WritePartial(d: seq<byte>) returns (wcnt: nat)
      requires BufferReady() && 0 < |d| && fptr + |d| <= 0xFFFF_FFFF && fptr <= objsize
      modifies `dirty, `fptr, `objsize, `image, buf
      ensures Core() && fptr <= objsize && Positioned()
      ensures 0 < wcnt <= |d| && fptr == old(fptr) + wcnt
      ensures image[..objsize] == Written(old(image)[..old(objsize)], old(fptr), d[..wcnt])
    {
      wcnt := UpToBoundary(|d|);
      CopyIn(d[..wcnt]);
      PatchIsWritten(old(image), objsize, fptr, d[..wcnt]);
      Count(wcnt);
      Advance(fs.g.csize, old(fptr), bufAt.0, bufAt.1, 1, fptr);
    }

    /** The bytes of the buffer from the position on, but no more than `n`. */
    method UpToBoundary(n: nat) returns (cnt: nat)
      requires 0 < n
      ensures 0 < cnt <= n && fptr % 512 + cnt <= 512 && (cnt < n ==> fptr % 512 + cnt == 512)
    {
      cnt := 512 - fptr % 512;
      if cnt > n { cnt := n; }
    }

    method CopyIn(d: seq<byte>)
      requires CoreIf(true) && sect != 0 && PositionIs(fs.g.csize, fptr, bufAt.0, bufAt.1)
      requires fptr % 512 + |d| <= 512
      modifies `dirty, `image, buf
      ensures Core() && bufAt.1 < fs.g.csize
      ensures fptr + |d| <= |old(image)| && image == Patch(old(image), fptr, d)
    {
      WillPatch(d);
      var o := fptr % 512;
      ghost var b := Patch(buf[..], o, d);
      forall i | 0 <= i < |d| { buf[o + i] := d[i]; }
      assert buf[..] == b;
      dirty := true;
      image := Patch(image, fptr, d);
    }

    lemma WillPatch(d: seq<byte>)
      requires CoreIf(true) && sect != 0 && PositionIs(fs.g.csize, fptr, bufAt.0, bufAt.1)
      requires fptr % 512 + |d| <= 512
      ensures Around() && bufAt.1 < fs.g.csize && fptr + |d| <= |image|
      ensures FileOn(fs.g, fs.vol, sclust, chain, true, sect, bufAt, Patch(buf[..], fptr % 512, d),
                     Patch(image, fptr, d))
    {
      assert Opens(0);
      Patched(fs.g, fs.vol, chain, sect, bufAt, buf[..], image, fptr, d);
    }

    /** After `n` bytes were stored at `fptr`. */
    method Count(n: nat)
      requires Core() && fptr <= objsize && fptr + n <= 0xFFFF_FFFF && fptr + n <= |image|
      modifies `fptr, `objsize
      ensures Core() && fptr == old(fptr) + n && fptr <= objsize
      ensures objsize == if fptr > old(objsize) then fptr else old(objsize)
    {
      fptr := fptr + n;
      if fptr > objsize { objsize := fptr; }
    }

    /** Whole sectors of `d` go directly to the disk. */
    method WriteWhole(s: dword, cc: nat, d: seq<byte>, ghost k: nat, ghost csect: nat)
      requires Core() && !dirty && csect + cc <= fs.g.csize && AreClusters(fs.g, chain)
      requires k < |chain| && s == Base(fs.g, chain[k]) + csect
      requires PositionIs(fs.g.csize, fptr, k, csect) && fptr % 512 == 0 && 0 < cc && 512 * cc <= |d|
      requires clustAt == k && clust == chain[k]
      requires fptr + |d| <= 0xFFFF_FFFF && fptr <= objsize
      modifies `dirty, `fptr, `objsize, `image, buf, fs`disk, fs`vol
      ensures Core() && fptr <= objsize && Positioned() && OwnChanges(fs.g, old(fs.vol), fs.vol, chain, chain)
      ensures fptr == old(fptr) + 512 * cc
      ensures image[..objsize] == Written(old(image)[..old(objsize)], old(fptr), d[..512 * cc])
    {
      var secs := SectorsOf(d, cc);
      FlatSectorsOf(d, cc);
      WriteDirect(s, secs, k, csect);
      PatchIsWritten(old(image), objsize, fptr, d[..512 * cc]);
      Advance(fs.g.csize, fptr, k, csect, cc, fptr + 512 * cc);
      Count(512 * cc);
      BoundaryAfter(old(fptr), cc);
    }

    lemma OwnTwice(v0: Disk, v1: Disk, chain0: seq<nat>, chain1: seq<nat>)
      requires OwnChanges(fs.g, v0, v1, chain0, chain1) && OwnChanges(fs.g, v1, fs.vol, chain1, chain)
      ensures OwnChanges(fs.g, v0, fs.vol, chain0, chain)
    {
      OwnChangesTwice(fs.g, v0, v1, fs.vol, chain0, chain1, chain);
    }

    /** f_write at a sector boundary; 0: disk full, 1: corrupt table. */
    method ClusterForWrite(csect: nat, ghost k: nat) returns (s: dword)
      requires Core() && Located(fs.g.csize, chain, fptr, clust, clustAt) && fptr % 512 == 0
      requires fptr == 0 ==> k == 0 && csect == 0
      requires fptr > 0 ==> k == if csect == 0 then clustAt + 1 else clustAt
      modifies `clust, `clustAt, `sclust, `chain, `image
      modifies fs`disk, fs`vol, fs`wflag, fs`winsect, fs.win, fs`freeClst, fs`lastClst, fs`fsiFlag
      ensures Core() && old(image) <= image && OwnChanges(fs.g, old(fs.vol), fs.vol, old(chain), chain)
      ensures s >= 2 ==> clustAt == k < |chain| && clust == chain[k]
      ensures s < 2 ==> Located(fs.g.csize, chain, fptr, clust, clustAt)
      ensures s == 0 ==> DiskFull(fs)
      ensures s == 1 ==> Corrupt(fs)
    {
      if csect == 0 {
        s := FollowForWrite(k);
      } else {
        s := 2;
        Untouched();
      }
    }

    /** At a sector boundary: make the cluster of `fptr` current, stretching the chain if need be,
        write the buffer back and find the sector.  0: disk full, 1: corrupt table. */
    method SeekSectorForWrite() returns (s: dword, csect: nat, ghost k: nat)
      requires Core() && Positioned() && fptr % 512 == 0
      modifies `dirty, `clust, `clustAt, `sclust, `chain, `image
      modifies fs`disk, fs`vol, fs`wflag, fs`winsect, fs.win, fs`freeClst, fs`lastClst, fs`fsiFlag
      ensures Core() && old(image) <= image && OwnChanges(fs.g, old(fs.vol), fs.vol, old(chain), chain)
      ensures s >= 2 ==>
                && !dirty && clustAt == k < |chain| && clust == chain[k] && AreClusters(fs.g, chain)
                && csect < fs.g.csize
                && PositionIs(fs.g.csize, fptr, k, csect) && s == Base(fs.g, chain[k]) + csect
      ensures s < 2 ==> Positioned()
      ensures s == 0 ==> DiskFull(fs)
      ensures s == 1 ==> Corrupt(fs)
    {
      ChainStarts();
      csect, k := Offset();
      s := ClusterForWrite(csect, k);
      if s < 2 { return; }
      ghost var v1 := fs.vol;
      s := BackAndSector(csect);
      OwnTwice(old(fs.vol), v1, old(chain), chain);
    }

    method BackAndSector(csect: nat) returns (s: dword)
      requires Core() && clustAt < |chain| && clust == chain[clustAt] && csect < fs.g.csize
      modifies `dirty, fs`disk, fs`vol
      ensures Core() && !dirty && AreClusters(fs.g, chain) && s == Base(fs.g, chain[clustAt]) + csect >= 2
      ensures OwnChanges(fs.g, old(fs.vol), fs.vol, chain, chain)
    {
      WriteBack();
      ChainStarts();
      s := CurrentSector(csect);
    }

    /** A direct transfer, or nothing but the buffer made ready. */
    method TransferOrTake(s: dword, csect: nat, d: seq<byte>, ghost k: nat) returns (wcnt: nat)
      requires Core() && !dirty && fptr <= objsize && fptr % 512 == 0 && 0 < |d| && fptr + |d| <= 0xFFFF_FFFF
      requires clustAt == k < |chain| && clust == chain[k] && AreClusters(fs.g, chain) && csect < fs.g.csize
      requires PositionIs(fs.g.csize, fptr, k, csect) && s == Base(fs.g, chain[k]) + csect
      modifies `dirty, `fptr, `objsize, `image, `sect, `bufAt, buf, fs`disk, fs`vol
      ensures fptr <= objsize <= |image| && wcnt <= |d| && fptr == old(fptr) + wcnt
      ensures image[..objsize] == Written(old(image)[..old(objsize)], old(fptr), d[..wcnt])
      ensures OwnChanges(fs.g, old(fs.vol), fs.vol, chain, chain)
      ensures if wcnt > 0 then Core() && Positioned() else BufferReady()
    {
      var cc := WholeSectors(|d|, csect);
      if cc > 0 {
        WriteWhole(s, cc, d, k, csect);
        wcnt := 512 * cc;
      } else {
        Untouched();
        NothingWritten(image[..objsize], fptr, d[..0]);
        TakeSector(s, k, csect);
        wcnt := 0;
      }
    }

    /** The buffer has the sector `fptr` is in, and may be changed. */
    ghost predicate BufferReady()
      reads this, buf, fs`disk, fs`vol, fs`winsect, fs`wflag, fs`freeClst, fs.win
    {
      CoreIf(true) && BufferHere()
    }

    /** f_write at a sector boundary; 0: disk full, 1: corrupt table. */
    method WriteAtBoundary(d: seq<byte>) returns (s: dword, wcnt: nat)
      requires Core() && fptr <= objsize && Positioned() && fptr % 512 == 0 && 0 < |d| && fptr + |d| <= 0xFFFF_FFFF
      modifies `dirty, `fptr, `objsize, `image, `sect, `bufAt, `clust, `clustAt, `sclust, `chain, buf
      modifies fs`disk, fs`vol, fs`wflag, fs`winsect, fs.win, fs`freeClst, fs`lastClst, fs`fsiFlag
      ensures fptr <= objsize <= |image| && wcnt <= |d| && fptr == old(fptr) + wcnt
      ensures image[..objsize] == Written(old(image)[..old(objsize)], old(fptr), d[..wcnt])
      ensures OwnChanges(fs.g, old(fs.vol), fs.vol, old(chain), chain)
      ensures if s < 2 || wcnt > 0 then Core() && Positioned() else BufferReady()
      ensures s < 2 ==> wcnt == 0
      ensures s == 0 ==> DiskFull(fs)
      ensures s == 1 ==> Corrupt(fs)
    {
      var csect;
      ghost var k;
      s, csect, k := SeekSectorForWrite();
      assert image[..objsize] == old(image)[..objsize];
      if s < 2 {
        wcnt := 0;
        NothingWritten(image[..objsize], fptr, d[..0]);
        return;
      }
      ghost var v1 := fs.vol;
      wcnt := TransferOrTake(s, csect, d, k);
      OwnTwice(old(fs.vol), v1, old(chain), chain);
    }

    /** One pass of the loop of f_write; nothing written: 0, disk full, or 1, corrupt table. */
    method WriteChunk(d: seq<byte>) returns (s: dword, wcnt: nat)
      requires Core() && fptr <= objsize && Positioned() && 0 < |d| && fptr + |d| <= 0xFFFF_FFFF
      modifies `dirty, `fptr, `objsize, `image, `sect, `bufAt, `clust, `clustAt, `sclust, `chain, buf
      modifies fs`disk, fs`vol, fs`wflag, fs`winsect, fs.win, fs`freeClst, fs`lastClst, fs`fsiFlag
      ensures Core() && fptr <= objsize && Positioned()
      ensures wcnt <= |d| && fptr == old(fptr) + wcnt
      ensures image[..objsize] == Written(old(image)[..old(objsize)], old(fptr), d[..wcnt])
      ensures OwnChanges(fs.g, old(fs.vol), fs.vol, old(chain), chain)
      ensures s >= 2 <==> wcnt > 0
      ensures s == 0 ==> DiskFull(fs)
      ensures s == 1 ==> Corrupt(fs)
    {
      s := 2;
      if fptr % 512 == 0 {
        s, wcnt := WriteAtBoundary(d);
        if s < 2 || wcnt > 0 { return; }
      } else {
        Untouched();
        MarkDirty();
        NothingWritten(image[..objsize], fptr, d[..0]);
        InsideBuffer();
      }
      wcnt := WritePartial(d);
    }

    /** The end of the file stays below 4 GiB. */
    method BytesToWrite(n: dword) returns (btw: nat)
      ensures btw <= n && fptr + btw <= 0xFFFF_FFFF && (btw < n ==> fptr + btw == 0xFFFF_FFFF)
    {
      btw := n;
      if (fptr + btw) % 0x1_0000_0000 < fptr { btw := 0xFFFF_FFFF - fptr; }
    }

    /** f_write */
    method Write(buff: seq<byte>) returns (res: FResult, bw: nat)
      requires Valid() && |buff| <= 0xFFFF_FFFF
      modifies this, buf, fs`disk, fs`vol, fs`wflag, fs`winsect, fs.win, fs`freeClst, fs`lastClst, fs`fsiFlag
      ensures Valid() && OwnChanges(fs.g, old(fs.vol), fs.vol, old(chain), chain)
      ensures home == old(fs.winsect) && known == old(Counted(fs.g, fs.vol, fs.freeClst))
      ensures if old(err) != Ok || !canWrite
              then res == (if old(err) != Ok then old(err) else Denied) && err == old(err) && bw == 0
                   && Abs() == old(Abs())
              else && WriteStep(old(Abs()), Abs(), buff, bw) && old(fptr) + bw <= 0xFFFF_FFFF && res == err
                   && if res == Ok then modified && (bw < |buff| ==> old(fptr) + bw == 0xFFFF_FFFF || DiskFull(fs))
                      else res == IntErr && Corrupt(fs)
    {
      bw := 0;
      Begin();
      if err != Ok { return err, 0; }
      if !canWrite { return Denied, 0; }
      res, bw := Put(buff);
    }

    /** The rest of f_write, for a file that may be written. */
    method Put(buff: seq<byte>) returns (res: FResult, bw: nat)
      requires Core() && err == Ok && fptr <= objsize && Positioned() && |buff| <= 0xFFFF_FFFF
      modifies `dirty, `modified, `err, `fptr, `objsize, `image, `sect, `bufAt, `clust, `clustAt, `sclust, `chain, buf
      modifies fs`disk, fs`vol, fs`wflag, fs`winsect, fs.win, fs`freeClst, fs`lastClst, fs`fsiFlag
      ensures Core() && fptr <= objsize && Positioned() && OwnChanges(fs.g, old(fs.vol), fs.vol, old(chain), chain)
      ensures WriteStep(FlatFile(old(image)[..old(objsize)], old(fptr)), FlatFile(image[..objsize], fptr), buff, bw)
      ensures old(fptr) + bw <= 0xFFFF_FFFF && res == err
      ensures if res == Ok then modified && (bw < |buff| ==> old(fptr) + bw == 0xFFFF_FFFF || DiskFull(fs))
              else res == IntErr && Corrupt(fs)
    {
      var btw := BytesToWrite(|buff|);
      var s;
      ghost var f := FlatFile(image[..objsize], fptr);
      s, bw := WriteAll(buff[..btw]);
      WriteStepOfMore(f, FlatFile(image[..objsize], fptr), buff, btw, bw);
      res := Conclude(s == 1);
    }

    /** The end of f_write. */
    method Conclude(failed: bool) returns (res: FResult)
      requires Core() && err == Ok && fptr <= objsize && Positioned()
      modifies `modified, `err
      ensures Core() && fptr <= objsize && Positioned()
      ensures res == err == if failed then IntErr else Ok
      ensures !failed ==> modified
    {
      if failed {
        err := IntErr;
      } else {
        modified := true;
      }
      res := err;
    }

    /** A pass of f_write, in terms of all that was written. */
    method WriteMore(data: seq<byte>, bw: nat, ghost f: FlatFile, ghost v0: Disk, ghost chain0: seq<nat>)
      returns (s: dword, wcnt: nat)
      requires Core() && fptr <= objsize && Positioned() && bw < |data| && fptr + (|data| - bw) <= 0xFFFF_FFFF
      requires WriteStep(f, FlatFile(image[..objsize], fptr), data, bw) && OwnChanges(fs.g, v0, fs.vol, chain0, chain)
      modifies `dirty, `fptr, `objsize, `image, `sect, `bufAt, `clust, `clustAt, `sclust, `chain, buf
      modifies fs`disk, fs`vol, fs`wflag, fs`winsect, fs.win, fs`freeClst, fs`lastClst, fs`fsiFlag
      ensures Core() && fptr <= objsize && Positioned() && bw + wcnt <= |data|
      ensures WriteStep(f, FlatFile(image[..objsize], fptr), data, bw + wcnt) && fptr == old(fptr) + wcnt
      ensures OwnChanges(fs.g, v0, fs.vol, chain0, chain)
      ensures s >= 2 <==> wcnt > 0
      ensures s == 0 ==> DiskFull(fs)
      ensures s == 1 ==> Corrupt(fs)
    {
      ghost var f1 := FlatFile(image[..objsize], fptr);
      ghost var v1, ch1 := fs.vol, chain;
      s, wcnt := WriteChunk(data[bw..]);
      OwnTwice(v0, v1, chain0, ch1);
      ghost var f2 := FlatFile(image[..objsize], fptr);
      assert WriteStep(f1, f2, data[bw..], wcnt);
      WriteStepTwice(f, f1, f2, data, bw, wcnt);
    }

    /** The loop of f_write.  It stops early if the disk is full, 0, or the table corrupt, 1. */
    method WriteAll(data: seq<byte>) returns (s: dword, bw: nat)
      requires Core() && fptr <= objsize && Positioned() && fptr + |data| <= 0xFFFF_FFFF
      modifies `dirty, `fptr, `objsize, `image, `sect, `bufAt, `clust, `clustAt, `sclust, `chain, buf
      modifies fs`disk, fs`vol, fs`wflag, fs`winsect, fs.win, fs`freeClst, fs`lastClst, fs`fsiFlag
      ensures Core() && fptr <= objsize && Positioned() && bw <= |data|
      ensures WriteStep(FlatFile(old(image)[..old(objsize)], old(fptr)), FlatFile(image[..objsize], fptr), data, bw)
      ensures OwnChanges(fs.g, old(fs.vol), fs.vol, old(chain), chain)
      ensures s >= 2 ==> bw == |data|
      ensures s == 0 ==> DiskFull(fs)
      ensures s == 1 ==> Corrupt(fs)
    {
      ghost var f, v0, chain0 := FlatFile(image[..objsize], fptr), fs.vol, chain;
      NothingWritten(f.data, f.pos, data[..0]);
      Untouched();
      s, bw := 2, 0;
      assert WriteStep(f, FlatFile(image[..objsize], fptr), data, bw);
      while bw < |data|
        invariant Core() && fptr <= objsize && Positioned()
        invariant bw <= |data| && s == 2 && fptr + (|data| - bw) <= 0xFFFF_FFFF
        invariant WriteStep(f, FlatFile(image[..objsize], fptr), data, bw)
        invariant OwnChanges(fs.g, v0, fs.vol, chain0, chain)
      {
        var wcnt;
        s, wcnt := WriteMore(data, bw, f, v0, chain0);
        if s < 2 { return; }
        s, bw := 2, bw + wcnt;
      }
    }

    /** `clust` is a cluster of the file and `fptr` its first byte. */
    ghost predicate AtCluster()
      reads `fptr, `clust, `clustAt, `chain
    {
      clustAt < |chain| && clust == chain[clustAt] && fptr == 512 * Times(fs.g.csize, clustAt)
    }

    lemma ChainCovers(n: nat)
      requires Core()
      ensures |image| == 512 * Times(fs.g.csize, |chain|) && 1 <= fs.g.csize <= 128
      ensures n <= |chain| ==> 512 * Times(fs.g.csize, n) <= |image|
      ensures 512 * Times(fs.g.csize, n) < |image| ==> n < |chain|
    {
      assert Opens(0);
      if n <= |chain| { TimesMono(fs.g.csize, n, |chain|); } else { TimesMono(fs.g.csize, |chain|, n); }
    }

    /** The next cluster, following or, in write mode, stretching the chain; 0: disk full, 1: corrupt table. */
    method FollowForSeek() returns (s: dword)
      requires Core() && clustAt < |chain| && clust == chain[clustAt]
      requires !canWrite ==> clustAt + 1 < |chain|
      modifies `clust, `clustAt, `sclust, `chain, `image
      modifies fs`disk, fs`vol, fs`wflag, fs`winsect, fs.win, fs`freeClst, fs`lastClst, fs`fsiFlag
      ensures Core() && OwnChanges(fs.g, old(fs.vol), fs.vol, old(chain), chain)
      ensures old(chain) <= chain && old(image) <= image
      ensures clustAt < |chain| && clust == chain[clustAt]
      ensures clustAt == if s < 2 then old(clustAt) else old(clustAt) + 1
      ensures s < 2 ==> canWrite && clustAt + 1 == |chain|
      ensures s == 0 ==> DiskFull(fs)
      ensures s == 1 ==> Corrupt(fs)
    {
      if canWrite {
        ChainStarts();
        s := Stretch(clust, clustAt + 1);
      } else {
        Untouched();
        s := NextInChain();
      }
      if s >= 2 {
        Enter(s, clustAt + 1);
      }
    }

    /** The cluster following loop of f_lseek: `ofs` bytes on from the start of a cluster. */
    method Walk(distance: nat) returns (s: dword, ofs: nat)
      requires Core() && AtCluster() && 0 < distance && fptr + distance <= 0xFFFF_FFFF
      requires canWrite || fptr + distance <= objsize
      modifies `fptr, `clust, `clustAt, `sclust, `chain, `image
      modifies fs`disk, fs`vol, fs`wflag, fs`winsect, fs.win, fs`freeClst, fs`lastClst, fs`fsiFlag
      ensures Core() && OwnChanges(fs.g, old(fs.vol), fs.vol, old(chain), chain) && old(image) <= image
      ensures s >= 2 ==> AtCluster() && 0 < ofs <= 512 * fs.g.csize && fptr + ofs == old(fptr) + distance
      ensures s < 2 ==> canWrite && objsize < old(fptr) + distance
      ensures s == 0 ==> DiskFull(fs) && ofs == 0 && fptr == |image| < old(fptr) + distance
                         && Located(fs.g.csize, chain, fptr, clust, clustAt)
      ensures s == 1 ==> Corrupt(fs)
    {
      s, ofs := 2, distance;
      var bcs := fs.g.csize * 512;
      ghost var target, v0, chain0 := fptr + distance, fs.vol, chain;
      Untouched();
      ChainCovers(0);
      while ofs > bcs
        invariant Core() && OwnChanges(fs.g, v0, fs.vol, chain0, chain) && old(image) <= image
        invariant s == 2 && AtCluster() && 0 < ofs && fptr + ofs == target
      {
        s := NextClusterOfSeek(bcs, ofs, v0, chain0);
        if s == 1 { return; }
        if s == 0 {
          ofs := 0;
          break;
        }
        s, ofs := 2, ofs - bcs;
      }
    }

    /** A pass of that loop. */
    method NextClusterOfSeek(bcs: nat, ofs: nat, ghost v0: Disk, ghost chain0: seq<nat>) returns (s: dword)
      requires Core() && AtCluster() && bcs == fs.g.csize * 512 < ofs && fptr + ofs <= 0xFFFF_FFFF
      requires (canWrite || fptr + ofs <= objsize) && OwnChanges(fs.g, v0, fs.vol, chain0, chain)
      modifies `fptr, `clust, `clustAt, `sclust, `chain, `image
      modifies fs`disk, fs`vol, fs`wflag, fs`winsect, fs.win, fs`freeClst, fs`lastClst, fs`fsiFlag
      ensures Core() && OwnChanges(fs.g, v0, fs.vol, chain0, chain) && old(image) <= image
      ensures fptr == old(fptr) + bcs && (s >= 2 ==> AtCluster())
      ensures s < 2 ==> canWrite && objsize < old(fptr) + ofs
      ensures s == 0 ==> DiskFull(fs) && fptr == |image| && Located(fs.g.csize, chain, fptr, clust, clustAt)
      ensures s == 1 ==> Corrupt(fs)
    {
      ghost var v1, ch1 := fs.vol, chain;
      fptr := fptr + bcs;
      ChainCovers(clustAt + 1);
      s := FollowForSeek();
      OwnTwice(v0, v1, chain0, ch1);
      ChainCovers(clustAt + 1);
    }

    /** To the start of the current cluster, if the target is not before it, or to the start of the file. */
    method FromCurrent(target: dword) returns (onward: bool)
      requires Core() && fptr <= objsize && Positioned() && 0 < target && 1 <= fs.g.csize
      modifies `fptr
      ensures Core() && fptr <= target && (if onward then AtCluster() && fptr < target else fptr == 0)
      ensures old(fptr) == 0 ==> !onward
      ensures !onward && old(fptr) > 0 ==> 0 < |chain|
    {
      var ifptr := fptr;
      var bcs := fs.g.csize * 512;
      fptr := 0;
      if ifptr > 0 {
        ClusterStart(fs.g.csize, ifptr, clustAt);
        NotBefore(fs.g.csize, target, clustAt);
      }
      onward := ifptr > 0 && (target - 1) / bcs >= (ifptr - 1) / bcs;
      if onward { fptr := ifptr - 1 - (ifptr - 1) % bcs; }
    }

    /** f_lseek starts from the current cluster if it can, else from the first one; 0: disk full, 1: corrupt table. */
    method StartOfSeek(target: dword) returns (s: dword, ofs: nat)
      requires Core() && fptr <= objsize && Positioned() && 0 < target && (canWrite || target <= objsize)
      modifies `fptr, `clust, `clustAt, `sclust, `chain, `image
      modifies fs`disk, fs`vol, fs`wflag, fs`winsect, fs.win, fs`freeClst, fs`lastClst, fs`fsiFlag
      ensures Core() && OwnChanges(fs.g, old(fs.vol), fs.vol, old(chain), chain) && old(image) <= image
      ensures s >= 2 ==> AtCluster() && 0 < ofs && fptr + ofs == target
      ensures s < 2 ==> fptr == 0 && image == old(image) == [] && objsize == 0
      ensures s == 0 ==> DiskFull(fs)
      ensures s == 1 ==> Corrupt(fs)
    {
      ChainCovers(0);
      var onward := FromCurrent(target);
      ofs := target - fptr;
      if onward {
        s := 2;
        Untouched();
      } else {
        s := FirstCluster();
        if s >= 2 {
          Enter(s, 0);
        }
      }
    }

    /** The end of the way of f_lseek: the position in the cluster and its sector. */
    method Arrive(ofs: nat) returns (nsect: dword, ghost j: nat)
      requires Core() && AtCluster() && 0 < ofs <= 512 * fs.g.csize && fptr + ofs <= 0xFFFF_FFFF
      modifies `fptr
      ensures Core() && fptr == old(fptr) + ofs <= |image| && AreClusters(fs.g, chain)
      ensures Located(fs.g.csize, chain, fptr, clust, clustAt) && clustAt < |chain|
      ensures fptr % 512 != 0 ==> PositionIs(fs.g.csize, fptr, clustAt, j) && nsect == Base(fs.g, chain[clustAt]) + j
    {
      ChainStarts();
      ChainCovers(clustAt + 1);
      nsect, j := 0, 0;
      Within512(Times(fs.g.csize, clustAt), ofs, fs.g.csize);
      fptr := fptr + ofs;
      if ofs % 512 != 0 {
        j := ofs / 512;
        nsect := CurrentSector(ofs / 512);
      }
    }

    /** The way of f_lseek to a position past 0; 0: disk full, 1: corrupt table. */
    method Travel(target: dword) returns (s: dword, nsect: dword, ghost j: nat)
      requires Core() && fptr <= objsize && Positioned() && 0 < target && (canWrite || target <= objsize)
      modifies `fptr, `clust, `clustAt, `sclust, `chain, `image
      modifies fs`disk, fs`vol, fs`wflag, fs`winsect, fs.win, fs`freeClst, fs`lastClst, fs`fsiFlag
      ensures Core() && OwnChanges(fs.g, old(fs.vol), fs.vol, old(chain), chain) && old(image) <= image
      ensures s != 1 ==> fptr <= |image| && Located(fs.g.csize, chain, fptr, clust, clustAt) && AreClusters(fs.g, chain)
      ensures s >= 2 ==> fptr == target
      ensures s < 2 ==> canWrite && objsize < target
      ensures s == 0 ==> DiskFull(fs) && objsize <= fptr < target && fptr == |image| && fptr % 512 == 0
      ensures s == 1 ==> Corrupt(fs)
      ensures s != 1 && fptr % 512 != 0 ==>
                clustAt < |chain| && PositionIs(fs.g.csize, fptr, clustAt, j) && nsect == Base(fs.g, chain[clustAt]) + j
    {
      nsect, j := 0, 0;
      var ofs;
      s, ofs := StartOfSeek(target);
      ChainStarts();
      if s < 2 { return; }
      ghost var v1, ch1 := fs.vol, chain;
      s, ofs := Walk(ofs);
      OwnTwice(old(fs.vol), v1, old(chain), ch1);
      ChainStarts();
      if s < 2 {
        ChainCovers(0);
        WholeClusters(fs.g.csize, |chain|);
        return;
      }
      nsect, j := Arrive(ofs);
    }

    /** f_lseek without a link map. */
    method Seek(offset: dword) returns (res: FResult)
      requires Valid()
      modifies this, buf, fs`disk, fs`vol, fs`wflag, fs`winsect, fs.win, fs`freeClst, fs`lastClst, fs`fsiFlag
      ensures Valid() && OwnChanges(fs.g, old(fs.vol), fs.vol, old(chain), chain)
      ensures home == old(fs.winsect) && known == old(Counted(fs.g, fs.vol, fs.freeClst))
      ensures res == err
      ensures if old(err) != Ok then err == old(err) && Abs() == old(Abs())
              else if res == Ok then
                && SeekStep(old(Abs()), Abs(), offset, canWrite)
                && (canWrite && fptr < offset ==> DiskFull(fs))
                && modified == (old(modified) || objsize > old(objsize))
              else res == IntErr && Corrupt(fs) && Abs().data == old(Abs()).data
    {
      Begin();
      if err != Ok { return err; }
      res := SeekOpen(offset);
    }

    /** The rest of f_lseek, for a file that did not fail. */
    method SeekOpen(offset: dword) returns (res: FResult)
      requires Core() && err == Ok && fptr <= objsize && Positioned()
      modifies `dirty, `modified, `err, `fptr, `objsize, `image, `sect, `bufAt, `clust, `clustAt, `sclust, `chain, buf
      modifies fs`disk, fs`vol, fs`wflag, fs`winsect, fs.win, fs`freeClst, fs`lastClst, fs`fsiFlag
      ensures Core() && OwnChanges(fs.g, old(fs.vol), fs.vol, old(chain), chain) && res == err
      ensures if res == Ok then
                && fptr <= objsize && Positioned()
                && SeekStep(FlatFile(old(image)[..old(objsize)], old(fptr)), FlatFile(image[..objsize], fptr), offset,
                            canWrite)
                && (canWrite && fptr < offset ==> DiskFull(fs))
                && modified == (old(modified) || objsize > old(objsize))
              else res == IntErr && Corrupt(fs) && image[..objsize] == old(image)[..old(objsize)]
    {
      var ofs := offset;
      if ofs > objsize && !canWrite { ofs := objsize; }
      var s := GoTo(ofs);
      if s == 1 { err := IntErr; }
      res := err;
    }

    /** To `ofs`, or as far as the disk allows, 0, or to a corrupt entry of the table, 1. */
    method GoTo(ofs: dword) returns (s: dword)
      requires Core() && fptr <= objsize && Positioned() && (canWrite || ofs <= objsize)
      modifies `dirty, `fptr, `objsize, `modified, `image, `sect, `bufAt, `clust, `clustAt, `sclust, `chain, buf
      modifies fs`disk, fs`vol, fs`wflag, fs`winsect, fs.win, fs`freeClst, fs`lastClst, fs`fsiFlag
      ensures Core() && OwnChanges(fs.g, old(fs.vol), fs.vol, old(chain), chain)
      ensures s == 1 ==> Corrupt(fs) && objsize == old(objsize) && image[..objsize] == old(image)[..objsize]
      ensures s != 1 ==>
                && fptr <= objsize && Positioned() && old(image)[..old(objsize)] <= image[..objsize]
                && objsize == (if fptr > old(objsize) then fptr else old(objsize))
                && modified == (old(modified) || objsize > old(objsize))
      ensures s >= 2 ==> fptr == ofs
      ensures s == 0 ==> DiskFull(fs) && canWrite && old(objsize) <= objsize == fptr < ofs
    {
      var nsect;
      ghost var j;
      s, nsect, j := Approach(ofs);
      PrefixOfSlice(old(image), image, objsize, objsize);
      if s == 1 { return; }
      ghost var v1 := fs.vol;
      Settle(nsect, j);
      OwnTwice(old(fs.vol), v1, old(chain), chain);
      PrefixOfSlice(old(image), image, old(objsize), objsize);
    }

    /** The way of f_lseek to any position. */
    method Approach(target: dword) returns (s: dword, nsect: dword, ghost j: nat)
      requires Core() && fptr <= objsize && Positioned() && (canWrite || target <= objsize)
      modifies `fptr, `clust, `clustAt, `sclust, `chain, `image
      modifies fs`disk, fs`vol, fs`wflag, fs`winsect, fs.win, fs`freeClst, fs`lastClst, fs`fsiFlag
      ensures Core() && OwnChanges(fs.g, old(fs.vol), fs.vol, old(chain), chain) && old(image) <= image
      ensures s != 1 ==> fptr <= |image| && Located(fs.g.csize, chain, fptr, clust, clustAt) && AreClusters(fs.g, chain)
      ensures s >= 2 ==> fptr == target
      ensures s < 2 ==> canWrite && objsize < target
      ensures s == 0 ==> DiskFull(fs) && objsize <= fptr < target && fptr % 512 == 0
      ensures s == 1 ==> Corrupt(fs)
      ensures s != 1 && fptr % 512 != 0 ==>
                clustAt < |chain| && PositionIs(fs.g.csize, fptr, clustAt, j) && nsect == Base(fs.g, chain[clustAt]) + j
    {
      if target > 0 {
        s, nsect, j := Travel(target);
      } else {
        Untouched();
        ChainStarts();
        s, nsect, j := 2, 0, 0;
        fptr := 0;
      }
    }

    /** The end of f_lseek: the new size and the sector of the position. */
    method Settle(nsect: dword, ghost j: nat)
      requires Core() && fptr <= |image| && Located(fs.g.csize, chain, fptr, clust, clustAt)
      requires fptr % 512 != 0 ==>
                 clustAt < |chain| && AreClusters(fs.g, chain)
                 && PositionIs(fs.g.csize, fptr, clustAt, j) && nsect == Base(fs.g, chain[clustAt]) + j
      modifies `objsize, `modified, `dirty, `sect, `bufAt, buf, fs`disk, fs`vol
      ensures Core() && fptr <= objsize && Positioned()
      ensures objsize == (if fptr > old(objsize) then fptr else old(objsize))
              && modified == (old(modified) || objsize > old(objsize))
      ensures OwnChanges(fs.g, old(fs.vol), fs.vol, chain, chain) && (fptr % 512 == 0 ==> fs.vol == old(fs.vol))
    {
      Extend();
      Untouched();
      if fptr % 512 != 0 { LoadSector(nsect, clustAt, j); }
    }

    /** A file that ends before the position is to end there. */
    method Extend()
      requires Core() && fptr <= |image|
      modifies `objsize, `modified
      ensures Core() && fptr <= objsize
      ensures objsize == (if fptr > old(objsize) then fptr else old(objsize))
              && modified == (old(modified) || objsize > old(objsize))
    {
      if fptr > objsize {
        objsize := fptr;
        modified := true;
      }
    }
  }

  lemma SlicesJoin(s: seq<byte>, a: nat, b: nat, c: nat)
    requires a <= b <= c <= |s|
    ensures s[a..b] + s[b..c] == s[a..c]
  {
  }

  lemma SliceOfPrefix(s: seq<byte>, n: nat, a: nat, b: nat)
    requires a <= b <= n <= |s|
    ensures s[..n][a..b] == s[a..b]
  {
  }

  lemma NothingWritten(c: seq<byte>, p: nat, d: seq<byte>)
    requires p <= |c| && d == []
    ensures Written(c, p, d) == c
  {
  }

  lemma PrefixOfSlice(a: seq<byte>, b: seq<byte>, n: nat, m: nat)
    requires a <= b && n <= m <= |b| && n <= |a|
    ensures a[..n] <= b[..m] && (n == m ==> a[..n] == b[..m])
  {
  }
}
