/** Any number of open files on one volume, each with its own buffer, whose calls alternate in any order. */
module OpenFiles {
  import opened Bytes
  import opened Guards
  import opened Sectors
  import opened FatEntries
  import opened FatChains
  import opened FatVolume
  import opened FatAllocation
  import opened FileLayout
  import opened FileBuffer
  import opened FatFile
  import opened FileRun

  /** Clusters taken for one file were no other file's. */
  lemma TakenApart(g: Geometry, d: Disk, d': Disk, chain: seq<nat>, chain': seq<nat>, sclust: nat, other: seq<nat>)
    requires OwnChanges(g, d, d', chain, chain') && Disjoint(chain, other)
    requires g.Valid() && IsDisk(g, d) && Chained(g, FatOf(g, d), sclust, other)
    ensures Disjoint(chain', other) && chain <= chain'
  {
    assert Opens(0);
    forall c | c in chain' ensures c !in other {
      if c in other { InChain(FatOf(g, d), other, c); }
    }
  }

  /** A file keeps its chain... */
  lemma KeepsChain(g: Geometry, d: Disk, d': Disk, chain: seq<nat>, chain': seq<nat>, sclust: nat, other: seq<nat>)
    requires OwnChanges(g, d, d', chain, chain') && Disjoint(chain', other)
    requires g.Valid() && IsDisk(g, d) && IsDisk(g, d') && Chained(g, FatOf(g, d), sclust, other)
    ensures Chained(g, FatOf(g, d'), sclust, other)
  {
    assert Opens(0);
    forall i | 0 <= i < |other| ensures FatOf(g, d')[other[i]] == FatOf(g, d)[other[i]] {
      assert other[i] in other && other[i] !in chain';
    }
  }

  /** ...and its clusters... */
  lemma KeepsCluster(g: Geometry, d: Disk, d': Disk, chain: seq<nat>, chain': seq<nat>, other: seq<nat>, i: nat)
    requires OwnChanges(g, d, d', chain, chain') && Disjoint(chain', other) && i < |other|
    requires HasData(g) && IsDisk(g, d) && IsDisk(g, d') && AreClusters(g, other)
    ensures Cluster(g, d', other[i]) == Cluster(g, d, other[i])
  {
    assert Opens(0);
    assert other[i] in other && other[i] !in chain';
  }

  /** ...also with its dirty buffer in place. */
  lemma KeepsLogical(g: Geometry, d: Disk, d': Disk, dirty: bool, sect: nat, buf: Sector, c: nat)
    requires HasData(g) && IsDisk(g, d) && IsDisk(g, d') && 2 <= c < g.nFatent && |buf| == 512 && sect < g.sectors
    requires Cluster(g, d', c) == Cluster(g, d, c)
    ensures Cluster(g, Logical(d', dirty, sect, buf), c) == Cluster(g, Logical(d, dirty, sect, buf), c)
  {
    BaseBounds(g, c);
    var b := Base(g, c);
    forall i | b <= i < b + g.csize ensures d'[i] == d[i] {
      assert Cluster(g, d', c)[i - b] == Cluster(g, d, c)[i - b];
    }
  }

  lemma KeepsBuffer(g: Geometry, d: Disk, d': Disk, chain: seq<nat>, chain': seq<nat>, other: seq<nat>, dirty: bool,
                    sect: nat, at: (nat, nat), buf: Sector, image: seq<byte>)
    requires OwnChanges(g, d, d', chain, chain') && Disjoint(chain', other)
    requires HasData(g) && IsDisk(g, d) && IsDisk(g, d') && AreClusters(g, other)
    requires Buffered(g, d, other, dirty, sect, at, buf, image)
    ensures Buffered(g, d', other, dirty, sect, at, buf, image)
  {
    var l, l' := Logical(d, dirty, sect, buf), Logical(d', dirty, sect, buf);
    forall i | 0 <= i < |other| ensures Cluster(g, l', other[i]) == Cluster(g, l, other[i]) {
      KeepsCluster(g, d, d', chain, chain', other, i);
      KeepsLogical(g, d, d', dirty, sect, buf, other[i]);
    }
    DataSame(g, l', l, other);
    if sect != 0 {
      KeepsCluster(g, d, d', chain, chain', other, at.0);
      SameSector(g, d, d', other[at.0], at.1);
    }
  }

  lemma SameSector(g: Geometry, d: Disk, d': Disk, c: nat, j: nat)
    requires HasData(g) && IsDisk(g, d) && IsDisk(g, d') && 2 <= c < g.nFatent && j < g.csize
    requires Cluster(g, d', c) == Cluster(g, d, c)
    ensures Base(g, c) + j < g.sectors && d'[Base(g, c) + j] == d[Base(g, c) + j]
  {
    BaseBounds(g, c);
    assert Cluster(g, d', c)[j] == Cluster(g, d, c)[j];
  }

  /** What a call does to its file leaves any other open file as it is: its chain, its buffer, dirty or not, and
      its bytes. */
  lemma OtherStaysOpen(g: Geometry, d: Disk, d': Disk, chain: seq<nat>, chain': seq<nat>, sclust: nat, other: seq<nat>,
                       dirty: bool, sect: nat, at: (nat, nat), buf: Sector, image: seq<byte>)
    requires OwnChanges(g, d, d', chain, chain') && Disjoint(chain, other) && IsDisk(g, d')
    requires FileOn(g, d, sclust, other, dirty, sect, at, buf, image)
    ensures Disjoint(chain', other) && FileOn(g, d', sclust, other, dirty, sect, at, buf, image)
  {
    TakenApart(g, d, d', chain, chain', sclust, other);
    KeepsChain(g, d, d', chain, chain', sclust, other);
    KeepsBuffer(g, d, d', chain, chain', other, dirty, sect, at, buf, image);
  }

  /** File `h` is valid at moment `m`, with sector `at` in the volume window. */
  ghost predicate ValidAt(h: Fil, m: Moment, at: dword)
    reads h, h.buf
  {
    && FileOn(h.fs.g, m.vol, h.sclust, h.chain, h.dirty, h.sect, h.bufAt, h.buf[..], h.image) && h.objsize <= |h.image|
    && WindowAway(h.fs.g, h.chain, at) && (at == h.home || h.fs.g.InFirstFat(at))
    && (h.known ==> Counted(h.fs.g, m.vol, m.free))
    && h.buf.Length == 512 && h.buf != h.fs.win && (h.err == Ok ==> h.fptr <= h.objsize && h.Positioned())
    && m.file == FlatFile(h.image[..h.objsize], h.fptr) && m.chain == h.chain
  }

  lemma IsValidAt(h: Fil)
    requires h.Valid()
    ensures ValidAt(h, Now(h), h.fs.winsect)
  {
    h.Underneath();
  }

  lemma AtIsValid(h: Fil, m: Moment)
    requires ValidAt(h, m, h.fs.winsect) && h.fs.Valid() && m.vol == h.fs.vol && m.free == h.fs.freeClst
    ensures h.Valid() && Now(h) == m
  {
    h.Closed(h.dirty);
  }

  /** A call for another file, whose chain went from `chain` to `chain'`, leaves file `h` valid: the window is where
      it was, or on the FAT, and a free count that was right still is. */
  lemma OtherStays(h: Fil, m: Moment, at: dword, chain: seq<nat>, chain': seq<nat>)
    requires ValidAt(h, m, at) && h.fs.Valid() && Disjoint(chain, h.chain)
    requires h.fs.winsect == at || h.fs.g.InFirstFat(h.fs.winsect)
    requires Counted(h.fs.g, m.vol, m.free) ==> Counted(h.fs.g, h.fs.vol, h.fs.freeClst)
    requires OwnChanges(h.fs.g, m.vol, h.fs.vol, chain, chain')
    ensures h.Valid() && Disjoint(chain', h.chain) && Disjoint(h.chain, chain')
    ensures Now(h) == Moment(m.file, h.fs.vol, m.chain, h.fs.freeClst)
  {
    OtherStaysOpen(h.fs.g, m.vol, h.fs.vol, chain, chain', h.sclust, h.chain, h.dirty, h.sect, h.bufAt, h.buf[..],
                   h.image);
    if h.fs.g.InFirstFat(h.fs.winsect) { FatIsAway(h.fs.g, h.chain, h.fs.winsect); }
    AtIsValid(h, Moment(m.file, h.fs.vol, m.chain, h.fs.freeClst));
  }

  /** Two open files that share nothing but the volume. */
  ghost predicate Apart(f: Fil, h: Fil)
    reads f, h
  {
    f != h && f.buf != h.buf && Disjoint(f.chain, h.chain) && Disjoint(h.chain, f.chain)
  }

  ghost predicate Together(fs: FatFs, files: seq<Fil>)
    reads fs, fs.win, files, set f | f in files :: f.buf
  {
    && (forall i :: 0 <= i < |files| ==> files[i].fs == fs && files[i].Valid())
    && (forall i, j :: 0 <= i < |files| && 0 <= j < |files| && i != j ==> Apart(files[i], files[j]))
  }

  ghost predicate NoneFailed(files: seq<Fil>)
    reads files
  {
    forall i :: 0 <= i < |files| ==> files[i].err == Ok
  }

  ghost function Scene(fs: FatFs, files: seq<Fil>): (s: seq<Moment>)
    requires Together(fs, files)
    reads fs, fs.win, files, set f | f in files :: f.buf
    ensures |s| == |files| && forall i :: 0 <= i < |s| ==> s[i] == Now(files[i])
  {
    seq(|files|, i requires 0 <= i < |files| && files[i].fs == fs && files[i].Valid()
                   reads fs, fs.win, files, set f | f in files :: f.buf => Now(files[i]))
  }

  /** A call for the `k`-th file is a step of that file and leaves the others as they are. */
  ghost predicate SceneStep(g: Geometry, s: seq<Moment>, s': seq<Moment>, k: nat, op: Op, out: Out, canRead: bool,
                            canWrite: bool) {
    && k < |s| == |s'|
    && FlatStep(g, s[k], s'[k], op, out, canRead, canWrite) && VolumeStep(g, s[k], s'[k])
    && forall j :: 0 <= j < |s| && j != k ==> s'[j] == Moment(s[j].file, s'[k].vol, s[j].chain, s'[k].free)
  }

  datatype Call = Call(file: nat, op: Op)

  ghost predicate IsCall(c: Call, n: nat) {
    c.file < n && (c.op.WriteOp? ==> |c.op.d| <= 0xFFFF_FFFF)
  }

  /** No other file is what a call for the `k`-th one changes. */
  ghost predicate Untouched(fs: FatFs, files: seq<Fil>, k: nat) {
    && k < |files|
    && forall j :: 0 <= j < |files| && j != k ==>
        files[j] != files[k] && files[j].buf != files[k].buf && files[j].buf != fs.win
  }

  /** All files but the `k`-th are as they were at the moments `s`. */
  ghost predicate OthersAt(fs: FatFs, files: seq<Fil>, s: seq<Moment>, at: dword, k: nat)
    reads set j | 0 <= j < |files| && j != k :: files[j]
    reads set j | 0 <= j < |files| && j != k :: files[j].buf
  {
    && |s| == |files| && k < |files|
    && (forall j :: 0 <= j < |files| && j != k ==> OtherAt(fs, files[j], s[k], s[j], at))
    && (forall i, j :: 0 <= i < |files| && 0 <= j < |files| && i != k && j != k && i != j ==> Apart(files[i], files[j]))
  }

  ghost predicate OtherAt(fs: FatFs, h: Fil, own: Moment, m: Moment, at: dword)
    reads h, h.buf
  {
    h.fs == fs && ValidAt(h, m, at) && m.vol == own.vol && m.free == own.free && Disjoint(own.chain, h.chain)
  }

  lemma BeforeCall(fs: FatFs, files: seq<Fil>, k: nat)
    requires Together(fs, files) && k < |files|
    ensures OthersAt(fs, files, Scene(fs, files), fs.winsect, k) && Untouched(fs, files, k)
  {
    forall j | 0 <= j < |files| && j != k ensures OtherAt(fs, files[j], Now(files[k]), Now(files[j]), fs.winsect) {
      IsValidAt(files[j]);
      assert Apart(files[k], files[j]);
    }
  }

  lemma AfterCall(fs: FatFs, files: seq<Fil>, s: seq<Moment>, at: dword, k: nat, op: Op, out: Out)
    requires OthersAt(fs, files, s, at, k) && Untouched(fs, files, k) && files[k].fs == fs && files[k].Valid()
    requires fs.Valid() && (fs.winsect == at || fs.g.InFirstFat(fs.winsect)) && VolumeStep(fs.g, s[k], Now(files[k]))
    ensures Together(fs, files)
    ensures var f := files[k];
            FlatStep(fs.g, s[k], Now(f), op, out, f.canRead, f.canWrite) ==>
              SceneStep(fs.g, s, Scene(fs, files), k, op, out, f.canRead, f.canWrite)
  {
    var f := files[k];
    forall j | 0 <= j < |files| && j != k
      ensures files[j].Valid() && Apart(f, files[j]) && Apart(files[j], f)
      ensures Now(files[j]) == Moment(s[j].file, fs.vol, s[j].chain, fs.freeClst)
    {
      OtherStays(files[j], s[j], at, s[k].chain, f.chain);
    }
  }

  method CallOne(fs: FatFs, files: seq<Fil>, c: Call) returns (out: Out)
    requires Together(fs, files) && NoneFailed(files) && IsCall(c, |files|)
    modifies files[c.file], files[c.file].buf
    modifies fs`disk, fs`vol, fs`wflag, fs`winsect, fs.win, fs`freeClst, fs`lastClst, fs`fsiFlag
    ensures Together(fs, files)
    ensures forall j :: 0 <= j < |files| && j != c.file ==> files[j].err == Ok && files[j].chain == old(files[j].chain)
    ensures var f := files[c.file];
            && VolumeStep(fs.g, old(Now(f)), Now(f)) &&
            if f.err == Ok then SceneStep(fs.g, old(Scene(fs, files)), Scene(fs, files), c.file, c.op, out, f.canRead,
                                          f.canWrite)
            else Corrupt(fs)
  {
    var f := files[c.file];
    ghost var s, at := Scene(fs, files), fs.winsect;
    assert s[c.file] == Now(f);
    BeforeCall(fs, files, c.file);
    out := Perform(f, c.op);
    assert VolumeStep(fs.g, s[c.file], Now(f));
    assert f.err == Ok ==> FlatStep(fs.g, s[c.file], Now(f), c.op, out, f.canRead, f.canWrite);
    AfterCall(fs, files, s, at, c.file, c.op, out);
  }

  // ----- all the chains of the volume

  /** The chains of the open files; of a file that has clusters. */
  ghost function ChainsOf(s: seq<Moment>): set<seq<nat>> {
    set i | 0 <= i < |s| && s[i].chain != [] :: s[i].chain
  }

  ghost function ChainsBut(s: seq<Moment>, k: nat): set<seq<nat>> {
    set i | 0 <= i < |s| && i != k && s[i].chain != [] :: s[i].chain
  }

  /** The table of the volume is well formed, with the chains of the open files and others. */
  ghost predicate AllTidy(g: Geometry, vol: Disk, s: seq<Moment>, others: set<seq<nat>>) {
    && g.Valid() && IsDisk(g, vol) && WellFormed(FatOf(g, vol), others + ChainsOf(s))
    && (forall i :: 0 <= i < |s| ==> s[i].chain !in others && forall x :: x in others ==> Disjoint(x, s[i].chain))
    && (forall i, j :: 0 <= i < |s| && 0 <= j < |s| && i != j ==> Disjoint(s[i].chain, s[j].chain))
  }

  /** To one file, the others are files like any on the volume. */
  lemma TidyForOne(g: Geometry, vol: Disk, s: seq<Moment>, others: set<seq<nat>>, k: nat)
    requires AllTidy(g, vol, s, others) && k < |s|
    ensures Tidy(g, vol, s[k].chain, others + ChainsBut(s, k))
  {
    var chain, rest := s[k].chain, others + ChainsBut(s, k);
    ChainsAre(s, k);
    assert rest + Kept(chain) == others + ChainsOf(s);
    forall x | x in ChainsBut(s, k) ensures Disjoint(x, chain) && x != chain {
      var i :| 0 <= i < |s| && i != k && s[i].chain != [] && x == s[i].chain;
      assert x[0] in x && x[0] !in chain;
    }
  }

  lemma ChainsAre(s: seq<Moment>, k: nat)
    requires k < |s|
    ensures ChainsOf(s) == ChainsBut(s, k) + Kept(s[k].chain)
  {
  }

  lemma TidyForAll(g: Geometry, vol: Disk, s: seq<Moment>, s': seq<Moment>, others: set<seq<nat>>, k: nat)
    requires k < |s| == |s'| && Tidy(g, vol, s'[k].chain, others + ChainsBut(s, k))
    requires forall j :: 0 <= j < |s| && j != k ==> s'[j].chain == s[j].chain
    requires forall j :: 0 <= j < |s| && j != k ==> s[j].chain !in others && forall x :: x in others ==>
             Disjoint(x, s[j].chain)
    requires forall i, j :: 0 <= i < |s| && 0 <= j < |s| && i != j ==> Disjoint(s'[i].chain, s'[j].chain)
    ensures AllTidy(g, vol, s', others)
  {
    ChainsAre(s', k);
    assert ChainsBut(s', k) == ChainsBut(s, k);
    assert others + ChainsBut(s, k) + Kept(s'[k].chain) == others + ChainsOf(s');
  }

  /** f_open of one more file, whose clusters are its own. */
  method OpenOneMore(fs: FatFs, files: seq<Fil>, canRead: bool, canWrite: bool, start: dword, size: dword,
                     ghost clusters: seq<nat>) returns (f: Fil)
    requires Together(fs, files) && HasData(fs.g) && fs.Valid() && WindowAway(fs.g, clusters, fs.winsect)
    requires if start == 0 then clusters == []
             else clusters != [] && IsChain(fs.Fat(), clusters) && clusters[0] == start
    requires size <= 512 * Times(fs.g.csize, |clusters|)
    requires forall i :: 0 <= i < |files| ==> Disjoint(files[i].chain, clusters) && Disjoint(clusters, files[i].chain)
    ensures fresh(f) && fresh(f.buf) && f.chain == clusters && f.err == Ok && Together(fs, files + [f])
  {
    f := new Fil.Open(fs, canRead, canWrite, start, size, clusters);
    forall i | 0 <= i < |files| ensures Apart(files[i], f) && Apart(f, files[i]) {
      assert files[i].buf != f.buf;
    }
  }

  /** Calls for the open files in any order, until one meets a corrupt table.  Each behaves as a call for a flat file
      of its own, with the other files as they were; on a tidy volume all go through and leave it tidy. */
  method Interleave(fs: FatFs, files: seq<Fil>, calls: seq<Call>, ghost others: set<seq<nat>>)
    returns (outs: seq<Out>, ghost ss: seq<seq<Moment>>)
    requires Together(fs, files) && NoneFailed(files) && forall i :: 0 <= i < |calls| ==> IsCall(calls[i], |files|)
    modifies files, set f | f in files :: f.buf
    modifies fs`disk, fs`vol, fs`wflag, fs`winsect, fs.win, fs`freeClst, fs`lastClst, fs`fsiFlag
    ensures Together(fs, files) && |outs| <= |calls| && |ss| == |outs| + 1 && ss[0] == old(Scene(fs, files))
    ensures forall i :: 0 <= i < |outs| ==> CallStep(fs.g, files, ss[i], ss[i + 1], calls[i], outs[i])
    ensures if NoneFailed(files) then |outs| == |calls| && ss[|outs|] == Scene(fs, files) else Corrupt(fs)
    ensures AllTidy(fs.g, old(fs.vol), old(Scene(fs, files)), others) ==>
              NoneFailed(files) && AllTidy(fs.g, fs.vol, Scene(fs, files), others)
  {
    outs, ss := [], [Scene(fs, files)];
    ghost var tidy := AllTidy(fs.g, fs.vol, Scene(fs, files), others);
    while |outs| < |calls|
      invariant Together(fs, files) && NoneFailed(files) && |outs| <= |calls| && |ss| == |outs| + 1
                && ss[0] == old(Scene(fs, files))
      invariant forall i :: 0 <= i < |outs| ==> CallStep(fs.g, files, ss[i], ss[i + 1], calls[i], outs[i])
      invariant ss[|outs|] == Scene(fs, files) && (tidy ==> AllTidy(fs.g, fs.vol, Scene(fs, files), others))
      decreases |calls| - |outs|
    {
      var c := calls[|outs|];
      var out := CallTidily(fs, files, c, others);
      if files[c.file].err != Ok { return; }
      outs, ss := outs + [out], ss + [Scene(fs, files)];
    }
  }

  ghost predicate CallStep(g: Geometry, files: seq<Fil>, s: seq<Moment>, s': seq<Moment>, c: Call, out: Out) {
    c.file < |files| && SceneStep(g, s, s', c.file, c.op, out, files[c.file].canRead, files[c.file].canWrite)
  }

  method CallTidily(fs: FatFs, files: seq<Fil>, c: Call, ghost others: set<seq<nat>>) returns (out: Out)
    requires Together(fs, files) && NoneFailed(files) && IsCall(c, |files|)
    modifies files[c.file], files[c.file].buf
    modifies fs`disk, fs`vol, fs`wflag, fs`winsect, fs.win, fs`freeClst, fs`lastClst, fs`fsiFlag
    ensures Together(fs, files)
    ensures if files[c.file].err == Ok
            then NoneFailed(files) && CallStep(fs.g, files, old(Scene(fs, files)), Scene(fs, files), c, out)
                else Corrupt(fs)
    ensures AllTidy(fs.g, old(fs.vol), old(Scene(fs, files)), others) ==>
              files[c.file].err == Ok && AllTidy(fs.g, fs.vol, Scene(fs, files), others)
  {
    ghost var d, s := fs.vol, Scene(fs, files);
    out := CallOne(fs, files, c);
    if AllTidy(fs.g, d, s, others) { StaysAllTidy(fs, files, d, s, others, c.file); }
  }

  lemma StaysAllTidy(fs: FatFs, files: seq<Fil>, d: Disk, s: seq<Moment>, others: set<seq<nat>>, k: nat)
    requires Together(fs, files) && |s| == |files| && k < |files| && s[k].vol == d && AllTidy(fs.g, d, s, others)
    requires VolumeStep(fs.g, s[k], Now(files[k]))
    requires forall j :: 0 <= j < |files| && j != k ==> files[j].chain == s[j].chain
    ensures AllTidy(fs.g, fs.vol, Scene(fs, files), others) && !Corrupt(fs)
  {
    var f, s' := files[k], Scene(fs, files);
    f.Underneath();
    forall i, j | 0 <= i < |files| && 0 <= j < |files| && i != j ensures Disjoint(s'[i].chain, s'[j].chain) {
      assert Apart(files[i], files[j]);
    }
    AllStayTidy(fs.g, d, fs.vol, s, s', others, k, f.sclust);
  }

  lemma AllStayTidy(g: Geometry, d: Disk, d': Disk, s: seq<Moment>, s': seq<Moment>, others: set<seq<nat>>, k: nat,
                    sclust: nat)
    requires k < |s| == |s'| && AllTidy(g, d, s, others) && OwnChanges(g, d, d', s[k].chain, s'[k].chain)
    requires IsDisk(g, d') && Chained(g, FatOf(g, d'), sclust, s'[k].chain)
    requires forall j :: 0 <= j < |s| && j != k ==> s'[j].chain == s[j].chain
    requires forall i, j :: 0 <= i < |s| && 0 <= j < |s| && i != j ==> Disjoint(s'[i].chain, s'[j].chain)
    ensures AllTidy(g, d', s', others) && !HasCorrupt(FatOf(g, d'))
  {
    TidyForOne(g, d, s, others, k);
    StaysTidy(g, d, d', sclust, s[k].chain, s'[k].chain, others + ChainsBut(s, k));
    TidyForAll(g, d', s, s', others, k);
  }
}
