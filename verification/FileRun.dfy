/** Whole sessions on one open file: any sequence of f_read, f_write and f_lseek. */
module FileRun {
  import opened Bytes
  import opened Guards
  import opened FatEntries
  import opened FatChains
  import opened FatVolume
  import opened FatAllocation
  import opened FileLayout
  import opened FileBuffer
  import opened FatFile

  datatype Op = ReadOp(n: dword) | WriteOp(d: seq<byte>) | SeekOp(ofs: dword)
  datatype Out = Out(res: FResult, data: seq<byte>, count: nat)

  /** The file as its user sees it, and the volume with the file's clusters and the free count. */
  datatype Moment = Moment(file: FlatFile, vol: Disk, chain: seq<nat>, free: dword)

  ghost function Now(f: Fil): Moment
    requires f.Valid()
    reads f, f.buf, f.fs, f.fs.win
  {
    Moment(f.Abs(), f.fs.vol, f.chain, f.fs.freeClst)
  }

  /** What one call does to the flat file and reports.  Less than asked for is stored, or reached, only
      if the disk is full, or the file as long as a file can be. */
  ghost predicate FlatStep(g: Geometry, m: Moment, m': Moment, op: Op, out: Out, canRead: bool, canWrite: bool) {
    match op
    case ReadOp(n) =>
      if !canRead then out.res == Denied && m'.file == m.file
      else out.res == Ok && ReadStep(m.file, m'.file, n, out.data)
    case WriteOp(d) =>
      if !canWrite then out.res == Denied && m'.file == m.file && out.count == 0
      else && out.res == Ok && WriteStep(m.file, m'.file, d, out.count) && m'.file.pos <= 0xFFFF_FFFF
           && (out.count < |d| ==> m'.file.pos == 0xFFFF_FFFF || Full(g, m'.vol, m'.free))
    case SeekOp(ofs) =>
      && out.res == Ok && SeekStep(m.file, m'.file, ofs, canWrite)
      && (canWrite && m'.file.pos < ofs ==> Full(g, m'.vol, m'.free))
  }

  /** And what it does to the volume: nothing outside this file and clusters that were free. */
  ghost predicate VolumeStep(g: Geometry, m: Moment, m': Moment) {
    OwnChanges(g, m.vol, m'.vol, m.chain, m'.chain) && (Counted(g, m.vol, m.free) ==> Counted(g, m'.vol, m'.free))
  }

  /** `ms` is a history of the file and the volume that explains the outputs. */
  ghost predicate Explains(g: Geometry, ms: seq<Moment>, ops: seq<Op>, outs: seq<Out>, canRead: bool, canWrite: bool) {
    && |outs| <= |ops| && |ms| == |outs| + 1
    && (forall i :: 0 <= i < |outs| ==> FlatStep(g, ms[i], ms[i + 1], ops[i], outs[i], canRead, canWrite))
    && (forall i :: 0 <= i < |outs| ==> VolumeStep(g, ms[i], ms[i + 1]))
  }

  method Perform(f: Fil, op: Op) returns (out: Out)
    requires f.Valid() && f.err == Ok && (op.WriteOp? ==> |op.d| <= 0xFFFF_FFFF)
    modifies f, f.buf, f.fs`disk, f.fs`vol, f.fs`wflag, f.fs`winsect, f.fs.win, f.fs`freeClst, f.fs`lastClst,
             f.fs`fsiFlag
    ensures f.Valid() && VolumeStep(f.fs.g, old(Now(f)), Now(f))
    ensures f.fs.Valid() && (f.fs.winsect == old(f.fs.winsect) || f.fs.g.InFirstFat(f.fs.winsect))
    ensures if f.err == Ok then FlatStep(f.fs.g, old(Now(f)), Now(f), op, out, f.canRead, f.canWrite) else Corrupt(f.fs)
  {
    match op {
      case ReadOp(n) =>
        var res, data := f.Read(n);
        out := Out(res, data, |data|);
      case WriteOp(d) =>
        var res, bw := f.Write(d);
        out := Out(res, [], bw);
      case SeekOp(ofs) =>
        var res := f.Seek(ofs);
        out := Out(res, [], 0);
    }
    f.Underneath();
  }

  /** The table of the volume is well formed, with this file's chain and others. */
  ghost predicate Tidy(g: Geometry, vol: Disk, chain: seq<nat>, others: set<seq<nat>>) {
    && g.Valid() && IsDisk(g, vol) && chain !in others
    && WellFormed(FatOf(g, vol), others + Kept(chain)) && forall x :: x in others ==> Disjoint(x, chain)
  }

  /** The other chains do not have the file's clusters. */
  lemma OthersApart(g: Geometry, d: Disk, d': Disk, chain: seq<nat>, chain': seq<nat>, others: set<seq<nat>>)
    requires Tidy(g, d, chain, others) && OwnChanges(g, d, d', chain, chain')
    ensures chain' !in others && forall x :: x in others ==> Disjoint(x, chain')
  {
    assert Opens(0);
    forall x, c | x in others && c in x ensures c !in chain' {
      InChain(FatOf(g, d), x, c);
    }
  }

  /** A file that had no cluster has some. */
  lemma FirstClusters(g: Geometry, d: Disk, d': Disk, sclust: nat, chain': seq<nat>, others: set<seq<nat>>)
    requires Tidy(g, d, [], others) && OwnChanges(g, d, d', [], chain')
    requires IsDisk(g, d') && Chained(g, FatOf(g, d'), sclust, chain') && chain' != []
    ensures WellFormed(FatOf(g, d'), others + {chain'})
  {
    assert Opens(0);
    AddedIsWellFormed(FatOf(g, d), FatOf(g, d'), others, chain');
  }

  lemma NoClusters(g: Geometry, d: Disk, d': Disk)
    requires OwnChanges(g, d, d', [], [])
    ensures g.Valid() && IsDisk(g, d) && IsDisk(g, d') && FatOf(g, d') == FatOf(g, d)
  {
    assert Opens(0);
  }

  lemma LongerOnly(g: Geometry, d: Disk, d': Disk, chain: seq<nat>, chain': seq<nat>)
    requires OwnChanges(g, d, d', chain, chain')
    ensures chain <= chain'
  {
    assert Opens(0);
  }

  /** Whatever is done to a file leaves a tidy volume tidy. */
  lemma StaysTidy(g: Geometry, d: Disk, d': Disk, sclust: nat, chain: seq<nat>, chain': seq<nat>, others: set<seq<nat>>)
    requires Tidy(g, d, chain, others) && OwnChanges(g, d, d', chain, chain')
    requires IsDisk(g, d') && Chained(g, FatOf(g, d'), sclust, chain')
    ensures Tidy(g, d', chain', others) && !HasCorrupt(FatOf(g, d'))
  {
    LongerOnly(g, d, d', chain, chain');
    OthersApart(g, d, d', chain, chain', others);
    if chain != [] {
      OthersKeepChains(g, d, d', others + {chain}, sclust, chain, chain');
      assert others + {chain} - {chain} + {chain'} == others + Kept(chain');
    } else if chain' != [] {
      FirstClusters(g, d, d', sclust, chain', others);
    } else {
      NoClusters(g, d, d');
    }
    NotCorrupt(FatOf(g, d'), others + Kept(chain'));
  }

  /** Any session behaves as a flat file, as long as the table of the volume is not corrupt, and
      changes nothing on the volume but this file and clusters that were free.  On a tidy volume it
      goes through to its end and leaves the volume tidy. */
  method Session(f: Fil, ops: seq<Op>, ghost others: set<seq<nat>>) returns (outs: seq<Out>, ghost ms: seq<Moment>)
    requires f.Valid() && f.err == Ok && forall i :: 0 <= i < |ops| && ops[i].WriteOp? ==> |ops[i].d| <= 0xFFFF_FFFF
    modifies f, f.buf, f.fs`disk, f.fs`vol, f.fs`wflag, f.fs`winsect, f.fs.win, f.fs`freeClst, f.fs`lastClst,
             f.fs`fsiFlag
    ensures f.Valid() && VolumeStep(f.fs.g, old(Now(f)), Now(f))
    ensures Explains(f.fs.g, ms, ops, outs, f.canRead, f.canWrite) && ms[0] == old(Now(f))
    ensures if f.err == Ok then |outs| == |ops| && ms[|outs|] == Now(f) else Corrupt(f.fs)
    ensures old(Tidy(f.fs.g, f.fs.vol, f.chain, others)) ==> f.err == Ok && Tidy(f.fs.g, f.fs.vol, f.chain, others)
  {
    outs, ms := [], [Now(f)];
    f.Untouched();
    f.Underneath();
    var i := 0;
    while i < |ops|
      invariant f.Valid() && VolumeStep(f.fs.g, old(Now(f)), Now(f))
      invariant i == |outs| <= |ops| && Explains(f.fs.g, ms, ops, outs, f.canRead, f.canWrite) && ms[0] == old(Now(f))
      invariant f.err == Ok && ms[i] == Now(f)
    {
      ghost var m := Now(f);
      var out := Perform(f, ops[i]);
      VolumeStepTwice(f.fs.g, ms[0], m, Now(f));
      if f.err != Ok { break; }
      Extend(f.fs.g, ms, ops, outs, f.canRead, f.canWrite, Now(f), out);
      outs, ms, i := outs + [out], ms + [Now(f)], i + 1;
    }
    f.Underneath();
    if old(Tidy(f.fs.g, f.fs.vol, f.chain, others)) {
      StaysTidy(f.fs.g, old(f.fs.vol), f.fs.vol, f.sclust, old(f.chain), f.chain, others);
    }
  }

  lemma VolumeStepTwice(g: Geometry, m: Moment, m1: Moment, m2: Moment)
    requires VolumeStep(g, m, m1) && VolumeStep(g, m1, m2)
    ensures VolumeStep(g, m, m2)
  {
    OwnChangesTwice(g, m.vol, m1.vol, m2.vol, m.chain, m1.chain, m2.chain);
  }

  lemma Extend(g: Geometry, ms: seq<Moment>, ops: seq<Op>, outs: seq<Out>, canRead: bool, canWrite: bool, m: Moment,
               out: Out)
    requires Explains(g, ms, ops, outs, canRead, canWrite) && |outs| < |ops|
    requires FlatStep(g, ms[|outs|], m, ops[|outs|], out, canRead, canWrite) && VolumeStep(g, ms[|outs|], m)
    ensures Explains(g, ms + [m], ops, outs + [out], canRead, canWrite)
  {
  }
}
