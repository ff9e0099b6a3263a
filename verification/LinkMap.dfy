/** The fast-seek link map of fatfs/ff.c: f_lseek(CREATE_LINKMAP) lists the fragments of a file's
    chain, and clmt_clust finds the cluster of an offset in that list. */
module LinkMap {
  import opened Bytes
  import opened FatEntries
  import opened FatChains
  import opened FatVolume

  /** A fragment: how many consecutive clusters, from which. */
  datatype Run = Run(count: nat, start: nat)

  /** Length of the first fragment of a chain. */
  function RunLength(chain: seq<nat>): (n: nat)
    requires chain != []
    ensures 1 <= n <= |chain|
  {
    if |chain| >= 2 && chain[1] == chain[0] + 1 then 1 + RunLength(chain[1..]) else 1
  }

  function Runs(chain: seq<nat>): seq<Run> {
    if chain == [] then [] else [Run(RunLength(chain), chain[0])] + Runs(chain[RunLength(chain)..])
  }

  /** A fragment is consecutive clusters... */
  lemma {:induction false} RunIsConsecutive(chain: seq<nat>, i: nat)
    requires chain != [] && i < RunLength(chain)
    ensures chain[i] == chain[0] + i
  {
    if i > 0 { RunIsConsecutive(chain[1..], i - 1); }
  }

  /** ...and as long as it can be. */
  lemma {:induction false} RunIsMaximal(chain: seq<nat>, n: nat)
    requires chain != [] && 1 <= n <= |chain|
    requires forall i :: 0 <= i < n ==> chain[i] == chain[0] + i
    requires n < |chain| ==> chain[n] != chain[0] + n
    ensures n == RunLength(chain)
  {
    if n == 1 {
    } else {
      var rest := chain[1..];
      assert chain[1] == chain[0] + 1;
      forall i | 0 <= i < n - 1 ensures rest[i] == rest[0] + i { assert chain[i + 1] == chain[0] + (i + 1); }
      assert n < |chain| ==> rest[n - 1] == chain[n];
      RunIsMaximal(rest, n - 1);
    }
  }

  /** What one finds for cluster number `k` of a file by going through its fragments. */
  ghost function Lookup(runs: seq<Run>, k: nat): nat {
    if runs == [] then 0
    else if k < runs[0].count then runs[0].start + k
    else Lookup(runs[1..], k - runs[0].count)
  }

  /** Looking up in the fragments of a chain is walking the chain. */
  lemma {:induction false} LookupIsWalk(chain: seq<nat>, k: nat)
    ensures Lookup(Runs(chain), k) == if k < |chain| then chain[k] else 0
    decreases |chain|
  {
    if chain != [] {
      var n := RunLength(chain);
      var rest := Runs(chain[n..]);
      assert Runs(chain) == [Run(n, chain[0])] + rest;
      LookupStep(Run(n, chain[0]), rest, k);
      if k < n { RunIsConsecutive(chain, k); } else { LookupIsWalk(chain[n..], k - n); }
    }
  }

  lemma LookupStep(r: Run, rest: seq<Run>, k: nat)
    ensures Lookup([r] + rest, k) == if k < r.count then r.start + k else Lookup(rest, k - r.count)
  {
    assert ([r] + rest)[1..] == rest;
  }

  /** A table in an array behind its length. */
  ghost predicate Tabled(tbl: array<dword>, at: nat, runs: seq<Run>)
    reads tbl
  {
    && at + 2 * |runs| < tbl.Length && tbl[at + 2 * |runs|] == 0
    && Stored(tbl, at, runs, |runs|)
  }

  /** The first `n` fragments are in the table. */
  ghost predicate Stored(tbl: array<dword>, at: nat, runs: seq<Run>, n: nat)
    requires n <= |runs|
    reads tbl
  {
    forall i :: 0 <= i < n ==> Pair(tbl, at + 2 * i, runs[i])
  }

  ghost predicate Pair(tbl: array<dword>, at: nat, r: Run)
    reads tbl
  {
    at + 1 < tbl.Length && tbl[at] == r.count && tbl[at + 1] == r.start && r.count != 0
  }

  /** clmt_clust: the cluster at offset `ofs`, or 0. */
  method ClmtClust(tbl: array<dword>, ofs: nat, csize: nat, ghost chain: seq<nat>) returns (cl: nat)
    requires 0 < csize && Tabled(tbl, 1, Runs(chain))
    ensures cl == if ofs / 512 / csize < |chain| then chain[ofs / 512 / csize] else 0
  {
    var k := ofs / 512 / csize;
    LookupIsWalk(chain, k);
    cl := Find(tbl, k, Runs(chain));
  }

  method Find(tbl: array<dword>, k: nat, ghost runs: seq<Run>) returns (cl: nat)
    requires Tabled(tbl, 1, runs)
    ensures cl == Lookup(runs, k)
  {
    var t: nat, c: nat := 1, k;
    ghost var i := 0;
    while true
      invariant 0 <= i <= |runs| && t == 1 + 2 * i && Lookup(runs, k) == Lookup(runs[i..], c)
      decreases |runs| - i
    {
      var ncl := tbl[t];
      assert i < |runs| ==> Pair(tbl, t, runs[i]);
      if ncl == 0 {
        assert i == |runs|;
        return 0;
      }
      assert i < |runs| && runs[i..][1..] == runs[i + 1..];
      if c < ncl { break; }
      c := c - ncl;
      t, i := t + 2, i + 1;
    }
    cl := tbl[t + 1];
    cl := c + cl;
  }

  lemma {:induction false} FreedSoFar(fat: FatMap, chain: seq<nat>, k: nat)
    requires IsChain(fat, chain) && k <= |chain|
    ensures FreeCount(Cut(fat, chain[..k], 0, 0)) == FreeCount(fat) + k
  {
    if k == 0 {
      assert Cut(fat, chain[..0], 0, 0) == fat;
    } else {
      FreedSoFar(fat, chain, k - 1);
      CutStep(fat, chain, k - 1);
      FreeFromUpdate(Cut(fat, chain[..k - 1], 0, 0), 2, chain[k - 1], 0);
    }
  }

  /** A chain has no more clusters than there are. */
  lemma ChainIsShort(fat: FatMap, chain: seq<nat>)
    requires IsChain(fat, chain)
    ensures |chain| < |fat|
  {
    FreedSoFar(fat, chain, |chain|);
    FreeFromBound(Cut(fat, chain[..|chain|], 0, 0), 2);
  }

  lemma {:induction false} FewRuns(chain: seq<nat>)
    ensures |Runs(chain)| <= |chain|
    decreases |chain|
  {
    if chain != [] { FewRuns(chain[RunLength(chain)..]); }
  }

  /** The end mark of a chain is the number after its last cluster, so that it reads like a link. */
  ghost predicate EndLooksLikeLink(fat: FatMap, chain: seq<nat>)
    requires IsChain(fat, chain)
  {
    fat[chain[|chain| - 1]] == chain[|chain| - 1] + 1
  }

  /** Such a table, of a FAT12 volume of two clusters: the end mark is the least number that is no
      cluster's. */
  lemma EndMarkExample() returns (fat: FatMap, chain: seq<nat>)
    ensures fat == [0xFF8, 0xFFF, 0, 4] && chain == [3] && IsChain(fat, chain) && EndLooksLikeLink(fat, chain)
  {
    fat, chain := [0xFF8, 0xFFF, 0, 4], [3];
  }

  /** create_chain, and f_mkfs for the root directory of FAT32, write an end mark that no link looks like. */
  lemma WrittenMarkIsNoLink(g: Geometry, fat: FatMap, chain: seq<nat>)
    requires g.Valid() && |fat| == g.nFatent && IsChain(fat, chain)
    requires fat[chain[|chain| - 1]] == Masked(g.ty, EOC) || (g.ty.Fat32? && fat[chain[|chain| - 1]] == 0x0FFF_FFFF)
    ensures !EndLooksLikeLink(fat, chain)
  {
    assert IsCluster(fat, chain[|chain| - 1]);
  }

  /** In general: it must be the last cluster's own successor, and the last cluster the last of all. */
  lemma EndMarkAtEnd(fat: FatMap, chain: seq<nat>)
    requires IsChain(fat, chain)
    ensures EndLooksLikeLink(fat, chain) <==> chain[|chain| - 1] == |fat| - 1 && fat[|fat| - 1] == |fat|
  {
  }

  datatype MapResult = MapOk | NotEnoughCore | MapIntErr

  /** The inner loop: the fragment that starts with cluster `pos` of the file. */
  method Fragment(fs: FatFs, start: dword, ghost chain: seq<nat>, ghost pos: nat)
    returns (ok: bool, ncl: nat, cl: dword)
    requires fs.Valid() && IsChain(fs.Fat(), chain) && pos < |chain| && start == chain[pos]
    modifies fs`disk, fs`wflag, fs`winsect, fs.win
    ensures fs.Valid()
    ensures ok ==> ncl == RunLength(chain[pos..])
                   && if pos + ncl < |chain| then cl == chain[pos + ncl] else cl >= fs.g.nFatent
    ensures !ok ==> EndLooksLikeLink(fs.Fat(), chain)
    ensures ok && pos + ncl == |chain| ==> !EndLooksLikeLink(fs.Fat(), chain)
  {
    ghost var fat := fs.Fat();
    cl, ncl := start, 0;
    while true
      invariant fs.Valid() && fs.Fat() == fat && pos + ncl <= |chain| && cl == start + ncl
      invariant if pos + ncl < |chain| then cl == chain[pos + ncl]
                else cl == fs.g.nFatent && EndLooksLikeLink(fat, chain)
      invariant forall i :: 0 <= i < ncl ==> chain[pos..][i] == start + i
      decreases |chain| - ncl
    {
      var pcl := cl;
      assert pos + ncl + 1 < |chain| ==> fat[chain[pos + ncl]] == chain[pos + ncl + 1];
      assert pos + ncl < |chain| ==> IsCluster(fat, chain[pos + ncl]);
      cl := fs.GetFat(cl);
      if cl <= 1 { return false, ncl, cl; }
      ncl := ncl + 1;
      if cl != pcl + 1 { break; }
    }
    ok := true;
    RunIsMaximal(chain[pos..], ncl);
  }

  /** The table stays far below 2^32 items. */
  lemma MapIsShort(ty: FatType, fat: FatMap, chain: seq<nat>, runs: seq<Run>)
    requires IsChain(fat, chain) && runs == Runs(chain) && |fat| <= MaxClusters(ty) + 2
    ensures 2 * |runs| + 2 < 0x1_0000_0000 && |chain| < 0x1_0000_0000
    ensures forall i :: 0 <= i < |chain| ==> 2 <= chain[i] < |fat|
  {
    FewRuns(chain);
    ChainIsShort(fat, chain);
    forall i | 0 <= i < |chain| ensures 2 <= chain[i] < |fat| { assert IsCluster(fat, chain[i]); }
  }

  /** Clusters `pos` and on of the file are still to be listed, and fragments `done` and on. */
  ghost predicate Listed(chain: seq<nat>, runs: seq<Run>, pos: nat, done: nat, tbl: array<dword>, tlen: nat, ulen: nat,
                         t: nat)
    reads tbl
  {
    && pos <= |chain| && done <= |runs| && runs[done..] == Runs(chain[pos..])
    && ulen == 2 * done + 2 && tlen <= tbl.Length
    && (ulen <= tlen ==> t == 1 + 2 * done && Stored(tbl, 1, runs, done))
  }

  /** A pass of the outer loop. */
  method MapFragment(fs: FatFs, tbl: array<dword>, tlen: nat, cl: dword, ulen: nat, t: nat,
                     ghost chain: seq<nat>, ghost runs: seq<Run>, ghost pos: nat, ghost done: nat)
    returns (ok: bool, cl': dword, ulen': nat, t': nat, ghost pos': nat)
    requires fs.Valid() && IsChain(fs.Fat(), chain) && pos < |chain| && cl == chain[pos]
    requires Listed(chain, runs, pos, done, tbl, tlen, ulen, t) && runs == Runs(chain)
    modifies tbl, fs`disk, fs`wflag, fs`winsect, fs.win
    ensures fs.Valid() && (tbl.Length > 0 ==> tbl[0] == old(tbl[0]))
    ensures !ok ==> EndLooksLikeLink(fs.Fat(), chain)
    ensures ok ==> Listed(chain, runs, pos', done + 1, tbl, tlen, ulen', t') && pos < pos' && ulen' < 0x1_0000_0000
    ensures ok && pos' < |chain| ==> cl' == chain[pos'] < fs.g.nFatent
    ensures ok && pos' == |chain| ==> cl' >= fs.g.nFatent && !EndLooksLikeLink(fs.Fat(), chain)
  {
    var ncl;
    ulen', t', pos' := ulen, t, pos;
    MapIsShort(fs.g.ty, fs.Fat(), chain, runs);
    ok, ncl, cl' := Fragment(fs, cl, chain, pos);
    if ok { ulen', t', pos' := Record(tbl, tlen, cl, ncl, ulen, t, chain, runs, pos, done); }
  }

  /** A fragment is counted and, if there is room, stored. */
  method Record(tbl: array<dword>, tlen: nat, cl: dword, ncl: nat, ulen: nat, t: nat,
                ghost chain: seq<nat>, ghost runs: seq<Run>, ghost pos: nat, ghost done: nat)
    returns (ulen': nat, t': nat, ghost pos': nat)
    requires Listed(chain, runs, pos, done, tbl, tlen, ulen, t) && runs == Runs(chain) && 2 * |runs| + 2 < 0x1_0000_0000
    requires pos < |chain| < 0x1_0000_0000 && cl == chain[pos] && ncl == RunLength(chain[pos..])
    modifies tbl
    ensures tbl.Length > 0 ==> tbl[0] == old(tbl[0])
    ensures Listed(chain, runs, pos', done + 1, tbl, tlen, ulen', t') && pos' == pos + ncl && ulen' < 0x1_0000_0000
  {
    NextRun(chain, runs, pos, done, ncl);
    ulen', t', pos' := ulen + 2, t, pos + ncl;
    if ulen' <= tlen {
      Put(tbl, t, ncl, cl, runs, done);
      t' := t + 2;
    }
  }

  /** f_lseek(CREATE_LINKMAP): `tbl[0]` says how many items the table has room for, and in the end
      how many the file needs, two for each fragment and two more. */
  method CreateLinkMap(fs: FatFs, sclust: dword, tbl: array<dword>, ghost chain: seq<nat>) returns (res: MapResult)
    requires fs.Valid() && 1 <= tbl.Length && tbl[0] <= tbl.Length
    requires if chain == [] then sclust == 0 else IsChain(fs.Fat(), chain) && chain[0] == sclust
    modifies tbl, fs`disk, fs`wflag, fs`winsect, fs.win
    ensures fs.Valid()
    ensures if chain != [] && EndLooksLikeLink(fs.Fat(), chain) then res == MapIntErr
            else && tbl[0] == 2 * |Runs(chain)| + 2
                 && res == (if tbl[0] <= old(tbl[0]) then MapOk else NotEnoughCore)
                 && (res == MapOk ==> Tabled(tbl, 1, Runs(chain)))
  {
    ghost var fat, runs, pos, done := fs.Fat(), Runs(chain), 0, 0;
    var tlen: nat, ulen: nat, t: nat := tbl[0], 2, 1;
    assert Listed(chain, runs, 0, 0, tbl, tlen, ulen, t);
    var cl := sclust;
    if cl != 0 {
      assert IsCluster(fat, chain[0]);
      while true
        invariant fs.Valid() && fs.Fat() == fat && tbl[0] == old(tbl[0])
        invariant pos < |chain| && cl == chain[pos] && Listed(chain, runs, pos, done, tbl, tlen, ulen, t)
        decreases |chain| - pos
      {
        var ok;
        ok, cl, ulen, t, pos := MapFragment(fs, tbl, tlen, cl, ulen, t, chain, runs, pos, done);
        if !ok { return MapIntErr; }
        done := done + 1;
        if !(cl < fs.g.nFatent) { break; }
      }
    }
    res := Finish(tbl, tlen, t, ulen, chain, runs, pos, done);
  }

  method Put(tbl: array<dword>, t: nat, ncl: dword, tcl: dword, ghost runs: seq<Run>, ghost done: nat)
    requires done < |runs| && t == 1 + 2 * done && t + 1 < tbl.Length && Stored(tbl, 1, runs, done)
    requires runs[done] == Run(ncl, tcl) && ncl != 0
    modifies tbl
    ensures tbl[0] == old(tbl[0]) && Stored(tbl, 1, runs, done + 1)
  {
    tbl[t] := ncl;
    tbl[t + 1] := tcl;
  }

  method Finish(tbl: array<dword>, tlen: nat, t: nat, ulen: nat, ghost chain: seq<nat>, ghost runs: seq<Run>,
                ghost pos: nat, ghost done: nat) returns (res: MapResult)
    requires 0 < tbl.Length && Listed(chain, runs, pos, done, tbl, tlen, ulen, t) && pos == |chain|
             && ulen < 0x1_0000_0000
    modifies tbl
    ensures tbl[0] == 2 * |runs| + 2 && res == if ulen <= tlen then MapOk else NotEnoughCore
    ensures res == MapOk ==> Tabled(tbl, 1, runs)
  {
    assert chain[pos..] == [];
    tbl[0] := ulen;
    if ulen <= tlen {
      tbl[t] := 0;
      res := MapOk;
    } else {
      res := NotEnoughCore;
    }
  }

  lemma NextRun(chain: seq<nat>, runs: seq<Run>, pos: nat, done: nat, n: nat)
    requires pos < |chain| && done <= |runs| && runs[done..] == Runs(chain[pos..]) && n == RunLength(chain[pos..])
    ensures done < |runs| && runs[done] == Run(n, chain[pos]) && runs[done + 1..] == Runs(chain[pos + n..])
  {
    assert chain[pos..][n..] == chain[pos + n..];
    assert runs[done + 1..] == runs[done..][1..];
  }
}
