/** Allocation on a well-formed FAT: create_chain, remove_chain and f_getfree of fatfs/ff.c on a table
    whose clusters in use are those of disjoint chains. */
module FatAllocation {
  import opened Bytes
  import opened FatEntries
  import opened FatChains
  import opened FatVolume

  /** The entry of a cluster in a chain is a link or an end mark. */
  lemma LinkOrEnd(fat: FatMap, ch: seq<nat>, c: nat)
    requires IsChain(fat, ch) && c in ch
    ensures IsCluster(fat, c) && fat[c] >= 2
  {
    var i :| 0 <= i < |ch| && ch[i] == c;
    if i < |ch| - 1 { assert fat[ch[i]] == ch[i + 1] && IsCluster(fat, ch[i + 1]); }
  }

  /** No entry of a well-formed table holds 1. */
  lemma NotCorrupt(fat: FatMap, chains: set<seq<nat>>)
    requires WellFormed(fat, chains)
    ensures !HasCorrupt(fat)
  {
    forall c | IsCluster(fat, c) ensures fat[c] != 1 {
      if fat[c] != 0 {
        assert Owned(chains, c);
        var ch :| ch in chains && c in ch;
        LinkOrEnd(fat, ch, c);
      }
    }
  }

  /** The rest of a chain can be removed. */
  lemma RestIsRemovable(fat: FatMap, ch: seq<nat>, k: nat)
    requires IsChain(fat, ch) && k < |ch|
    ensures Removable(fat, ch[k], if k == 0 then 0 else ch[k - 1], ch[k..])
    ensures forall c :: c in ch[k..] ==> c < |fat|
  {
    var cut := ch[k..];
    ChainSuffix(fat, ch, k);
    if k > 0 {
      assert ch[k - 1] in ch;
      InChain(fat, ch, ch[k - 1]);
      forall c | c in cut ensures c != ch[k - 1] {
        var j :| 0 <= j < |cut| && cut[j] == c;
        ChainIsAcyclic(fat, ch, k - 1, k + j);
      }
    }
  }

  /** A right count of zero means that nothing is free. */
  lemma CountedNone(fat: FatMap)
    requires FreeCount(fat) == 0
    ensures NoneFree(fat)
  {
    FreeFromZero(fat, 2);
  }

  /** The chains after `r` was allocated behind cluster `i` of chain `ch`, or as a chain of its own. */
  ghost function Stretched(chains: set<seq<nat>>, ch: seq<nat>, r: nat): set<seq<nat>> {
    if ch == [] then chains + {[r]} else chains - {ch} + {ch + [r]}
  }

  /** create_chain follows a chain, or appends exactly one formerly free cluster to it, or starts a
      chain with one; it fails only when nothing is free.  All other chains stay, and the free count
      stays right. */
  method Stretch(fs: FatFs, clst: dword, ghost chains: set<seq<nat>>, ghost ch: seq<nat>, ghost i: nat)
    returns (r: dword, ghost chains': set<seq<nat>>)
    requires fs.Valid() && fs.FreeKnown() && WellFormed(fs.Fat(), chains)
    requires if ch == [] then clst == 0 else ch in chains && i < |ch| && clst == ch[i]
    modifies fs`disk, fs`vol, fs`wflag, fs`winsect, fs`freeClst, fs`lastClst, fs`fsiFlag, fs.win
    ensures fs.Valid() && fs.FreeKnown() && WellFormed(fs.Fat(), chains') && OnlyFatsChange(fs.g, old(fs.vol), fs.vol)
    ensures ch != [] && i < |ch| - 1 ==> r == ch[i + 1] && chains' == chains
    ensures ch == [] || i == |ch| - 1 ==>
              if r == 0 then chains' == chains && NoneFree(fs.Fat())
              else 2 <= r < fs.g.nFatent && old(fs.Fat())[r] == 0 && chains' == Stretched(chains, ch, r)
  {
    ghost var fat := fs.Fat();
    NotCorrupt(fat, chains);
    if fs.freeClst == 0 { CountedNone(fat); }
    ghost var free, last := fs.freeClst, fs.lastClst;
    r := fs.CreateChain(clst);
    Outcome(fat, free, last, chains, ch, i, clst, r);
    chains' := chains;
    if (ch == [] || i == |ch| - 1) && r >= 2 {
      LinkFits(fs.g.ty, fs.g.nFatent, r);
      StretchedIsWellFormed(fat, chains, ch, r, Masked(fs.g.ty, EOC));
      chains' := Stretched(chains, ch, r);
    }
  }

  /** What create_chain returns on a well-formed table. */
  lemma Outcome(fat: FatMap, free: nat, last: nat, chains: set<seq<nat>>, ch: seq<nat>, i: nat, clst: nat, r: nat)
    requires WellFormed(fat, chains) && !HasCorrupt(fat) && (free == 0 ==> NoneFree(fat))
    requires if ch == [] then clst == 0 else ch in chains && i < |ch| && clst == ch[i]
    requires CreateOutcome(fat, free, last, clst, r)
    ensures ch != [] && i < |ch| - 1 ==> r == ch[i + 1] && !Allocated(fat, clst, r)
    ensures ch == [] || i == |ch| - 1 ==>
              && r != 1 && (r == 0 ==> NoneFree(fat)) && (r >= 2 <==> Allocated(fat, clst, r))
              && (r >= 2 ==> IsCluster(fat, r) && fat[r] == 0)
  {
    if ch != [] {
      assert IsChain(fat, ch);
      assert IsCluster(fat, ch[i]);
      if i < |ch| - 1 { assert fat[ch[i]] == ch[i + 1] && IsCluster(fat, ch[i + 1]); }
    }
  }

  lemma StretchedIsWellFormed(fat: FatMap, chains: set<seq<nat>>, ch: seq<nat>, r: nat, eoc: nat)
    requires WellFormed(fat, chains) && (ch == [] || ch in chains) && IsCluster(fat, r) && fat[r] == 0 && eoc >= |fat|
    ensures WellFormed(Grown(fat, if ch == [] then 0 else ch[|ch| - 1], r, eoc), Stretched(chains, ch, r))
  {
    if ch == [] { NewChain(fat, chains, r, eoc); } else { LongerChain(fat, chains, ch, r, eoc); }
  }

  /** remove_chain frees exactly the clusters of a chain from the `k`-th on. */
  method Release(fs: FatFs, clst: dword, pclst: dword, ghost chains: set<seq<nat>>, ghost ch: seq<nat>, ghost k: nat)
    returns (res: FResult)
    requires fs.Valid() && fs.FreeKnown() && WellFormed(fs.Fat(), chains) && ch in chains
    requires k < |ch| && clst == ch[k] && pclst == if k == 0 then 0 else ch[k - 1]
    modifies fs`disk, fs`vol, fs`wflag, fs`winsect, fs`freeClst, fs`fsiFlag, fs.win
    ensures fs.Valid() && fs.FreeKnown() && res == Ok && OnlyFatsChange(fs.g, old(fs.vol), fs.vol)
    ensures WellFormed(fs.Fat(), if k == 0 then chains - {ch} else chains - {ch} + {ch[..k]})
    ensures forall c :: c in ch[k..] ==> c < fs.g.nFatent && fs.Fat()[c] == 0
  {
    ghost var fat := fs.Fat();
    RestIsRemovable(fat, ch, k);
    LinkFits(fs.g.ty, fs.g.nFatent, 2);
    res := fs.RemoveChain(clst, pclst, ch[k..]);
    ShorterChain(fat, chains, ch, k, Masked(fs.g.ty, EOC));
  }

  /** f_getfree on a well-formed table succeeds.  A count that is already known is reported as it is;
      otherwise FAT12 is counted rightly, and FAT16 and FAT32 if and only if neither of the two
      reserved entries is zero, since they are counted as well. */
  method FreeClusters(fs: FatFs, ghost chains: set<seq<nat>>) returns (res: FResult, n: dword)
    requires fs.Valid() && fs.FreeKnown() && WellFormed(fs.Fat(), chains)
    modifies fs`disk, fs`wflag, fs`winsect, fs`freeClst, fs`fsiFlag, fs.win
    ensures fs.Valid() && res == Ok
    ensures var fat := fs.Fat();
            n == FreeCount(fat) <==>
              old(fs.freeClst) <= fs.g.nFatent - 2 || fs.g.ty == Fat12 || (fat[0] != 0 && fat[1] != 0)
  {
    ghost var fat := fs.Fat();
    NotCorrupt(fat, chains);
    FreeFromReserved(fat);
    res, n := fs.GetFree();
  }

  /** On FAT16 and FAT32, with an unknown count and entry 0 zero, f_getfree reports one cluster too many. */
  method CountOneTooMany(fs: FatFs, ghost chains: set<seq<nat>>) returns (n: dword)
    requires fs.Valid() && WellFormed(fs.Fat(), chains) && fs.g.ty != Fat12 && fs.freeClst > fs.g.nFatent - 2
    requires fs.Fat()[0] == 0 && fs.Fat()[1] != 0
    modifies fs`disk, fs`wflag, fs`winsect, fs`freeClst, fs`fsiFlag, fs.win
    ensures fs.Valid() && n == fs.freeClst == FreeCount(fs.Fat()) + 1
  {
    ghost var fat := fs.Fat();
    NotCorrupt(fat, chains);
    assert FreeFrom(fat, 0) == 1 + FreeFrom(fat, 1) && FreeFrom(fat, 1) == FreeFrom(fat, 2);
    var _, count := fs.GetFree();
    n := count;
  }

  /** Such a table: of the smallest FAT16 volume, empty, whose first reserved entry is zero. */
  lemma OvercountExample() returns (fat: FatMap)
    ensures |fat| == MAX_FAT12 + 3 && fat[0] == 0 && fat[1] == 0xFFFF && (forall c :: IsCluster(fat, c) ==> fat[c] == 0)
    ensures WellFormed(fat, {}) && FreeCount(fat) == MAX_FAT12 + 1 && FreeFrom(fat, 0) == MAX_FAT12 + 2
  {
    fat := seq(MAX_FAT12 + 3, i => if i == 1 then 0xFFFF else 0);
    AllFree(fat, 2);
    assert FreeFrom(fat, 0) == 1 + FreeFrom(fat, 1) && FreeFrom(fat, 1) == FreeFrom(fat, 2);
  }
}
