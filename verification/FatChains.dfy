/** Cluster chains over the FAT read as a sequence of entries: entry `c` is 0 when cluster `c`
    is free, the next cluster of its chain, or a value past the last cluster at a chain's end. */
module FatChains {

  type FatMap = seq<nat>

  ghost predicate IsCluster(fat: FatMap, c: int) {
    2 <= c < |fat|
  }

  /** `chain` lists clusters from its head to an end mark. */
  ghost predicate IsChain(fat: FatMap, chain: seq<nat>) {
    && chain != []
    && (forall i :: 0 <= i < |chain| ==> IsCluster(fat, chain[i]))
    && (forall i :: 0 <= i < |chain| - 1 ==> fat[chain[i]] == chain[i + 1])
    && fat[chain[|chain| - 1]] >= |fat|
  }

  /** The clusters in use are exactly those of pairwise disjoint, properly ended chains. */
  ghost predicate WellFormed(fat: FatMap, chains: set<seq<nat>>) {
    && (forall ch :: ch in chains ==> IsChain(fat, ch))
    && (forall a, b :: a in chains && b in chains && a != b ==> Disjoint(a, b))
    && (forall c :: IsCluster(fat, c) && fat[c] != 0 ==> Owned(chains, c))
  }

  ghost predicate Disjoint(a: seq<nat>, b: seq<nat>) {
    forall c :: c in a ==> c !in b
  }

  ghost predicate Owned(chains: set<seq<nat>>, c: nat) {
    exists ch :: ch in chains && c in ch
  }

  lemma InChain(fat: FatMap, ch: seq<nat>, c: nat)
    requires IsChain(fat, ch) && c in ch
    ensures IsCluster(fat, c) && fat[c] != 0
  {
    var i :| 0 <= i < |ch| && ch[i] == c;
    assert i < |ch| - 1 ==> fat[ch[i]] == ch[i + 1] && IsCluster(fat, ch[i + 1]);
  }

  /** An end mark is reached from a cluster in one number of steps only, so chains do not
      come back to a cluster. */
  lemma {:induction false} ChainIsAcyclic(fat: FatMap, chain: seq<nat>, i: nat, j: nat)
    requires IsChain(fat, chain) && i < j < |chain|
    ensures chain[i] != chain[j]
    decreases |chain| - j
  {
    assert fat[chain[i]] == chain[i + 1] && IsCluster(fat, chain[i + 1]);
    if chain[i] == chain[j] {
      if j < |chain| - 1 {
        assert chain[i + 1] == fat[chain[i]] == chain[j + 1];
        ChainIsAcyclic(fat, chain, i + 1, j + 1);
      }
    }
  }

  /** A chain is determined by its head. */
  lemma {:induction false} ChainIsUnique(fat: FatMap, a: seq<nat>, b: seq<nat>)
    requires IsChain(fat, a) && IsChain(fat, b) && a[0] == b[0]
    ensures a == b
  {
    assert |a| > 1 ==> fat[a[0]] == a[1] && IsCluster(fat, a[1]);
    assert |b| > 1 ==> fat[b[0]] == b[1] && IsCluster(fat, b[1]);
    if |a| > 1 && |b| > 1 {
      assert fat[a[0]] == a[1] && fat[b[0]] == b[1];
      ChainSuffix(fat, a, 1);
      ChainSuffix(fat, b, 1);
      ChainIsUnique(fat, a[1..], b[1..]);
      assert a == [a[0]] + a[1..] && b == [b[0]] + b[1..];
    }
  }

  lemma ChainSuffix(fat: FatMap, chain: seq<nat>, k: nat)
    requires IsChain(fat, chain) && k < |chain|
    ensures IsChain(fat, chain[k..])
  {
    var s := chain[k..];
    forall i | 0 <= i < |s| - 1 ensures fat[s[i]] == s[i + 1] {
      assert fat[chain[k + i]] == chain[k + i + 1];
    }
  }

  // ----- counting free clusters

  /** Zero entries among clusters `lo` .. `|fat| - 1`. */
  ghost function FreeFrom(fat: FatMap, lo: nat): nat
    decreases |fat| - lo
  {
    if lo >= |fat| then 0 else (if fat[lo] == 0 then 1 else 0) + FreeFrom(fat, lo + 1)
  }

  ghost function FreeCount(fat: FatMap): nat {
    FreeFrom(fat, 2)
  }

  /** It is the number of free clusters. */
  lemma FreeCountIsNumber(fat: FatMap)
    ensures FreeCount(fat) == |set c | 2 <= c < |fat| && fat[c] == 0|
  {
    FreeFromIsNumber(fat, 2);
  }

  lemma {:induction false} FreeFromIsNumber(fat: FatMap, lo: nat)
    ensures FreeFrom(fat, lo) == |set c | lo <= c < |fat| && fat[c] == 0|
    decreases |fat| - lo
  {
    var s := set c | lo <= c < |fat| && fat[c] == 0;
    if lo < |fat| {
      FreeFromIsNumber(fat, lo + 1);
      var rest := set c | lo + 1 <= c < |fat| && fat[c] == 0;
      assert s == if fat[lo] == 0 then rest + {lo} else rest;
    } else {
      assert s == {};
    }
  }

  lemma {:induction false} FreeFromBound(fat: FatMap, lo: nat)
    ensures FreeFrom(fat, lo) <= if lo < |fat| then |fat| - lo else 0
    decreases |fat| - lo
  {
    if lo < |fat| { FreeFromBound(fat, lo + 1); }
  }

  lemma {:induction false} FreeFromZero(fat: FatMap, lo: nat)
    ensures FreeFrom(fat, lo) == 0 <==> forall c :: lo <= c < |fat| ==> fat[c] != 0
    decreases |fat| - lo
  {
    if lo < |fat| { FreeFromZero(fat, lo + 1); }
  }

  lemma {:induction false} FreeFromUpdate(fat: FatMap, lo: nat, c: nat, v: nat)
    requires c < |fat|
    ensures FreeFrom(fat[c := v], lo)
         == FreeFrom(fat, lo) - (if lo <= c && fat[c] == 0 then 1 else 0) + (if lo <= c && v == 0 then 1 else 0)
    decreases |fat| - lo
  {
    if lo < |fat| { FreeFromUpdate(fat, lo + 1, c, v); }
  }

  /** Where all entries from `lo` on are zero. */
  lemma {:induction false} AllFree(fat: FatMap, lo: nat)
    requires forall c :: lo <= c < |fat| ==> fat[c] == 0
    ensures FreeFrom(fat, lo) == if lo < |fat| then |fat| - lo else 0
    decreases |fat| - lo
  {
    if lo < |fat| { AllFree(fat, lo + 1); }
  }

  /** Counting from entry 0 overcounts by the reserved entries that are zero. */
  lemma FreeFromReserved(fat: FatMap)
    requires |fat| >= 2
    ensures FreeFrom(fat, 0) == FreeCount(fat) <==> fat[0] != 0 && fat[1] != 0
  {
    assert FreeFrom(fat, 0) == (if fat[0] == 0 then 1 else 0) + FreeFrom(fat, 1);
    assert FreeFrom(fat, 1) == (if fat[1] == 0 then 1 else 0) + FreeFrom(fat, 2);
  }

  /** A cluster in use leaves room in the count. */
  lemma FreeCountInUse(fat: FatMap, c: nat)
    requires IsCluster(fat, c) && fat[c] != 0
    ensures FreeCount(fat) < |fat| - 2
  {
    FreeFromUpdate(fat, 2, c, 0);
    FreeFromBound(fat[c := 0], 2);
  }

  ghost predicate NoneFree(fat: FatMap) {
    forall c :: IsCluster(fat, c) ==> fat[c] != 0
  }

  /** Some entry holds the value 1, which get_fat reports as an internal error. */
  ghost predicate HasCorrupt(fat: FatMap) {
    exists c :: IsCluster(fat, c) && fat[c] == 1
  }

  // ----- growing

  /** What create_chain does to the table: `r` ends a chain, linked from `clst` unless that is 0. */
  ghost function Grown(fat: FatMap, clst: nat, r: nat, eoc: nat): (f: FatMap)
    requires r < |fat| && clst < |fat|
    ensures |f| == |fat|
  {
    if clst == 0 then fat[r := eoc] else fat[r := eoc][clst := r]
  }

  lemma NewChain(fat: FatMap, chains: set<seq<nat>>, r: nat, eoc: nat)
    requires WellFormed(fat, chains) && IsCluster(fat, r) && fat[r] == 0 && eoc >= |fat|
    ensures WellFormed(Grown(fat, 0, r, eoc), chains + {[r]})
  {
    var f := Grown(fat, 0, r, eoc);
    assert IsChain(f, [r]);
    forall ch | ch in chains ensures IsChain(f, ch) && r !in ch {
      if r in ch { InChain(fat, ch, r); }
      ChainUnaffected(fat, f, ch);
    }
    assert [r] in chains + {[r]} && r in [r];
  }

  lemma ChainUnaffected(fat: FatMap, f: FatMap, ch: seq<nat>)
    requires IsChain(fat, ch) && |f| == |fat|
    requires forall i :: 0 <= i < |ch| ==> f[ch[i]] == fat[ch[i]]
    ensures IsChain(f, ch)
  {
  }

  ghost function Kept(ch: seq<nat>): set<seq<nat>> {
    if ch == [] then {} else {ch}
  }

  /** `f` differs from `fat` in that chain `ch` became `ch'` (or vanished, for `ch' == []`),
      which may have taken free clusters. */
  ghost predicate Rewired(fat: FatMap, f: FatMap, ch: seq<nat>, ch': seq<nat>) {
    && |f| == |fat|
    && (ch' != [] ==> IsChain(f, ch'))
    && (forall c :: c in ch' ==> c in ch || (IsCluster(fat, c) && fat[c] == 0))
    && (forall c :: IsCluster(fat, c) && c !in ch && c !in ch' ==> f[c] == fat[c])
    && (forall c :: IsCluster(fat, c) && c in ch && c !in ch' ==> f[c] == 0)
  }

  /** Appending free clusters rewires one chain. */
  lemma GrewRewires(fat: FatMap, f: FatMap, ch: seq<nat>, ch': seq<nat>)
    requires |f| == |fat| && ch <= ch' && IsChain(f, ch')
    requires forall c :: c in ch' && c !in ch ==> c < |fat| && fat[c] == 0
    requires forall c :: IsCluster(fat, c) && c !in ch' ==> f[c] == fat[c]
    ensures Rewired(fat, f, ch, ch')
  {
    forall c | c in ch ensures c in ch' { assert ch'[..|ch|] == ch; }
    forall c | c in ch' ensures IsCluster(f, c) { InChain(f, ch', c); }
  }

  lemma OthersStay(fat: FatMap, f: FatMap, chains: set<seq<nat>>, ch: seq<nat>, ch': seq<nat>, x: seq<nat>)
    requires WellFormed(fat, chains) && ch in chains && Rewired(fat, f, ch, ch')
    requires x in chains && x != ch
    ensures IsChain(f, x) && Disjoint(x, ch') && Disjoint(ch', x)
  {
    assert Disjoint(ch, x);
    forall c | c in x ensures c !in ch' { InChain(fat, x, c); }
    forall i | 0 <= i < |x| ensures f[x[i]] == fat[x[i]] { assert x[i] in x; InChain(fat, x, x[i]); }
    ChainUnaffected(fat, f, x);
  }

  lemma RewiredIsWellFormed(fat: FatMap, f: FatMap, chains: set<seq<nat>>, ch: seq<nat>, ch': seq<nat>)
    requires WellFormed(fat, chains) && ch in chains && Rewired(fat, f, ch, ch')
    ensures WellFormed(f, chains - {ch} + Kept(ch'))
  {
    var chains' := chains - {ch} + Kept(ch');
    forall x | x in chains' ensures IsChain(f, x) {
      if x != ch' { OthersStay(fat, f, chains, ch, ch', x); }
    }
    forall a, b | a in chains' && b in chains' && a != b ensures Disjoint(a, b) {
      RewiredDisjoint(fat, f, chains, ch, ch', a, b);
    }
    forall c | IsCluster(f, c) && f[c] != 0 ensures Owned(chains', c) {
      RewiredOwned(fat, f, chains, ch, ch', c);
    }
  }

  /** A chain of formerly free clusters joins the others. */
  lemma AddedIsWellFormed(fat: FatMap, f: FatMap, chains: set<seq<nat>>, ch: seq<nat>)
    requires WellFormed(fat, chains) && |f| == |fat| && IsChain(f, ch)
    requires forall c :: c in ch ==> IsCluster(fat, c) && fat[c] == 0
    requires forall c :: IsCluster(fat, c) && c !in ch ==> f[c] == fat[c]
    ensures WellFormed(f, chains + {ch})
  {
    forall x | x in chains ensures IsChain(f, x) && Disjoint(x, ch) && Disjoint(ch, x) { ApartFromFree(fat, f, x, ch); }
    assert forall a, b :: a in chains + {ch} && b in chains + {ch} && a != b ==> Disjoint(a, b);
    forall c | IsCluster(f, c) && f[c] != 0 ensures Owned(chains + {ch}, c) {
      AddedOwned(fat, f, chains, ch, c);
    }
  }

  lemma ApartFromFree(fat: FatMap, f: FatMap, x: seq<nat>, ch: seq<nat>)
    requires IsChain(fat, x) && |f| == |fat|
    requires forall c :: c in ch ==> IsCluster(fat, c) && fat[c] == 0
    requires forall c :: IsCluster(fat, c) && c !in ch ==> f[c] == fat[c]
    ensures IsChain(f, x) && Disjoint(x, ch) && Disjoint(ch, x)
  {
    forall c | c in x ensures IsCluster(fat, c) && c !in ch && f[c] == fat[c] { InChain(fat, x, c); }
    forall i | 0 <= i < |x| ensures IsCluster(f, x[i]) && f[x[i]] == fat[x[i]] { assert x[i] in x; }
  }

  lemma AddedOwned(fat: FatMap, f: FatMap, chains: set<seq<nat>>, ch: seq<nat>, c: nat)
    requires WellFormed(fat, chains) && |f| == |fat| && IsCluster(fat, c) && f[c] != 0
    requires forall c :: IsCluster(fat, c) && c !in ch ==> f[c] == fat[c]
    ensures Owned(chains + {ch}, c)
  {
    if c in ch {
      assert ch in chains + {ch};
    } else {
      assert Owned(chains, c);
      var x :| x in chains && c in x;
      assert x in chains + {ch};
    }
  }

  lemma RewiredDisjoint(fat: FatMap, f: FatMap, chains: set<seq<nat>>, ch: seq<nat>, ch': seq<nat>, a: seq<nat>,
                        b: seq<nat>)
    requires WellFormed(fat, chains) && ch in chains && Rewired(fat, f, ch, ch')
    requires a in chains - {ch} + Kept(ch') && b in chains - {ch} + Kept(ch') && a != b
    ensures Disjoint(a, b)
  {
    if a in chains && a != ch && b in chains && b != ch {
    } else if a in chains && a != ch {
      OthersStay(fat, f, chains, ch, ch', a);
    } else {
      OthersStay(fat, f, chains, ch, ch', b);
    }
  }

  lemma RewiredOwned(fat: FatMap, f: FatMap, chains: set<seq<nat>>, ch: seq<nat>, ch': seq<nat>, c: nat)
    requires WellFormed(fat, chains) && ch in chains && Rewired(fat, f, ch, ch')
    requires IsCluster(f, c) && f[c] != 0
    ensures Owned(chains - {ch} + Kept(ch'), c)
  {
    if c in ch' {
      assert ch' in chains - {ch} + Kept(ch');
    } else {
      assert c !in ch && Owned(chains, c);
      var x :| x in chains && c in x;
      assert x in chains - {ch} + Kept(ch');
    }
  }

  /** Growing a chain at its end appends the free cluster and leaves every other chain alone. */
  lemma LongerChain(fat: FatMap, chains: set<seq<nat>>, ch: seq<nat>, r: nat, eoc: nat)
    requires WellFormed(fat, chains) && ch in chains
    requires IsCluster(fat, r) && fat[r] == 0 && eoc >= |fat|
    ensures IsCluster(fat, ch[|ch| - 1])
    ensures WellFormed(Grown(fat, ch[|ch| - 1], r, eoc), chains - {ch} + {ch + [r]})
  {
    assert IsChain(fat, ch);
    var f := Grown(fat, ch[|ch| - 1], r, eoc);
    if r in ch { InChain(fat, ch, r); }
    assert ch[|ch| - 1] in ch;
    ChainExtended(fat, f, ch, r);
    RewiredIsWellFormed(fat, f, chains, ch, ch + [r]);
  }

  lemma ChainExtended(fat: FatMap, f: FatMap, ch: seq<nat>, r: nat)
    requires IsChain(fat, ch) && r !in ch && IsCluster(fat, r) && |f| == |fat|
    requires f[r] >= |fat| && f[ch[|ch| - 1]] == r
    requires forall c :: 0 <= c < |fat| && c != r && c != ch[|ch| - 1] ==> f[c] == fat[c]
    ensures IsChain(f, ch + [r])
  {
    var ch' := ch + [r];
    forall i | 0 <= i < |ch'| - 1 ensures f[ch'[i]] == ch'[i + 1] {
      if i < |ch| - 1 { ChainIsAcyclic(fat, ch, i, |ch| - 1); }
    }
  }

  // ----- cutting

  /** What remove_chain does to the table: the clusters of `cut` become free and `pclst`, unless
      it is 0, ends its chain. */
  ghost function Cut(fat: FatMap, cut: seq<nat>, pclst: nat, eoc: nat): (f: FatMap)
    ensures |f| == |fat|
    ensures forall c :: 0 <= c < |fat| ==> f[c] == if c in cut then 0 else if c == pclst && c != 0 then eoc else fat[c]
  {
    seq(|fat|, c requires 0 <= c < |fat| => if c in cut then 0 else if c == pclst && c != 0 then eoc else fat[c])
  }

  /** One step of freeing a chain from its head. */
  lemma CutStep(fat: FatMap, ch: seq<nat>, k: nat)
    requires IsChain(fat, ch) && k < |ch|
    ensures Cut(fat, ch[..k], 0, 0)[ch[k]] == fat[ch[k]] != 0
    ensures Cut(fat, ch[..k + 1], 0, 0) == Cut(fat, ch[..k], 0, 0)[ch[k] := 0]
    ensures k + 1 < |ch| ==> fat[ch[k]] == ch[k + 1] < |fat|
    ensures k + 1 == |ch| ==> fat[ch[k]] >= |fat| && ch[..k + 1] == ch
  {
    forall i | 0 <= i < k ensures ch[i] != ch[k] { ChainIsAcyclic(fat, ch, i, k); }
    assert ch[..k + 1] == ch[..k] + [ch[k]];
    assert ch[k] in ch;
    InChain(fat, ch, ch[k]);
  }

  /** The clusters of a damaged chain: the last one is free already, or its entry is corrupt. */
  ghost predicate IsTorn(fat: FatMap, chain: seq<nat>) {
    && chain != []
    && (forall i :: 0 <= i < |chain| ==> IsCluster(fat, chain[i]))
    && (forall i :: 0 <= i < |chain| - 1 ==> fat[chain[i]] == chain[i + 1])
    && (forall i, j :: 0 <= i < j < |chain| ==> chain[i] != chain[j])
    && fat[chain[|chain| - 1]] < 2
  }

  lemma TornStep(fat: FatMap, ch: seq<nat>, k: nat)
    requires IsTorn(fat, ch) && k < |ch|
    ensures Cut(fat, ch[..k], 0, 0)[ch[k]] == fat[ch[k]]
    ensures k + 1 < |ch| ==>
              fat[ch[k]] == ch[k + 1] < |fat| && Cut(fat, ch[..k + 1], 0, 0) == Cut(fat, ch[..k], 0, 0)[ch[k] := 0]
    ensures k + 1 == |ch| ==> fat[ch[k]] < 2
  {
    assert ch[..k + 1] == ch[..k] + [ch[k]];
  }

  /** Cutting chain `ch` before position `k` frees its clusters from `k` on, and nothing else. */
  lemma ShorterChain(fat: FatMap, chains: set<seq<nat>>, ch: seq<nat>, k: nat, eoc: nat)
    requires WellFormed(fat, chains) && ch in chains && k < |ch| && eoc >= |fat|
    ensures var f := Cut(fat, ch[k..], if k == 0 then 0 else ch[k - 1], eoc);
            WellFormed(f, if k == 0 then chains - {ch} else chains - {ch} + {ch[..k]})
  {
    assert IsChain(fat, ch);
    var f := Cut(fat, ch[k..], if k == 0 then 0 else ch[k - 1], eoc);
    CutRewires(fat, f, ch, k, eoc);
    RewiredIsWellFormed(fat, f, chains, ch, ch[..k]);
    assert k == 0 ==> chains - {ch} + Kept(ch[..k]) == chains - {ch};
  }

  lemma CutRewires(fat: FatMap, f: FatMap, ch: seq<nat>, k: nat, eoc: nat)
    requires IsChain(fat, ch) && k < |ch| && eoc >= |fat|
    requires f == Cut(fat, ch[k..], if k == 0 then 0 else ch[k - 1], eoc)
    ensures Rewired(fat, f, ch, ch[..k])
  {
    var kept, cut := ch[..k], ch[k..];
    SliceMembers(ch, k);
    if k > 0 {
      PrefixIsChain(fat, f, ch, k, eoc);
      assert kept[k - 1] in kept;
    }
  }

  lemma SliceMembers(ch: seq<nat>, k: nat)
    requires k <= |ch|
    ensures forall c :: c in ch <==> c in ch[..k] || c in ch[k..]
  {
    assert ch == ch[..k] + ch[k..];
  }

  lemma PrefixIsChain(fat: FatMap, f: FatMap, ch: seq<nat>, k: nat, eoc: nat)
    requires IsChain(fat, ch) && 0 < k < |ch| && eoc >= |fat|
    requires f == Cut(fat, ch[k..], ch[k - 1], eoc)
    ensures IsChain(f, ch[..k])
  {
    var p := ch[..k];
    forall i | 0 <= i < k ensures f[p[i]] == if i == k - 1 then eoc else ch[i + 1] {
      assert IsCluster(fat, ch[i]);
      forall j | k <= j < |ch| ensures ch[i] != ch[j] { ChainIsAcyclic(fat, ch, i, j); }
      if i < k - 1 { ChainIsAcyclic(fat, ch, i, k - 1); }
    }
  }
}
