/** Where the bytes of a file lie: cluster `c` is a run of `csize` sectors of the data area, and
    the sectors of a file are those of the clusters of its chain, in order. */
module FileLayout {
  import opened Bytes
  import opened Sectors
  import opened FatChains
  import opened FatVolume

  /** Sectors in `n` clusters: the product, by repeated addition. */
  function Times(csize: nat, n: nat): nat {
    if n == 0 then 0 else csize + Times(csize, n - 1)
  }

  lemma {:induction false} TimesIsProduct(csize: nat, n: nat)
    ensures Times(csize, n) == csize * n
  {
    if n > 0 {
      TimesIsProduct(csize, n - 1);
      assert csize * n == csize + csize * (n - 1);
    }
  }

  lemma {:induction false} TimesMono(csize: nat, x: nat, y: nat)
    requires x <= y
    ensures Times(csize, x) <= Times(csize, y)
  {
    if x < y { TimesMono(csize, x, y - 1); }
  }

  /** The data area holds every cluster.  Mounting accepts only powers of two as cluster size, so
      masking with `csize - 1` is reduction modulo `csize`. */
  ghost predicate HasData(g: Geometry) {
    && g.Valid()
    && 1 <= g.csize <= 128
    && g.database + Times(g.csize, g.nFatent - 2) <= g.sectors
  }

  /** clst2sect, for a valid cluster number. */
  function Base(g: Geometry, c: nat): nat
    requires 2 <= c
  {
    g.database + Times(g.csize, c - 2)
  }

  /** clst2sect; 0 for an invalid cluster number. */
  method Clst2Sect(g: Geometry, clst: dword) returns (sect: dword)
    requires HasData(g)
    ensures sect == if 2 <= clst < g.nFatent then Base(g, clst) else 0
    ensures sect == if 2 <= clst < g.nFatent then g.database + (clst - 2) * g.csize else 0
  {
    var c := (clst - 2) % 0x1_0000_0000;
    if c >= g.nFatent - 2 { return 0; }
    TimesIsProduct(g.csize, c);
    BaseBounds(g, clst);
    sect := g.database + g.csize * c;
  }

  lemma BaseBounds(g: Geometry, c: nat)
    requires HasData(g) && 2 <= c < g.nFatent
    ensures g.database <= Base(g, c) && Base(g, c) + g.csize <= g.sectors
  {
    TimesMono(g.csize, c - 1, g.nFatent - 2);
  }

  lemma BasesApart(g: Geometry, c: nat, c': nat)
    requires 2 <= c < c'
    ensures Base(g, c) + g.csize <= Base(g, c')
  {
    TimesMono(g.csize, c - 1, c' - 2);
  }

  ghost predicate AreClusters(g: Geometry, chain: seq<nat>) {
    forall i :: 0 <= i < |chain| ==> 2 <= chain[i] < g.nFatent
  }

  ghost predicate Distinct(chain: seq<nat>) {
    forall i, j :: 0 <= i < j < |chain| ==> chain[i] != chain[j]
  }

  ghost function Cluster(g: Geometry, d: Disk, c: nat): (ss: seq<Sector>)
    requires HasData(g) && IsDisk(g, d) && 2 <= c < g.nFatent
    ensures |ss| == g.csize && AreSectors(ss)
  {
    BaseBounds(g, c);
    d[Base(g, c)..Base(g, c) + g.csize]
  }

  /** The sectors of the clusters of `chain`. */
  ghost function Data(g: Geometry, d: Disk, chain: seq<nat>): (ss: seq<Sector>)
    requires HasData(g) && IsDisk(g, d) && AreClusters(g, chain)
  {
    if chain == [] then [] else Cluster(g, d, chain[0]) + Data(g, d, chain[1..])
  }

  lemma {:induction false} DataLength(g: Geometry, d: Disk, chain: seq<nat>)
    requires HasData(g) && IsDisk(g, d) && AreClusters(g, chain)
    ensures AreSectors(Data(g, d, chain)) && |Data(g, d, chain)| == Times(g.csize, |chain|)
  {
    if chain != [] {
      DataLength(g, d, chain[1..]);
    }
  }

  /** Sector `j` of the `k`-th cluster. */
  lemma {:induction false} DataAt(g: Geometry, d: Disk, chain: seq<nat>, k: nat, j: nat)
    requires HasData(g) && IsDisk(g, d) && AreClusters(g, chain)
    requires k < |chain| && j < g.csize
    ensures Base(g, chain[k]) + g.csize <= g.sectors
    ensures Times(g.csize, k) + j < |Data(g, d, chain)|
    ensures Data(g, d, chain)[Times(g.csize, k) + j] == d[Base(g, chain[k]) + j]
  {
    BaseBounds(g, chain[k]);
    if k > 0 { DataAt(g, d, chain[1..], k - 1, j); }
  }

  lemma {:induction false} DataSame(g: Geometry, d: Disk, d': Disk, chain: seq<nat>)
    requires HasData(g) && IsDisk(g, d) && IsDisk(g, d') && AreClusters(g, chain)
    requires forall i :: 0 <= i < |chain| ==> Cluster(g, d, chain[i]) == Cluster(g, d', chain[i])
    ensures Data(g, d, chain) == Data(g, d', chain)
  {
    if chain != [] {
      forall i | 0 <= i < |chain[1..]| ensures Cluster(g, d, chain[1..][i]) == Cluster(g, d', chain[1..][i]) {
        assert chain[1..][i] == chain[i + 1];
      }
      DataSame(g, d, d', chain[1..]);
    }
  }

  lemma {:induction false} DataAppend(g: Geometry, d: Disk, chain: seq<nat>, c: nat)
    requires HasData(g) && IsDisk(g, d) && AreClusters(g, chain) && 2 <= c < g.nFatent
    ensures Data(g, d, chain + [c]) == Data(g, d, chain) + Cluster(g, d, c)
  {
    if chain == [] {
      assert chain + [c] == [c];
      assert Data(g, d, [c]) == Cluster(g, d, c) + Data(g, d, []);
    } else {
      assert (chain + [c])[1..] == chain[1..] + [c];
      DataAppend(g, d, chain[1..], c);
    }
  }

  lemma PatchElsewhere(g: Geometry, d: Disk, c: nat, c': nat, j: nat, secs: seq<Sector>)
    requires HasData(g) && IsDisk(g, d) && 2 <= c < g.nFatent && 2 <= c' < g.nFatent
    requires c != c' && j + |secs| <= g.csize && AreSectors(secs)
    ensures Base(g, c) + g.csize <= g.sectors
    ensures var d' := Overwrite(d, Base(g, c) + j, secs); IsDisk(g, d') && Cluster(g, d', c') == Cluster(g, d, c')
  {
    BaseBounds(g, c);
    BaseBounds(g, c');
    if c < c' { BasesApart(g, c, c'); } else { BasesApart(g, c', c); }
  }

  lemma PatchCluster(g: Geometry, d: Disk, c: nat, j: nat, secs: seq<Sector>)
    requires HasData(g) && IsDisk(g, d) && 2 <= c < g.nFatent
    requires j + |secs| <= g.csize && AreSectors(secs)
    ensures Base(g, c) + g.csize <= g.sectors
    ensures var d' := Overwrite(d, Base(g, c) + j, secs);
            IsDisk(g, d') && Cluster(g, d', c) == Overwrite(Cluster(g, d, c), j, secs)
  {
    BaseBounds(g, c);
  }

  /** When only the `k`-th cluster of a chain changes, only its sectors of the file do. */
  lemma {:induction false} DataReplace(g: Geometry, d: Disk, d': Disk, chain: seq<nat>, k: nat)
    requires HasData(g) && IsDisk(g, d) && IsDisk(g, d') && AreClusters(g, chain) && k < |chain|
    requires forall i :: 0 <= i < |chain| && i != k ==> Cluster(g, d', chain[i]) == Cluster(g, d, chain[i])
    ensures Times(g.csize, k) + g.csize <= |Data(g, d, chain)|
    ensures Data(g, d', chain) == Overwrite(Data(g, d, chain), Times(g.csize, k), Cluster(g, d', chain[k]))
  {
    var rest := chain[1..];
    forall i | 0 <= i < |rest| ensures rest[i] == chain[i + 1] { }
    var head := Cluster(g, d, chain[0]);
    if k == 0 {
      DataSame(g, d', d, rest);
      PatchHead(head, Data(g, d, rest), Cluster(g, d', chain[0]));
    } else {
      DataReplace(g, d, d', rest, k - 1);
      PatchTail(head, Data(g, d, rest), Times(g.csize, k - 1), Cluster(g, d', chain[k]));
    }
  }

  lemma {:induction false} DataSlice(g: Geometry, d: Disk, chain: seq<nat>, k: nat)
    requires HasData(g) && IsDisk(g, d) && AreClusters(g, chain) && k < |chain|
    ensures Times(g.csize, k) + g.csize <= |Data(g, d, chain)|
    ensures Data(g, d, chain)[Times(g.csize, k)..Times(g.csize, k) + g.csize] == Cluster(g, d, chain[k])
  {
    var head, tail := Cluster(g, d, chain[0]), Data(g, d, chain[1..]);
    assert Data(g, d, chain) == head + tail;
    if k > 0 {
      DataSlice(g, d, chain[1..], k - 1);
      SliceTail(head, tail, Times(g.csize, k - 1), g.csize);
    }
  }

  lemma SliceTail(a: seq<Sector>, b: seq<Sector>, k: nat, n: nat)
    requires k + n <= |b|
    ensures (a + b)[|a| + k..|a| + k + n] == b[k..k + n]
  {
  }

  lemma PatchHead(a: seq<Sector>, b: seq<Sector>, x: seq<Sector>)
    requires |x| == |a|
    ensures Overwrite(a + b, 0, x) == x + b
  {
  }

  lemma PatchTail(a: seq<Sector>, b: seq<Sector>, k: nat, x: seq<Sector>)
    requires k + |x| <= |b|
    ensures Overwrite(a + b, |a| + k, x) == a + Overwrite(b, k, x)
  {
  }

  lemma OverwriteTwice(s: seq<Sector>, c: seq<Sector>, a: nat, j: nat, xs: seq<Sector>)
    requires a + |c| <= |s| && s[a..a + |c|] == c && j + |xs| <= |c|
    ensures Overwrite(s, a, Overwrite(c, j, xs)) == Overwrite(s, a + j, xs)
  {
    forall i | a <= i < a + |c| ensures s[i] == c[i - a] { assert s[a..a + |c|][i - a] == c[i - a]; }
    assert Overwrite(s, a, Overwrite(c, j, xs)) == Overwrite(s, a + j, xs);
  }

  lemma PatchOthers(g: Geometry, d: Disk, chain: seq<nat>, k: nat, j: nat, secs: seq<Sector>)
    requires HasData(g) && IsDisk(g, d) && AreClusters(g, chain) && Distinct(chain)
    requires k < |chain| && j + |secs| <= g.csize && AreSectors(secs)
    ensures Base(g, chain[k]) + g.csize <= g.sectors && IsDisk(g, Overwrite(d, Base(g, chain[k]) + j, secs))
    ensures var d' := Overwrite(d, Base(g, chain[k]) + j, secs);
            forall i :: 0 <= i < |chain| && i != k ==> Cluster(g, d', chain[i]) == Cluster(g, d, chain[i])
  {
    PatchCluster(g, d, chain[k], j, secs);
    var d' := Overwrite(d, Base(g, chain[k]) + j, secs);
    forall i | 0 <= i < |chain| && i != k ensures Cluster(g, d', chain[i]) == Cluster(g, d, chain[i]) {
      assert chain[i] != chain[k];
      PatchElsewhere(g, d, chain[k], chain[i], j, secs);
    }
  }

  /** Overwriting sectors of one cluster overwrites the file there and nowhere else. */
  lemma DataPatch(g: Geometry, d: Disk, chain: seq<nat>, k: nat, j: nat, secs: seq<Sector>, t: nat)
    requires HasData(g) && IsDisk(g, d) && AreClusters(g, chain) && Distinct(chain)
    requires k < |chain| && j + |secs| <= g.csize && AreSectors(secs) && t == Times(g.csize, k) + j
    ensures Base(g, chain[k]) + g.csize <= g.sectors
    ensures t + |secs| <= |Data(g, d, chain)|
    ensures var d' := Overwrite(d, Base(g, chain[k]) + j, secs);
            IsDisk(g, d') && Data(g, d', chain) == Overwrite(Data(g, d, chain), t, secs)
  {
    PatchCluster(g, d, chain[k], j, secs);
    PatchOthers(g, d, chain, k, j, secs);
    DataOfCluster(g, d, Overwrite(d, Base(g, chain[k]) + j, secs), chain, k, t - j, j, secs);
  }

  lemma DataOfCluster(g: Geometry, d: Disk, d': Disk, chain: seq<nat>, k: nat, a: nat, j: nat, secs: seq<Sector>)
    requires HasData(g) && IsDisk(g, d) && IsDisk(g, d') && AreClusters(g, chain) && k < |chain|
             && j + |secs| <= g.csize
    requires a == Times(g.csize, k) && Cluster(g, d', chain[k]) == Overwrite(Cluster(g, d, chain[k]), j, secs)
    requires forall i :: 0 <= i < |chain| && i != k ==> Cluster(g, d', chain[i]) == Cluster(g, d, chain[i])
    ensures a + g.csize <= |Data(g, d, chain)|
    ensures Data(g, d', chain) == Overwrite(Data(g, d, chain), a + j, secs)
  {
    var c, c' := Cluster(g, d, chain[k]), Cluster(g, d', chain[k]);
    ReplacedAt(g, d, d', chain, k, a, c');
    SlicedAt(g, d, chain, k, a, c);
    OverwriteInside(Data(g, d, chain), Data(g, d', chain), a, c, c', j, secs);
  }

  lemma ReplacedAt(g: Geometry, d: Disk, d': Disk, chain: seq<nat>, k: nat, a: nat, c': seq<Sector>)
    requires HasData(g) && IsDisk(g, d) && IsDisk(g, d') && AreClusters(g, chain) && k < |chain|
    requires a == Times(g.csize, k) && c' == Cluster(g, d', chain[k])
    requires forall i :: 0 <= i < |chain| && i != k ==> Cluster(g, d', chain[i]) == Cluster(g, d, chain[i])
    ensures a + |c'| <= |Data(g, d, chain)| && Data(g, d', chain) == Overwrite(Data(g, d, chain), a, c')
  {
    DataReplace(g, d, d', chain, k);
  }

  lemma SlicedAt(g: Geometry, d: Disk, chain: seq<nat>, k: nat, a: nat, c: seq<Sector>)
    requires HasData(g) && IsDisk(g, d) && AreClusters(g, chain) && k < |chain|
    requires a == Times(g.csize, k) && c == Cluster(g, d, chain[k])
    ensures a + |c| <= |Data(g, d, chain)| && Data(g, d, chain)[a..a + |c|] == c
  {
    DataSlice(g, d, chain, k);
  }

  lemma OverwriteInside(s: seq<Sector>, s': seq<Sector>, a: nat, c: seq<Sector>, c': seq<Sector>, j: nat,
                        xs: seq<Sector>)
    requires a + |c| <= |s| && s[a..a + |c|] == c && j + |xs| <= |c|
    requires c' == Overwrite(c, j, xs) && s' == Overwrite(s, a, c')
    ensures s' == Overwrite(s, a + j, xs)
  {
    OverwriteTwice(s, c, a, j, xs);
  }

  // ----- the bytes of a file

  ghost function Image(g: Geometry, d: Disk, chain: seq<nat>): (bytes: seq<byte>)
    requires HasData(g) && IsDisk(g, d) && AreClusters(g, chain)
  {
    Flat(Data(g, d, chain))
  }

  lemma ImageLength(g: Geometry, d: Disk, chain: seq<nat>)
    requires HasData(g) && IsDisk(g, d) && AreClusters(g, chain)
    ensures |Image(g, d, chain)| == 512 * Times(g.csize, |chain|)
  {
    DataLength(g, d, chain);
    FlatLength(Data(g, d, chain));
  }

  /** Changes outside the data area do not reach a file. */
  lemma ImageSame(g: Geometry, d: Disk, d': Disk, chain: seq<nat>)
    requires HasData(g) && IsDisk(g, d) && IsDisk(g, d') && AreClusters(g, chain)
    requires forall i :: g.database <= i < g.sectors ==> d[i] == d'[i]
    ensures Image(g, d, chain) == Image(g, d', chain)
  {
    forall i | 0 <= i < |chain| ensures Cluster(g, d, chain[i]) == Cluster(g, d', chain[i]) {
      BaseBounds(g, chain[i]);
    }
    DataSame(g, d, d', chain);
  }

  lemma ImageAppend(g: Geometry, d: Disk, chain: seq<nat>, c: nat)
    requires HasData(g) && IsDisk(g, d) && AreClusters(g, chain) && 2 <= c < g.nFatent
    ensures Image(g, d, chain + [c]) == Image(g, d, chain) + Flat(Cluster(g, d, c))
    ensures |Flat(Cluster(g, d, c))| == 512 * g.csize
  {
    DataAppend(g, d, chain, c);
    FlatConcat(Data(g, d, chain), Cluster(g, d, c));
    FlatLength(Cluster(g, d, c));
  }

  /** The bytes of `n` sectors from sector `j` of the `k`-th cluster. */
  lemma ImageSlice(g: Geometry, d: Disk, chain: seq<nat>, k: nat, j: nat, n: nat, t: nat)
    requires HasData(g) && IsDisk(g, d) && AreClusters(g, chain)
    requires k < |chain| && j + n <= g.csize && t == Times(g.csize, k) + j
    ensures Base(g, chain[k]) + g.csize <= g.sectors
    ensures 512 * t + 512 * n <= |Image(g, d, chain)|
    ensures var s := Base(g, chain[k]) + j;
            Image(g, d, chain)[512 * t..512 * t + 512 * n] == Flat(d[s..s + n])
  {
    DataRun(g, d, chain, k, j, n, t);
    DataLength(g, d, chain);
    FlatSlice(Data(g, d, chain), t, n);
  }

  lemma DataRun(g: Geometry, d: Disk, chain: seq<nat>, k: nat, j: nat, n: nat, t: nat)
    requires HasData(g) && IsDisk(g, d) && AreClusters(g, chain)
    requires k < |chain| && j + n <= g.csize && t == Times(g.csize, k) + j
    ensures Base(g, chain[k]) + g.csize <= g.sectors && t + n <= |Data(g, d, chain)|
    ensures var s := Base(g, chain[k]) + j; Data(g, d, chain)[t..t + n] == d[s..s + n]
  {
    BaseBounds(g, chain[k]);
    var a, b, c := t - j, Base(g, chain[k]), Cluster(g, d, chain[k]);
    SlicedAt(g, d, chain, k, a, c);
    SliceInside(Data(g, d, chain), a, c, j, n, Data(g, d, chain)[t..t + n]);
    SliceInside(d, b, c, j, n, d[b + j..b + j + n]);
  }

  lemma SliceInside(s: seq<Sector>, a: nat, c: seq<Sector>, j: nat, n: nat, l: seq<Sector>)
    requires a + |c| <= |s| && s[a..a + |c|] == c && j + n <= |c| && l == s[a + j..a + j + n]
    ensures l == c[j..j + n]
  {
    var r := c[j..j + n];
    forall i | 0 <= i < n ensures l[i] == r[i] { assert s[a..a + |c|][j + i] == c[j + i]; }
    assert l == r;
  }

  lemma FlatSlice(ss: seq<Sector>, i: nat, n: nat)
    requires AreSectors(ss) && i + n <= |ss|
    ensures 512 * i + 512 * n <= |Flat(ss)|
    ensures Flat(ss)[512 * i..512 * i + 512 * n] == Flat(ss[i..i + n])
  {
    var a, b, c := ss[..i], ss[i..i + n], ss[i + n..];
    assert ss == a + (b + c);
    FlatThree(a, b, c);
    FlatLength(ss);
  }

  /** Overwriting sectors of a cluster overwrites their bytes of the file. */
  lemma ImagePatch(g: Geometry, d: Disk, chain: seq<nat>, k: nat, j: nat, secs: seq<Sector>, t: nat)
    requires HasData(g) && IsDisk(g, d) && AreClusters(g, chain) && Distinct(chain)
    requires k < |chain| && j + |secs| <= g.csize && AreSectors(secs) && t == Times(g.csize, k) + j
    ensures Base(g, chain[k]) + g.csize <= g.sectors
    ensures 512 * t + |Flat(secs)| <= |Image(g, d, chain)|
    ensures var d' := Overwrite(d, Base(g, chain[k]) + j, secs);
            IsDisk(g, d') && Image(g, d', chain) == Patch(Image(g, d, chain), 512 * t, Flat(secs))
  {
    DataPatch(g, d, chain, k, j, secs, t);
    DataLength(g, d, chain);
    FlatPatchRun(Data(g, d, chain), t, secs);
  }

  /** The first cluster, number 2, is at the start of the data area, and the others follow. */
  lemma BaseIs(g: Geometry, c: nat)
    requires 2 <= c
    ensures Base(g, c) == g.database + (c - 2) * g.csize
  {
    TimesIsProduct(g.csize, c - 2);
  }

  /** Where byte `o` of sector `j` of a file's `k`-th cluster lies, in the file and on the disk. */
  lemma ByteOfFile(g: Geometry, d: Disk, chain: seq<nat>, k: nat, j: nat, o: nat, t: nat, s: nat)
    requires HasData(g) && IsDisk(g, d) && AreClusters(g, chain) && k < |chain| && j < g.csize && o < 512
    requires t == k * g.csize + j && s == g.database + (chain[k] - 2) * g.csize + j
    ensures 512 * t + o < |Image(g, d, chain)| && s < g.sectors && Image(g, d, chain)[512 * t + o] == d[s][o]
  {
    BaseIs(g, chain[k]);
    TimesIsProduct(g.csize, k);
    ByteAt(g, d, chain, k, j, o, t, s);
  }

  lemma ByteAt(g: Geometry, d: Disk, chain: seq<nat>, k: nat, j: nat, o: nat, t: nat, s: nat)
    requires HasData(g) && IsDisk(g, d) && AreClusters(g, chain) && k < |chain| && j < g.csize && o < 512
    requires t == Times(g.csize, k) + j && s == Base(g, chain[k]) + j
    ensures 512 * t + o < |Image(g, d, chain)| && s < g.sectors && Image(g, d, chain)[512 * t + o] == d[s][o]
  {
    BaseBounds(g, chain[k]);
    ImageSlice(g, d, chain, k, j, 1, t);
    FlatAt(d[s..s + 1], 0, o);
    var image := Image(g, d, chain);
    assert image[512 * t..512 * t + 512][o] == image[512 * t + o];
  }

  // ----- positions

  /** Position `p` is byte `p % 512` of sector `j` of the `k`-th cluster. */
  ghost predicate PositionIs(csize: nat, p: nat, k: nat, j: nat) {
    j < csize && p / 512 == Times(csize, k) + j
  }

  lemma PositionSplit(csize: nat, p: nat)
    requires 0 < csize
    ensures PositionIs(csize, p, p / 512 / csize, p / 512 % csize)
  {
    TimesIsProduct(csize, p / 512 / csize);
  }

  /** The byte before `p` lies in cluster `i`: so does byte `p`, unless it starts the next cluster. */
  lemma PositionAfter(csize: nat, p: nat, k: nat, j: nat, i: nat)
    requires PositionIs(csize, p, k, j) && p % 512 == 0
    requires 512 * Times(csize, i) < p <= 512 * Times(csize, i + 1)
    ensures k == if j == 0 then i + 1 else i
  {
    if k < i { TimesMono(csize, k + 1, i); }
    if k > i { TimesMono(csize, i + 1, k); }
    if k > i + 1 { TimesMono(csize, i + 2, k); }
  }

  /** Within the sectors of one cluster from the one of `p` on. */
  lemma Advance(csize: nat, p: nat, k: nat, j: nat, n: nat, p': nat)
    requires PositionIs(csize, p, k, j) && j + n <= csize && p < p' <= p - p % 512 + 512 * n
    ensures 512 * Times(csize, k) < p' <= 512 * Times(csize, k + 1)
    ensures n == 1 && p' % 512 != 0 ==> PositionIs(csize, p', k, j)
  {
    assert p == 512 * (Times(csize, k) + j) + p % 512;
  }

  /** Inside a sector, the byte before `p` is in the same cluster. */
  lemma PositionInside(csize: nat, p: nat, k: nat, j: nat, i: nat)
    requires PositionIs(csize, p, k, j) && p % 512 != 0
    requires 512 * Times(csize, i) < p <= 512 * Times(csize, i + 1)
    ensures k == i
  {
    if k < i { TimesMono(csize, k + 1, i); }
    if k > i { TimesMono(csize, i + 1, k); }
  }

  lemma PositionUnique(csize: nat, p: nat, k: nat, j: nat, k': nat, j': nat)
    requires PositionIs(csize, p, k, j) && PositionIs(csize, p, k', j')
    ensures k == k' && j == j'
  {
    if k < k' { TimesMono(csize, k + 1, k'); }
    if k' < k { TimesMono(csize, k' + 1, k); }
  }

  /** A position below the length of `n` clusters lies in one of them. */
  lemma PositionInChain(csize: nat, p: nat, k: nat, j: nat, n: nat)
    requires PositionIs(csize, p, k, j) && p < 512 * Times(csize, n)
    ensures k < n
  {
    if n <= k { TimesMono(csize, n, k); }
  }

  /** Where the sector boundary `p` lies, given that the byte before it lies in cluster `i`. */
  lemma Locate(csize: nat, p: nat, i: nat) returns (k: nat)
    requires 0 < csize && p % 512 == 0
    requires p > 0 ==> 512 * Times(csize, i) < p <= 512 * Times(csize, i + 1)
    ensures PositionIs(csize, p, k, p / 512 % csize)
    ensures p == 0 ==> k == 0 && p / 512 % csize == 0
    ensures p > 0 ==> k == if p / 512 % csize == 0 then i + 1 else i
  {
    k := p / 512 / csize;
    PositionSplit(csize, p);
    if p > 0 {
      PositionAfter(csize, p, k, p / 512 % csize, i);
    } else {
      PositionUnique(csize, 0, k, p / 512 % csize, 0, 0);
    }
  }

  /** The cluster that byte `p - 1` lies in, as f_lseek computes it. */
  lemma ClusterStart(csize: nat, p: nat, k: nat)
    requires 0 < csize && 512 * Times(csize, k) < p <= 512 * Times(csize, k + 1)
    ensures (p - 1) / (512 * csize) == k
    ensures p - 1 - (p - 1) % (512 * csize) == 512 * Times(csize, k)
  {
    TimesScaled(csize, k);
    TimesIsProduct(512 * csize, k);
    Quotient(p - 1, 512 * csize, k, p - 1 - 512 * Times(csize, k));
  }

  lemma MulLess(m: nat, a: nat, b: nat)
    requires a < b
    ensures m * a + m <= m * b
  {
    TimesIsProduct(m, a);
    TimesIsProduct(m, b);
    TimesMono(m, a + 1, b);
  }

  lemma Quotient(x: nat, m: nat, k: nat, r: nat)
    requires r < m && x == m * k + r
    ensures x / m == k && x % m == r
  {
    Between(x, m, x / m, x % m, k, r);
  }

  lemma Between(x: nat, m: nat, q: nat, s: nat, k: nat, r: nat)
    requires x == m * q + s && s < m && x == m * k + r && r < m
    ensures q == k && s == r
  {
    if q < k { MulLess(m, q, k); }
    if q > k { MulLess(m, k, q); }
  }

  lemma NotBefore(csize: nat, q: nat, k: nat)
    requires 0 < csize && 0 < q
    ensures (q - 1) / (512 * csize) >= k <==> 512 * Times(csize, k) < q
  {
    TimesScaled(csize, k);
    DividesAtLeast(q - 1, 512 * csize, k);
  }

  lemma {:induction false} TimesScaled(csize: nat, k: nat)
    ensures Times(512 * csize, k) == 512 * Times(csize, k)
  {
    if k > 0 { TimesScaled(csize, k - 1); }
  }

  lemma DividesAtLeast(x: nat, m: nat, k: nat)
    requires 0 < m
    ensures x / m >= k <==> Times(m, k) <= x
  {
    TimesIsProduct(m, k);
    AtLeast(x, m, x / m, x % m, k);
  }

  lemma AtLeast(x: nat, m: nat, q: nat, s: nat, k: nat)
    requires x == m * q + s && s < m
    ensures q >= k <==> m * k <= x
  {
    if q < k { MulLess(m, q, k); }
    if k < q { MulLess(m, k, q); }
  }

  lemma WholeClusters(csize: nat, n: nat)
    ensures (512 * Times(csize, n)) % 512 == 0
  {
  }

  /** `ofs` bytes on from the start of a cluster, which `t` sectors of the file precede. */
  lemma Within512(t: nat, ofs: nat, csize: nat)
    requires 0 < ofs <= 512 * csize
    ensures (512 * t + ofs) % 512 == ofs % 512 && (512 * t + ofs) / 512 == t + ofs / 512
    ensures ofs % 512 != 0 ==> ofs / 512 < csize
  {
  }

  lemma BoundaryAfter(p: nat, n: nat)
    requires p % 512 == 0
    ensures (p + 512 * n) % 512 == 0
  {
  }

  /** How often `m` goes into `x`: the quotient, by repeated subtraction. */
  function Whole(x: nat, m: nat): nat
    requires 0 < m
  {
    if x < m then 0 else 1 + Whole(x - m, m)
  }

  lemma {:induction false} WholeBounds(x: nat, m: nat)
    requires 0 < m
    ensures Times(m, Whole(x, m)) <= x < Times(m, Whole(x, m)) + m
  {
    if x >= m { WholeBounds(x - m, m); }
  }

  lemma WholeIsQuotient(x: nat, m: nat)
    requires 0 < m
    ensures Whole(x, m) == x / m
  {
    WholeBounds(x, m);
    TimesIsProduct(m, Whole(x, m));
    Quotient(x, m, Whole(x, m), x - Times(m, Whole(x, m)));
  }
}
