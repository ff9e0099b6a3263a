/** The mounted volume of fatfs/ff.c: a disk seen through a one-sector write-back window, and
    the FAT seen through that window. */
module FatVolume {
  import opened Bytes
  import opened Guards
  import opened Sectors
  import opened FatEntries
  import opened FatChains

  const EOC: dword := DWORD_MAX   // what put_fat is given to end a chain

  datatype FResult = Ok | DiskErr | IntErr | Denied

  type Disk = seq<Sector>

  /** What mounting fixes. */
  datatype Geometry = Geometry(
    ty: FatType, nFats: nat, nFatent: nat, fsize: nat, fatbase: nat, database: nat, csize: nat, sectors: nat)
  {
    ghost predicate Valid() {
      && (nFats == 1 || nFats == 2)
      && 3 <= nFatent <= MaxClusters(ty) + 2
      && FatSize(ty, nFatent) <= fsize * 512
      && 0 < fatbase
      && fatbase + FatSectors() <= database <= sectors < 0x1_0000_0000
    }

    /** Sectors taken by all copies of the FAT. */
    function FatSectors(): nat {
      if nFats == 2 then fsize + fsize else fsize
    }

    ghost predicate InFirstFat(sect: int) {
      fatbase <= sect < fatbase + fsize
    }

    ghost predicate InFats(sect: int) {
      fatbase <= sect < fatbase + FatSectors()
    }
  }

  ghost predicate IsDisk(g: Geometry, d: Disk) {
    |d| == g.sectors && AreSectors(d)
  }

  /** The bytes of the first FAT. */
  ghost function FirstFat(g: Geometry, d: Disk): (fat: seq<byte>)
    requires g.Valid() && IsDisk(g, d)
    ensures |fat| == g.fsize * 512
  {
    FlatLength(d[g.fatbase..g.fatbase + g.fsize]);
    Flat(d[g.fatbase..g.fatbase + g.fsize])
  }

  ghost function FatOf(g: Geometry, d: Disk): (fat: seq<nat>)
    requires g.Valid() && IsDisk(g, d)
    ensures |fat| == g.nFatent
  {
    Entries(g.ty, FirstFat(g, d), g.nFatent)
  }

  /** Both copies of the FAT agree. */
  ghost predicate Mirrored(g: Geometry, d: Disk)
    requires g.Valid() && IsDisk(g, d)
  {
    g.nFats == 2 ==> forall s :: g.fatbase <= s < g.fatbase + g.fsize ==> d[s] == d[s + g.fsize]
  }

  /** Nothing outside the FATs differs, and copies that agreed still do. */
  ghost predicate OnlyFatsChange(g: Geometry, d: Disk, d': Disk)
    requires g.Valid() && IsDisk(g, d) && IsDisk(g, d')
  {
    && (forall i :: 0 <= i < |d| && !g.InFats(i) ==> d[i] == d'[i])
    && (Mirrored(g, d) ==> Mirrored(g, d'))
  }

  lemma OnlyFatsChangeTwice(g: Geometry, d0: Disk, d1: Disk, d2: Disk)
    requires g.Valid() && IsDisk(g, d0) && IsDisk(g, d1) && IsDisk(g, d2)
    requires OnlyFatsChange(g, d0, d1) && OnlyFatsChange(g, d1, d2)
    ensures OnlyFatsChange(g, d0, d2)
  {
  }

  /** `d'` is `d` with sector `s` of the first FAT, and its reflection, replaced by `sec`. */
  ghost predicate FatSectorSet(g: Geometry, d: Disk, d': Disk, s: nat, sec: Sector)
    requires g.Valid() && IsDisk(g, d)
  {
    && g.InFirstFat(s) && |sec| == 512
    && d' == if g.nFats == 2 then d[s := sec][s + g.fsize := sec] else d[s := sec]
  }

  lemma FatSectorSetOnlyFats(g: Geometry, d: Disk, d': Disk, s: nat, sec: Sector)
    requires g.Valid() && IsDisk(g, d) && FatSectorSet(g, d, d', s, sec)
    ensures IsDisk(g, d') && OnlyFatsChange(g, d, d')
  {
    if Mirrored(g, d) && g.nFats == 2 {
      forall i | g.fatbase <= i < g.fatbase + g.fsize ensures d'[i] == d'[i + g.fsize] {
        if i != s { assert d'[i] == d[i] && d'[i + g.fsize] == d[i + g.fsize]; }
      }
    }
  }

  /** Only the one sector of the first FAT is another. */
  lemma FirstFatSectors(g: Geometry, d: Disk, d': Disk, s: nat, sec: Sector)
    requires g.Valid() && IsDisk(g, d) && IsDisk(g, d') && s < g.fsize && FatSectorSet(g, d, d', g.fatbase + s, sec)
    ensures d'[g.fatbase..g.fatbase + g.fsize] == d[g.fatbase..g.fatbase + g.fsize][s := sec]
  {
  }

  /** Patching the sector of FAT byte `k`, and its reflection, patches the FAT at `k`. */
  lemma FatSectorPatched(g: Geometry, d: Disk, d': Disk, k: nat, bs: seq<byte>)
    requires g.Valid() && IsDisk(g, d) && IsDisk(g, d') && k < g.fsize * 512 && k % 512 + |bs| <= 512
    requires FatSectorSet(g, d, d', g.fatbase + k / 512, Patch(d[g.fatbase + k / 512], k % 512, bs))
    ensures k + |bs| <= g.fsize * 512
    ensures FirstFat(g, d') == Patch(FirstFat(g, d), k, bs)
  {
    var fat, s, o := d[g.fatbase..g.fatbase + g.fsize], k / 512, k % 512;
    FirstFatSectors(g, d, d', s, Patch(fat[s], o, bs));
    FlatPatch(fat, s, o, bs);
    assert 512 * s + o == k;
  }

  /** Writing data sectors leaves the FAT alone. */
  lemma DataIsNotFat(g: Geometry, d: Disk, s: nat, secs: seq<Sector>)
    requires g.Valid() && IsDisk(g, d) && AreSectors(secs) && g.database <= s && s + |secs| <= g.sectors
    ensures IsDisk(g, Overwrite(d, s, secs)) && FatOf(g, Overwrite(d, s, secs)) == FatOf(g, d)
  {
    assert Overwrite(d, s, secs)[g.fatbase..g.fatbase + g.fsize] == d[g.fatbase..g.fatbase + g.fsize];
  }

  lemma FourDivide(c: nat)
    ensures c * 4 % 4 == 0
  {
  }

  lemma EntryIs(ty: FatType, fat: seq<byte>, c: nat)
    requires Offset(ty, c) + Width(ty) <= |fat|
    ensures var k := Offset(ty, c);
            && (ty.Fat16? ==> Entry(ty, fat, c) == Word(fat[k], fat[k + 1]))
            && (ty.Fat32? ==> Entry(ty, fat, c) == Dword(fat[k], fat[k + 1], fat[k + 2], fat[k + 3]) % 0x1000_0000)
  {
  }

  /** create_chain took a free cluster. */
  ghost predicate Allocated(fat: FatMap, clst: nat, r: nat) {
    && r >= 2
    && (clst == 0 || (IsCluster(fat, clst) && fat[clst] >= |fat|))
  }

  /** `r` is the first free cluster after `s`, going around, and no corrupt one comes before it. */
  ghost predicate FirstFreeAfter(fat: FatMap, s: nat, r: nat) {
    FirstAfter(fat, s, r, 0)
  }

  /** Or a corrupt one comes before any that is free. */
  ghost predicate CorruptAfter(fat: FatMap, s: nat) {
    exists r :: FirstAfter(fat, s, r, 1)
  }

  ghost predicate FirstAfter(fat: FatMap, s: nat, r: nat, val: nat) {
    && IsCluster(fat, r) && fat[r] == val
    && forall c :: IsCluster(fat, c) && (if s < r then s < c < r else c > s || c < r) ==> fat[c] >= 2
  }

  /** Where create_chain starts to search: at the cluster allocated last, if that is known. */
  ghost function SearchStart(fat: FatMap, clst: nat, last: nat): nat {
    if 2 <= last < |fat| then last else if clst == 0 then 1 else clst
  }

  /** What create_chain returns for a table `fat`, a free count `free` and the last allocated cluster. */
  ghost predicate CreateOutcome(fat: FatMap, free: nat, last: nat, clst: nat, r: nat) {
    if clst != 0 && (!IsCluster(fat, clst) || fat[clst] < 2) then r == 1
    else if clst != 0 && fat[clst] < |fat| then r == fat[clst]
    else
      && (r == 0 ==> free == 0 || (NoneFree(fat) && !HasCorrupt(fat)))
      && (r == 1 ==> HasCorrupt(fat)) && (free == 0 ==> r == 0)
      && (clst != 0 && free != 0 && fat[NextTo(fat, clst)] == 1 ==> r == 1)
      && (r == 1 && (clst == 0 || fat[NextTo(fat, clst)] != 1) ==>
            CorruptAfter(fat, SearchStart(fat, clst, last)))
      && (r >= 2 ==> IsCluster(fat, r) && fat[r] == 0)
      && (clst != 0 && free != 0 && fat[NextTo(fat, clst)] == 0 ==> r == NextTo(fat, clst))
      && (r >= 2 && (clst == 0 || fat[NextTo(fat, clst)] != 0) ==> FirstFreeAfter(fat, SearchStart(fat, clst, last), r))
  }

  /** The cluster create_chain would like best, which keeps the file contiguous. */
  ghost function NextTo(fat: FatMap, clst: nat): (c: nat)
    requires IsCluster(fat, clst)
    ensures IsCluster(fat, c)
  {
    if clst + 1 < |fat| then clst + 1 else 2
  }

  /** What it returns, in numbers: nothing if none is counted; the neighbour, or cluster 2 behind the last one, if that
      is free; and else the first free one behind the cluster that was allocated last, if that is known, or behind
      `clst`, or from the start.  A corrupt entry that is met before it makes 1. */
  lemma OutcomeMeans(fat: FatMap, free: nat, last: nat, clst: nat, r: nat)
    requires CreateOutcome(fat, free, last, clst, r)
    requires clst == 0 || (2 <= clst < |fat| && fat[clst] >= |fat|)
    ensures free == 0 ==> r == 0
    ensures r == 0 ==> free == 0 || forall c :: 2 <= c < |fat| ==> fat[c] >= 2
    ensures free != 0 && 0 < clst < |fat| - 1 && fat[clst + 1] == 0 ==> r == clst + 1
    ensures free != 0 && 0 < clst == |fat| - 1 && fat[2] == 0 ==> r == 2
    ensures free != 0 && 0 < clst && fat[if clst + 1 < |fat| then clst + 1 else 2] == 1 ==> r == 1
    ensures r >= 2 && (clst == 0 || r != (if clst + 1 < |fat| then clst + 1 else 2)) ==>
              var s := if 2 <= last < |fat| then last else if clst == 0 then 1 else clst;
              && 2 <= r < |fat| && fat[r] == 0
              && (s < r ==> forall c :: 2 <= c && s < c < r ==> fat[c] >= 2)
              && (r <= s ==> (forall c :: s < c < |fat| ==> fat[c] >= 2) && forall c :: 2 <= c < r ==> fat[c] >= 2)
  {
  }

  /** What it does to the table: the new cluster has the end mark of its sub-type, and the old end leads to it. */
  lemma GrownMeans(ty: FatType, fat: FatMap, clst: nat, r: nat)
    requires IsCluster(fat, r) && fat[r] == 0 && (clst == 0 || (IsCluster(fat, clst) && fat[clst] >= |fat|))
    ensures var f := Grown(fat, clst, r, Masked(ty, EOC));
            && |f| == |fat| && f[r] == (match ty case Fat12 => 0xFFF case Fat16 => 0xFFFF case Fat32 => 0x0FFF_FFFF)
            && (clst != 0 ==> f[clst] == r)
            && forall c :: 0 <= c < |fat| && c != r && (clst == 0 || c != clst) ==> f[c] == fat[c]
  {
  }

  /** Links are stored unchanged and the end mark lies beyond every cluster number. */
  lemma LinkFits(ty: FatType, n: nat, c: dword)
    requires 2 <= c < n <= MaxClusters(ty) + 2
    ensures Masked(ty, c) == c && Masked(ty, EOC) >= n
  {
  }

  lemma GrownCount(fat: FatMap, clst: nat, r: nat, eoc: nat)
    requires IsCluster(fat, r) && fat[r] == 0 && eoc >= |fat|
    requires clst == 0 || (IsCluster(fat, clst) && fat[clst] != 0)
    ensures FreeCount(Grown(fat, clst, r, eoc)) == FreeCount(fat) - 1
  {
    FreeFromUpdate(fat, 2, r, eoc);
    if clst != 0 { FreeFromUpdate(fat[r := eoc], 2, clst, r); }
  }

  /** `chain` runs from `clst` to its end, and `pclst`, unless 0, is a cluster in use outside it. */
  ghost predicate Removable(fat: FatMap, clst: nat, pclst: nat, chain: seq<nat>) {
    && IsChain(fat, chain) && chain[0] == clst
    && (pclst == 0 || (IsCluster(fat, pclst) && fat[pclst] != 0 && pclst !in chain))
  }

  predicate Aligned(ty: FatType, i: nat) {
    if ty == Fat16 then i % 2 == 0 else i % 4 == 0
  }

  /** `i += 2` or `i += 4`, then `i %= SS`: to the next entry of a sector, or to offset 0. */
  method AdvanceOffset(ty: FatType, i: nat) returns (i': nat)
    requires ty != Fat12 && i < 512 && Aligned(ty, i)
    ensures i + Width(ty) <= 512 && Aligned(ty, i')
    ensures i' == if i + Width(ty) == 512 then 0 else i + Width(ty)
  {
    if ty == Fat16 {
      i' := (i + 2) % 512;
    } else {
      i' := (i + 4) % 512;
    }
  }

  /** Only the bytes of one entry changed; on FAT32 the upper four bits of it are kept. */
  ghost predicate OnlyEntryBytes(ty: FatType, fat: seq<byte>, fat': seq<byte>, c: nat) {
    && |fat'| == |fat| && Offset(ty, c) + Width(ty) <= |fat|
    && (forall j :: 0 <= j < |fat| && !(Offset(ty, c) <= j < Offset(ty, c) + Width(ty)) ==> fat'[j] == fat[j])
    && (ty == Fat32 ==> fat'[c * 4 + 3] / 16 == fat[c * 4 + 3] / 16)
  }

  lemma ReservedBits(x: dword)
    ensures ByteOf(x, 3) / 16 == x / 0x1000_0000
  {
  }

  lemma TopByte(b0: byte, b1: byte, b2: byte, b3: byte)
    ensures Dword(b0, b1, b2, b3) / 0x1000_0000 == b3 / 16
  {
    var x := Dword(b0, b1, b2, b3);
    assert x == 0x1000_0000 * (b3 / 16) + (0x100_0000 * (b3 % 16) + 0x1_0000 * b2 + 0x100 * b1 + b0);
  }

  /** The logical disk `vol` is the medium overlaid with the dirty window. */
  ghost predicate Coherent(g: Geometry, disk: Disk, vol: Disk, win: Sector, winsect: dword, wflag: bool) {
    && g.Valid() && IsDisk(g, disk) && IsDisk(g, vol)
    && (wflag ==> winsect < g.sectors)
    && (wflag && g.nFats == 2 ==> !(g.fatbase + g.fsize <= winsect < g.fatbase + 2 * g.fsize))
    && (winsect < g.sectors ==> win == vol[winsect])
    && (forall i :: 0 <= i < g.sectors && !(wflag && Overlaid(g, winsect, i)) ==> vol[i] == disk[i])
    && (wflag && g.nFats == 2 && g.InFirstFat(winsect) ==> vol[winsect + g.fsize] == vol[winsect])
  }

  /** A window on sector `winsect` stands for that sector and for its reflection in the second FAT. */
  ghost predicate Overlaid(g: Geometry, winsect: int, i: int) {
    i == winsect || (g.nFats == 2 && g.InFirstFat(winsect) && i == winsect + g.fsize)
  }

  /** Changing the window on a sector of the FAT changes the logical disk there and in its reflection. */
  lemma WindowChanged(g: Geometry, disk: Disk, vol: Disk, vol': Disk, win: Sector, win': Sector, winsect: dword,
                      wflag: bool)
    requires Coherent(g, disk, vol, win, winsect, wflag) && FatSectorSet(g, vol, vol', winsect, win')
    ensures IsDisk(g, vol') && Coherent(g, disk, vol', win', winsect, true)
  {
  }

  /** Bytes of the FAT changed in the window. */
  lemma BytesStored(g: Geometry, disk: Disk, vol: Disk, vol': Disk, win: Sector, win': Sector, winsect: dword,
                    wflag: bool, k: nat, bs: seq<byte>)
    requires Coherent(g, disk, vol, win, winsect, wflag) && FatSectorSet(g, vol, vol', winsect, win')
    requires k < g.fsize * 512 && winsect == g.fatbase + k / 512 && k % 512 + |bs| <= 512
             && win' == Patch(win, k % 512, bs)
    ensures IsDisk(g, vol') && Coherent(g, disk, vol', win', winsect, true) && OnlyFatsChange(g, vol, vol')
    ensures k + |bs| <= g.fsize * 512 && FirstFat(g, vol') == Patch(FirstFat(g, vol), k, bs)
  {
    WindowChanged(g, disk, vol, vol', win, win', winsect, wflag);
    FatSectorSetOnlyFats(g, vol, vol', winsect, win');
    FatSectorPatched(g, vol, vol', k, bs);
  }

  class FatFs {
    const g: Geometry
    var disk: Disk               // what disk_read and disk_write see
    const win: array<byte>
    var winsect: dword           // a sector the disk does not have: window invalid
    var wflag: bool
    var freeClst: dword          // number of free clusters; unknown above nFatent - 2
    var lastClst: dword          // last allocated cluster
    var fsiFlag: bool            // FSInfo is to be updated

    /** The logical disk: the medium overlaid with the dirty window, which stands for its
        sector and, when that lies in the first FAT, for the reflection of it. */
    ghost var vol: Disk

    ghost predicate Valid()
      reads `disk, `vol, `winsect, `wflag, win
    {
      && g.Valid() && IsDisk(g, disk) && IsDisk(g, vol) && win.Length == 512
      && forall k: nat :: OpensWindow(k) ==> Coherent(g, disk, vol, win[..], winsect, wflag)
    }

    /** The volume as mount_volume leaves it, with the boot record or FSInfo in the window. */
    constructor Mounted(g: Geometry, disk: Disk, sect: dword, freeClst: dword, lastClst: dword)
      requires g.Valid() && IsDisk(g, disk) && sect < g.sectors
      ensures Valid() && fresh(win) && this.g == g && vol == disk && winsect == sect && !wflag
      ensures this.freeClst == freeClst && this.lastClst == lastClst && !fsiFlag
    {
      this.g, this.disk, this.vol := g, disk, disk;
      winsect, wflag, fsiFlag := sect, false, false;
      this.freeClst, this.lastClst := freeClst, lastClst;
      win := new byte[512](i requires 0 <= i < 512 => disk[sect][i]);
      new;
      assert win[..] == disk[sect];
    }

    /** The dirty window will be written to the second FAT as well. */
    ghost predicate Reflected()
      reads `winsect
    {
      g.nFats == 2 && g.InFirstFat(winsect)
    }

    ghost function Fat(): (fat: seq<nat>)
      requires Valid()
      reads `disk, `vol, `winsect, `wflag, win
      ensures |fat| == g.nFatent
    {
      FatOf(g, vol)
    }

    /** sync_window */
    method SyncWindow() returns (res: FResult)
      requires Valid()
      modifies `disk, `wflag
      ensures Valid() && !wflag && res == Ok && disk == vol
    {
      assert OpensWindow(0);
      res := Ok;
      if wflag {
        disk := disk[winsect := win[..]];
        wflag := false;
        // winsect - fatbase is computed modulo 2^32
        if (winsect - g.fatbase) % 0x1_0000_0000 < g.fsize {
          if g.nFats == 2 {
            disk := disk[winsect + g.fsize := win[..]];
          }
        }
      }
    }

    /** On the medium itself the copies of the FAT agree but for the sector of the dirty window. */
    lemma MirrorOutsideWindow(s: nat)
      requires Valid() && Mirrored(g, vol) && g.nFats == 2 && g.InFirstFat(s) && !(wflag && s == winsect)
      ensures disk[s] == disk[s + g.fsize]
    {
      assert OpensWindow(0);
      assert vol[s] == vol[s + g.fsize];
    }

    /** move_window */
    method MoveWindow(sect: dword) returns (res: FResult)
      requires Valid() && sect < g.sectors
      modifies `disk, `wflag, `winsect, win
      ensures Valid() && res == Ok
      ensures winsect == sect
    {
      assert OpensWindow(0);
      res := Ok;
      if sect != winsect {
        res := SyncWindow();
        var data := disk[sect];
        forall i | 0 <= i < 512 { win[i] := data[i]; }
        winsect := sect;
      }
    }

    /** disk_read of data sectors that are not in a dirty window. */
    method ReadSectors(sect: dword, n: nat) returns (secs: seq<Sector>)
      requires Valid() && g.database <= sect && sect + n <= g.sectors
      requires !(sect <= winsect < sect + n)
      ensures secs == vol[sect..sect + n]
    {
      assert OpensWindow(0);
      secs := disk[sect..sect + n];
    }

    /** disk_write of data sectors that are not in the window. */
    method WriteSectors(sect: dword, secs: seq<Sector>)
      requires Valid() && g.database <= sect && sect + |secs| <= g.sectors && AreSectors(secs)
      requires !(sect <= winsect < sect + |secs|)
      modifies `disk, `vol
      ensures Valid() && vol == Overwrite(old(vol), sect, secs)
      ensures Fat() == old(Fat())
    {
      assert OpensWindow(0);
      disk := Overwrite(disk, sect, secs);
      DataIsNotFat(g, vol, sect, secs);
      vol := Overwrite(vol, sect, secs);
    }

    /** The window shows FAT byte `k`. */
    ghost predicate Shows(k: nat)
      reads `winsect
    {
      k < g.fsize * 512 && winsect == g.fatbase + k / 512
    }

    lemma InSector(s: nat, o: nat)
      requires Valid() && s < g.fsize && winsect == g.fatbase + s && o < 512
      ensures 512 * s + o < g.fsize * 512 && win[o] == FirstFat(g, vol)[512 * s + o]
    {
      assert OpensWindow(0);
      FlatAt(vol[g.fatbase..g.fatbase + g.fsize], s, o);
    }

    lemma InWindow(k: nat, i: nat)
      requires Valid() && Shows(k) && k % 512 + i < 512
      ensures k + i < g.fsize * 512 && win[k % 512 + i] == FirstFat(g, vol)[k + i]
    {
      InSector(k / 512, k % 512 + i);
      assert 512 * (k / 512) + (k % 512 + i) == k + i;
    }

    /** The window did not move, or moved to the first FAT. */
    ghost predicate WindowStays(oldSect: dword)
      reads `winsect
    {
      winsect == oldSect || g.InFirstFat(winsect)
    }

    // Reads of one little-endian item of the FAT: the window is moved to its sector first.

    method LoadByte(k: nat) returns (b: byte)
      requires Valid() && k < g.fsize * 512
      modifies `disk, `wflag, `winsect, win
      ensures Valid() && Shows(k) && g.InFirstFat(winsect)
      ensures b == FirstFat(g, vol)[k]
    {
      var res := MoveWindow(g.fatbase + k / 512);
      InWindow(k, 0);
      b := win[k % 512];
    }

    method LoadWord(k: nat) returns (w: word)
      requires Valid() && k % 2 == 0 && k + 1 < g.fsize * 512
      modifies `disk, `wflag, `winsect, win
      ensures Valid() && Shows(k) && g.InFirstFat(winsect)
      ensures k % 512 + 2 <= 512
      ensures var fat := FirstFat(g, vol); w == Word(fat[k], fat[k + 1])
    {
      var b := LoadByte(k);
      InWindow(k, 1);
      w := Word(b, win[k % 512 + 1]);
    }

    method LoadDword(k: nat) returns (w: dword)
      requires Valid() && k % 4 == 0 && k + 3 < g.fsize * 512
      modifies `disk, `wflag, `winsect, win
      ensures Valid() && Shows(k) && g.InFirstFat(winsect)
      ensures k % 512 + 4 <= 512
      ensures var fat := FirstFat(g, vol); w == Dword(fat[k], fat[k + 1], fat[k + 2], fat[k + 3])
    {
      var b := LoadByte(k);
      InWindow(k, 1);
      InWindow(k, 2);
      InWindow(k, 3);
      var o := k % 512;
      w := Dword(b, win[o + 1], win[o + 2], win[o + 3]);
    }

    /** Stores `bs` at `win + k % SS` and sets wflag. */
    method Store(k: nat, bs: seq<byte>)
      requires Valid() && Shows(k) && k % 512 + |bs| <= 512
      modifies win, `wflag, `vol
      ensures Valid() && k + |bs| <= g.fsize * 512
      ensures FirstFat(g, vol) == Patch(old(FirstFat(g, vol)), k, bs)
      ensures OnlyFatsChange(g, old(vol), vol)
    {
      assert OpensWindow(0);
      ghost var d: Disk, was, flag, sec := vol, win[..], wflag, Patch(win[..], k % 512, bs);
      IntoWindow(k % 512, bs);
      wflag := true;
      vol := d[winsect := sec];
      if Reflected() { vol := vol[winsect + g.fsize := sec]; }
      BytesStored(g, disk, d, vol, was, sec, winsect, flag, k, bs);
    }

    method IntoWindow(o: nat, bs: seq<byte>)
      requires o + |bs| <= win.Length
      modifies win
      ensures win[..] == Patch(old(win[..]), o, bs)
    {
      forall j | 0 <= j < |bs| { win[o + j] := bs[j]; }
    }

    /** The FS_FAT12 arm of get_fat: the entry may straddle two sectors. */
    method GetFat12(clst: dword) returns (val: dword)
      requires Valid() && g.ty == Fat12 && clst < g.nFatent
      modifies `disk, `wflag, `winsect, win
      ensures Valid() && val == Fat()[clst] && WindowStays(old(winsect))
    {
      EntryFits(g.ty, clst, g.nFatent);
      var bc := clst + clst / 2;
      var b0 := LoadByte(bc);
      var b1 := LoadByte(bc + 1);
      var wc := Word(b0, b1);
      val := if clst % 2 == 1 then wc / 16 else wc % 0x1000;
    }

    method GetFat16(clst: dword) returns (val: dword)
      requires Valid() && g.ty == Fat16 && clst < g.nFatent
      modifies `disk, `wflag, `winsect, win
      ensures Valid() && val == Fat()[clst] && WindowStays(old(winsect))
    {
      EntryFits(g.ty, clst, g.nFatent);
      val := LoadWord(clst * 2);
    }

    method GetFat32(clst: dword) returns (val: dword)
      requires Valid() && g.ty == Fat32 && clst < g.nFatent
      modifies `disk, `wflag, `winsect, win
      ensures Valid() && val == Fat()[clst] && WindowStays(old(winsect))
    {
      EntryFits(g.ty, clst, g.nFatent);
      EntryIs(Fat32, FirstFat(g, vol), clst);
      FourDivide(clst);
      var k := clst * 4;
      var w := LoadDword(k);
      val := w % 0x1000_0000;
    }

    /** get_fat */
    method GetFat(clst: dword) returns (val: dword)
      requires Valid()
      modifies `disk, `wflag, `winsect, win
      ensures Valid() && WindowStays(old(winsect))
      ensures val == if 2 <= clst < g.nFatent then Fat()[clst] else 1
    {
      if clst < 2 || clst >= g.nFatent { return 1; }
      match g.ty {
        case Fat12 => val := GetFat12(clst);
        case Fat16 => val := GetFat16(clst);
        case Fat32 => val := GetFat32(clst);
      }
    }

    /** Half of the FS_FAT12 arm of put_fat: one of the entry's two bytes. */
    method PutHalf12(k: nat, second: bool, odd: bool, val: dword) returns (b: byte)
      requires Valid() && k < g.fsize * 512
      modifies `disk, `vol, `wflag, `winsect, win
      ensures Valid() && FirstFat(g, vol) == Patch(old(FirstFat(g, vol)), k, [b])
      ensures Half12(second, odd, val, old(FirstFat(g, vol)[k]), b)
      ensures OnlyFatsChange(g, old(vol), vol) && g.InFirstFat(winsect)
    {
      var x := LoadByte(k);
      if second {
        b := SecondByte12(odd, val, x);
      } else {
        b := FirstByte12(odd, val, x);
      }
      Store(k, [b]);
    }

    /** The FS_FAT12 arm of put_fat: the two bytes may lie in different sectors. */
    method PutFat12(clst: dword, val: dword)
      requires Valid() && g.ty == Fat12 && clst < g.nFatent
      modifies `disk, `vol, `wflag, `winsect, win
      ensures Valid() && Fat() == old(Fat())[clst := Masked(g.ty, val)]
      ensures OnlyEntryBytes(g.ty, old(FirstFat(g, vol)), FirstFat(g, vol), clst)
      ensures OnlyFatsChange(g, old(vol), vol) && g.InFirstFat(winsect)
    {
      EntryFits(g.ty, clst, g.nFatent);
      ghost var d0, fat := vol, FirstFat(g, vol);
      var bc := clst + clst / 2;
      var b0 := PutHalf12(bc, false, clst % 2 == 1, val);
      ghost var d1 := vol;
      var b1 := PutHalf12(bc + 1, true, clst % 2 == 1, val);
      OnlyFatsChangeTwice(g, d0, d1, vol);
      Bytes12Hold(clst % 2 == 1, val, fat[bc], fat[bc + 1], b0, b1);
      SetEntry12(fat, g.nFatent, clst, bc, val, b0, b1);
    }

    method PutFat16(clst: dword, val: dword)
      requires Valid() && g.ty == Fat16 && clst < g.nFatent
      modifies `disk, `vol, `wflag, `winsect, win
      ensures Valid() && Fat() == old(Fat())[clst := Masked(g.ty, val)]
      ensures OnlyEntryBytes(g.ty, old(FirstFat(g, vol)), FirstFat(g, vol), clst)
      ensures OnlyFatsChange(g, old(vol), vol) && g.InFirstFat(winsect)
    {
      EntryFits(g.ty, clst, g.nFatent);
      ghost var fat := FirstFat(g, vol);
      var k := clst * 2;
      var _ := LoadWord(k);
      Store(k, WordBytes(val % 0x1_0000));
      SetEntry16(fat, g.nFatent, clst, val);
    }

    /** The FS_FAT32 arm of put_fat: the upper four bits of the entry are kept. */
    method PutFat32(clst: dword, val: dword)
      requires Valid() && g.ty == Fat32 && clst < g.nFatent
      modifies `disk, `vol, `wflag, `winsect, win
      ensures Valid() && Fat() == old(Fat())[clst := Masked(g.ty, val)]
      ensures OnlyEntryBytes(g.ty, old(FirstFat(g, vol)), FirstFat(g, vol), clst)
      ensures OnlyFatsChange(g, old(vol), vol) && g.InFirstFat(winsect)
    {
      EntryFits(g.ty, clst, g.nFatent);
      ghost var fat := FirstFat(g, vol);
      var k := clst * 4;
      var x := LoadDword(k);
      var v := WithReserved(val, x);
      Store(k, DwordBytes(v));
      ReservedBits(v);
      TopByte(fat[k], fat[k + 1], fat[k + 2], fat[k + 3]);
      SetEntry32(fat, g.nFatent, clst, val, v);
    }

    /** put_fat */
    method PutFat(clst: dword, val: dword) returns (res: FResult)
      requires Valid()
      modifies `disk, `vol, `wflag, `winsect, win
      ensures Valid() && OnlyFatsChange(g, old(vol), vol)
      ensures res == if 2 <= clst < g.nFatent then Ok else IntErr
      ensures res == Ok ==> Fat() == old(Fat())[clst := Masked(g.ty, val)] && g.InFirstFat(winsect)
      ensures res == Ok ==> OnlyEntryBytes(g.ty, old(FirstFat(g, vol)), FirstFat(g, vol), clst)
      ensures res != Ok ==> vol == old(vol) && winsect == old(winsect) && wflag == old(wflag)
    {
      if clst < 2 || clst >= g.nFatent { return IntErr; }
      match g.ty {
        case Fat12 => PutFat12(clst, val);
        case Fat16 => PutFat16(clst, val);
        case Fat32 => PutFat32(clst, val);
      }
      res := Ok;
    }

    /** A known free count is right. */
    ghost predicate FreeKnown()
      requires Valid()
      reads `disk, `vol, `winsect, `wflag, `freeClst, win
    {
      freeClst <= g.nFatent - 2 ==> freeClst == FreeCount(Fat())
    }

    /** The search loop of create_chain: the first free cluster after `scl`, going around.
        0: none; 1: a corrupt entry was met. */
    method FindFree(scl: dword) returns (ncl: dword)
      requires Valid() && 1 <= scl < g.nFatent
      modifies `disk, `wflag, `winsect, win
      ensures Valid() && WindowStays(old(winsect))
      ensures ncl == 0 ==> NoneFree(Fat()) && !HasCorrupt(Fat())
      ensures ncl == 1 ==> CorruptAfter(Fat(), scl)
      ensures ncl >= 2 ==> FirstFreeAfter(Fat(), scl, ncl)
    {
      ncl := scl;
      ghost var fat, wrapped := Fat(), false;
      while true
        invariant Valid() && WindowStays(old(winsect))
        invariant if wrapped then 2 <= ncl < scl else scl <= ncl
        invariant ncl < g.nFatent
        invariant forall c :: scl < c < (if wrapped then g.nFatent else ncl + 1) ==> fat[c] >= 2
        invariant wrapped ==> forall c :: 2 <= c <= ncl ==> fat[c] >= 2
        decreases if wrapped then scl - ncl else g.nFatent + g.nFatent - ncl
      {
        ncl := ncl + 1;
        if ncl >= g.nFatent {
          ncl := 2;
          wrapped := true;
          if ncl > scl { return 0; }
        }
        var cs := GetFat(ncl);
        assert cs == fat[ncl];
        if cs == 0 { break; }
        if cs == 1 || cs == DWORD_MAX {
          assert FirstAfter(fat, scl, ncl, 1);
          return cs;
        }
        if ncl == scl { return 0; }
      }
    }

    /** The middle of create_chain: choose a cluster, the neighbour of `clst` if it is free. */
    method Choose(clst: dword, start: dword) returns (ncl: dword)
      requires Valid() && 1 <= start < g.nFatent
      requires if clst == 0 then start == SearchStart(Fat(), 0, lastClst) else clst == start >= 2
      modifies `disk, `wflag, `winsect, win
      ensures Valid() && WindowStays(old(winsect))
      ensures ncl == 0 ==> NoneFree(Fat()) && !HasCorrupt(Fat())
      ensures ncl == 1 ==> HasCorrupt(Fat())
      ensures clst != 0 && Fat()[NextTo(Fat(), clst)] == 1 ==> ncl == 1
      ensures ncl == 1 && (clst == 0 || Fat()[NextTo(Fat(), clst)] != 1) ==>
                CorruptAfter(Fat(), SearchStart(Fat(), clst, lastClst))
      ensures ncl >= 2 ==> IsCluster(Fat(), ncl) && Fat()[ncl] == 0
      ensures ncl >= 2 && (clst == 0 || Fat()[NextTo(Fat(), clst)] != 0) ==>
                FirstFreeAfter(Fat(), SearchStart(Fat(), clst, lastClst), ncl)
      ensures clst != 0 && Fat()[NextTo(Fat(), clst)] == 0 ==> ncl == NextTo(Fat(), clst)
    {
      var scl := start;
      ncl := 0;
      if scl == clst {
        ncl := scl + 1;
        if ncl >= g.nFatent { ncl := 2; }
        assert ncl == NextTo(Fat(), clst);
        var cs := GetFat(ncl);
        if cs == 1 || cs == DWORD_MAX {
          assert IsCluster(Fat(), ncl);
          return cs;
        }
        if cs != 0 {
          cs := lastClst;
          if cs >= 2 && cs < g.nFatent { scl := cs; }
          ncl := 0;
        }
      }
      if ncl == 0 {
        assert scl == SearchStart(Fat(), clst, lastClst);
        ncl := FindFree(scl);
      }
    }

    /** Marks `ncl` as the end of a chain and links it from `clst`, if there is one. */
    method Link(clst: dword, ncl: dword)
      requires Valid() && IsCluster(Fat(), ncl)
      requires clst == 0 || IsCluster(Fat(), clst)
      modifies `disk, `vol, `wflag, `winsect, win
      ensures Valid() && OnlyFatsChange(g, old(vol), vol) && g.InFirstFat(winsect)
      ensures Fat() == Grown(old(Fat()), clst, ncl, Masked(g.ty, EOC))
    {
      LinkFits(g.ty, g.nFatent, ncl);
      var _ := PutFat(ncl, EOC);
      if clst != 0 {
        ghost var v1 := vol;
        var _ := PutFat(clst, ncl);
        OnlyFatsChangeTwice(g, old(vol), v1, vol);
      }
    }

    /** The end of create_chain: link the chosen cluster and account for it. */
    method Take(clst: dword, ncl: dword) returns (r: dword)
      requires Valid() && IsCluster(Fat(), ncl) && Fat()[ncl] == 0 && freeClst != 0
      requires clst == 0 || (IsCluster(Fat(), clst) && Fat()[clst] != 0)
      modifies `disk, `vol, `wflag, `winsect, `freeClst, `lastClst, `fsiFlag, win
      ensures Valid() && OnlyFatsChange(g, old(vol), vol) && g.InFirstFat(winsect)
      ensures r == ncl == lastClst && fsiFlag && Fat() == Grown(old(Fat()), clst, ncl, Masked(g.ty, EOC))
      ensures old(FreeKnown()) ==> FreeKnown()
      ensures freeClst == if old(freeClst) <= g.nFatent - 2 then old(freeClst) - 1 else old(freeClst)
    {
      LinkFits(g.ty, g.nFatent, ncl);
      GrownCount(Fat(), clst, ncl, Masked(g.ty, EOC));
      Link(clst, ncl);
      lastClst := ncl;
      if freeClst <= g.nFatent - 2 { freeClst := freeClst - 1; }
      fsiFlag := true;
      r := ncl;
    }

    /** create_chain: stretch the chain at `clst`, or start one when `clst` is 0. */
    method CreateChain(clst: dword) returns (r: dword)
      requires Valid()
      modifies `disk, `vol, `wflag, `winsect, `freeClst, `lastClst, `fsiFlag, win
      ensures Valid() && OnlyFatsChange(g, old(vol), vol) && WindowStays(old(winsect))
      ensures old(FreeKnown()) ==> FreeKnown()
      ensures CreateOutcome(old(Fat()), old(freeClst), old(lastClst), clst, r)
      ensures if Allocated(old(Fat()), clst, r)
              then Fat() == Grown(old(Fat()), clst, r, Masked(g.ty, EOC)) && lastClst == r && fsiFlag
                   && g.InFirstFat(winsect)
              else vol == old(vol) && freeClst == old(freeClst) && lastClst == old(lastClst)
      ensures Allocated(old(Fat()), clst, r) ==>
                freeClst == if old(freeClst) <= g.nFatent - 2 then old(freeClst) - 1 else old(freeClst)
    {
      ghost var fat := Fat();
      var scl: dword;
      if clst == 0 {
        scl := lastClst;
        if scl == 0 || scl >= g.nFatent { scl := 1; }
      } else {
        var cs := GetFat(clst);
        if cs < 2 { return 1; }
        if cs == DWORD_MAX { return cs; }
        if cs < g.nFatent { return cs; }
        scl := clst;
      }
      if freeClst == 0 { return 0; }
      var ncl := Choose(clst, scl);
      if ncl < 2 { return ncl; }
      r := Take(clst, ncl);
    }

    /** The loop of remove_chain.  It ends on any table: every pass frees an entry in use. */
    method FreeChain(start: dword, ghost chain: seq<nat>) returns (res: FResult)
      requires Valid() && IsCluster(Fat(), start)
      modifies `disk, `vol, `wflag, `winsect, `freeClst, `fsiFlag, win
      ensures Valid() && OnlyFatsChange(g, old(vol), vol) && WindowStays(old(winsect))
      ensures old(FreeKnown()) ==> FreeKnown()
      ensures IsChain(old(Fat()), chain) && chain[0] == start ==> res == Ok && Fat() == Cut(old(Fat()), chain, 0, 0)
      ensures IsTorn(old(Fat()), chain) && chain[0] == start ==>
                && res == (if old(Fat())[chain[|chain| - 1]] == 0 then Ok else IntErr)
                && Fat() == Cut(old(Fat()), chain[..|chain| - 1], 0, 0)
    {
      ghost var fat := Fat();
      ghost var torn := IsTorn(fat, chain) && chain[0] == start;
      ghost var proper, k := IsChain(fat, chain) && chain[0] == start, 0;
      var clst := start;
      while true
        invariant Valid() && OnlyFatsChange(g, old(vol), vol) && WindowStays(old(winsect))
        invariant old(FreeKnown()) ==> FreeKnown()
        invariant IsCluster(Fat(), clst)
        invariant proper || torn ==> k < |chain| && clst == chain[k] && Fat() == Cut(fat, chain[..k], 0, 0)
        decreases g.nFatent - FreeCount(Fat())
      {
        if proper { CutStep(fat, chain, k); }
        if torn { TornStep(fat, chain, k); }
        ghost var now := Fat();
        FreeFromBound(now, 2);
        var nxt := GetFat(clst);
        if nxt == 0 { return Ok; }
        if nxt == 1 { return IntErr; }
        FreeCountInUse(now, clst);
        ReleaseCluster(clst);
        clst := nxt;
        if !(clst < g.nFatent) { break; }
        k := k + 1;
      }
      res := Ok;
    }

    /** Frees one cluster in use and counts it. */
    method ReleaseCluster(clst: dword)
      requires Valid() && IsCluster(Fat(), clst) && Fat()[clst] != 0
      modifies `disk, `vol, `wflag, `winsect, `freeClst, `fsiFlag, win
      ensures Valid() && OnlyFatsChange(g, old(vol), vol) && g.InFirstFat(winsect)
      ensures Fat() == old(Fat())[clst := 0] && FreeCount(Fat()) == old(FreeCount(Fat())) + 1
      ensures old(FreeKnown()) ==> FreeKnown()
      ensures if old(freeClst) < g.nFatent - 2 then freeClst == old(freeClst) + 1 && fsiFlag
              else freeClst == old(freeClst) && fsiFlag == old(fsiFlag)
    {
      FreeFromUpdate(Fat(), 2, clst, 0);
      FreeCountInUse(Fat(), clst);
      var _ := PutFat(clst, 0);
      if freeClst < g.nFatent - 2 {
        freeClst := freeClst + 1;
        fsiFlag := true;
      }
    }

    /** remove_chain: free the chain from `clst` on, after making `pclst` (unless 0) an end. */
    method RemoveChain(clst: dword, pclst: dword, ghost chain: seq<nat>) returns (res: FResult)
      requires Valid()
      modifies `disk, `vol, `wflag, `winsect, `freeClst, `fsiFlag, win
      ensures Valid() && OnlyFatsChange(g, old(vol), vol) && WindowStays(old(winsect))
      ensures !IsCluster(Fat(), clst) || (pclst != 0 && !IsCluster(Fat(), pclst)) ==>
                res == IntErr && vol == old(vol) && freeClst == old(freeClst)
      ensures Removable(old(Fat()), clst, pclst, chain) ==>
                && res == Ok && Fat() == Cut(old(Fat()), chain, pclst, Masked(g.ty, EOC))
                && (old(FreeKnown()) ==> FreeKnown())
      // of a damaged chain all but the last cluster are freed, and only a corrupt entry is reported
      ensures pclst == 0 && IsTorn(old(Fat()), chain) && chain[0] == clst ==>
                && res == (if old(Fat())[chain[|chain| - 1]] == 0 then Ok else IntErr)
                && Fat() == Cut(old(Fat()), chain[..|chain| - 1], 0, 0)
    {
      if clst < 2 || clst >= g.nFatent { return IntErr; }
      ghost var fat, v0 := Fat(), vol;
      ghost var known := FreeKnown();
      if pclst != 0 {
        res := PutFat(pclst, EOC);
        if res != Ok { return; }
        if Removable(fat, clst, pclst, chain) {
          FreeFromUpdate(fat, 2, pclst, Masked(g.ty, EOC));
          LinkFits(g.ty, g.nFatent, 2);
          ChainUnaffected(fat, Fat(), chain);
          assert known ==> FreeKnown();
        }
      }
      ghost var v1 := vol;
      res := FreeChain(clst, chain);
      OnlyFatsChangeTwice(g, v0, v1, vol);
      assert Removable(fat, clst, pclst, chain) ==> Fat() == Cut(fat, chain, pclst, Masked(g.ty, EOC));
    }

    /** The FS_FAT12 scan of f_getfree. */
    method CountFree12() returns (res: FResult, nfree: dword)
      requires Valid()
      modifies `disk, `wflag, `winsect, win
      ensures Valid()
      ensures if HasCorrupt(Fat()) then res == IntErr else res == Ok && nfree == FreeCount(Fat())
    {
      ghost var fat := Fat();
      var clst: dword := 2;
      nfree := 0;
      FreeFromBound(fat, 2);
      while true
        invariant Valid()
        invariant 2 <= clst < g.nFatent
        invariant nfree + FreeFrom(fat, clst) == FreeCount(fat)
        invariant forall c :: 2 <= c < clst ==> fat[c] != 1
        decreases g.nFatent - clst
      {
        var stat := GetFat(clst);
        if stat == 1 {
          assert IsCluster(fat, clst);
          return IntErr, nfree;
        }
        if stat == 0 { nfree := nfree + 1; }
        clst := clst + 1;
        if !(clst < g.nFatent) { break; }
      }
      res := Ok;
    }

    /** The entry at offset `i` of sector `s` of a FAT16 or FAT32 table; a new sector is loaded
        into the window first. */
    method ScanEntry(i: nat, s: nat, ghost e: nat) returns (v: nat)
      requires Valid() && g.ty != Fat12 && e < g.nFatent
      requires i != 0 ==> winsect == g.fatbase + s
      requires i + Width(g.ty) <= 512 && Offset(g.ty, e) == 512 * s + i
      modifies `disk, `wflag, `winsect, win
      ensures Valid() && winsect == g.fatbase + s && g.InFirstFat(winsect)
      ensures v == Fat()[e]
    {
      EntryFits(g.ty, e, g.nFatent);
      if i == 0 {
        var _ := MoveWindow(g.fatbase + s);
      }
      EntryIs(g.ty, FirstFat(g, vol), e);
      InSector(s, i);
      InSector(s, i + 1);
      if g.ty == Fat16 {
        v := Word(win[i], win[i + 1]);
      } else {
        InSector(s, i + 2);
        InSector(s, i + 3);
        v := Dword(win[i], win[i + 1], win[i + 2], win[i + 3]) % 0x1000_0000;
      }
    }

    /** The FS_FAT16 and FS_FAT32 scan of f_getfree: it walks the sectors of the table from entry 0. */
    method CountFreeWide() returns (nfree: dword)
      requires Valid() && g.ty != Fat12
      modifies `disk, `wflag, `winsect, win
      ensures Valid()
      ensures nfree == FreeFrom(Fat(), 0)
    {
      ghost var fat, e := Fat(), 0;   // entry e is at offset i of sector s
      var clst, s, i: nat := g.nFatent, 0, 0;
      nfree := 0;
      FreeFromBound(fat, 0);
      while true
        invariant Valid()
        invariant e + clst == g.nFatent && 0 < clst
        invariant Offset(g.ty, e) == 512 * s + i && i < 512 && Aligned(g.ty, i)
        invariant i != 0 ==> winsect == g.fatbase + s
        invariant nfree + FreeFrom(fat, e) == FreeFrom(fat, 0)
        decreases clst
      {
        var i' := AdvanceOffset(g.ty, i);
        var v := ScanEntry(i, s, e);
        assert FreeFrom(fat, e) == (if v == 0 then 1 else 0) + FreeFrom(fat, e + 1);
        if v == 0 { nfree := nfree + 1; }
        i, e := i', e + 1;
        if i == 0 { s := s + 1; }
        clst := clst - 1;
        if clst == 0 { break; }
      }
    }

    /** f_getfree on a mounted volume. */
    method GetFree() returns (res: FResult, nclst: dword)
      requires Valid()
      modifies `disk, `wflag, `winsect, `freeClst, `fsiFlag, win
      ensures Valid()
      ensures res == Ok ==> nclst == freeClst
      ensures freeClst != old(freeClst) ==> fsiFlag
      ensures if old(freeClst) <= g.nFatent - 2 then res == Ok && freeClst == old(freeClst)
              else if g.ty == Fat12 then
                if HasCorrupt(Fat()) then res == IntErr && freeClst == old(freeClst)
                else res == Ok && freeClst == FreeCount(Fat())
              else res == Ok && freeClst == FreeFrom(Fat(), 0)
    {
      if freeClst <= g.nFatent - 2 { return Ok, freeClst; }
      if g.ty == Fat12 {
        res, nclst := CountFree12();
      } else {
        nclst := CountFreeWide();
        res := Ok;
      }
      if res == Ok {
        freeClst := nclst;
        fsiFlag := true;
      }
    }
  }
}
