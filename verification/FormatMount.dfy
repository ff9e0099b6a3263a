/** The round trip from f_mkfs to mount_volume: the new volume is mounted as it was laid out, and
    its FAT describes an empty volume. */
module FormatMount {
  import opened Bytes
  import opened Sectors
  import opened FatEntries
  import opened FatChains
  import opened FatVolume
  import opened FileLayout
  import opened MkfsLayout
  import opened BootRecord
  import opened MountVolume
  import opened Mkfs

  /** The chains of a new volume: none, or the root directory of FAT32. */
  ghost function NewChains(ty: FatType): set<seq<nat>> {
    if ty.Fat32? then {[2]} else {}
  }

  /** The entries of a new FAT. */
  ghost predicate IsNewFat(ty: FatType, fat: FatMap) {
    && |fat| > 3
    && fat[0] == (match ty case Fat12 => 0xFF8 case Fat16 => 0xFFF8 case Fat32 => 0x0FFF_FFF8)
    && fat[1] == (match ty case Fat12 => 0xFFF case Fat16 => 0xFFFF case Fat32 => 0x0FFF_FFFF)
    && (ty.Fat32? ==> fat[2] == 0x0FFF_FFFF && 0x0FFF_FFFF >= |fat|)
    && forall c :: (if ty.Fat32? then 3 else 2) <= c < |fat| ==> fat[c] == 0
  }

  /** Byte `k` of a run of sectors that starts with `first` and is zero after it. */
  lemma FirstThenZeros(ss: seq<Sector>, first: Sector, k: nat)
    requires AreSectors(ss) && 0 < |ss| && ss[0] == first && forall i :: 1 <= i < |ss| ==> ss[i] == Zeros(512)
    requires k < 512 * |ss|
    ensures |Flat(ss)| == 512 * |ss| && Flat(ss)[k] == if k < 512 then first[k] else 0
  {
    FlatLength(ss);
    FlatAt(ss, k / 512, k % 512);
  }

  /** The bytes of a new FAT. */
  ghost predicate NewBytes(ty: FatType, fat: seq<byte>) {
    512 <= |fat| && forall k :: 0 <= k < |fat| ==> fat[k] == if k < 512 then Head(ty)[k] else 0
  }

  lemma NewFatBytes(g: Geometry, disk: Disk)
    requires g.Valid() && IsDisk(g, disk) && 0 < g.fsize && Area(disk, g.fatbase, g.fsize, Head(g.ty))
    ensures NewBytes(g.ty, FirstFat(g, disk))
  {
    AreaBytes(disk, g.fatbase, g.fsize, Head(g.ty), disk[g.fatbase..g.fatbase + g.fsize], FirstFat(g, disk));
  }

  lemma AreaBytes(disk: Disk, sect: nat, n: nat, first: Sector, ss: seq<Sector>, fat: seq<byte>)
    requires Area(disk, sect, n, first) && 0 < n && ss == disk[sect..sect + n] && AreSectors(ss) && |first| == 512
             && fat == Flat(ss)
    ensures |fat| == 512 * n && forall k :: 0 <= k < |fat| ==> fat[k] == if k < 512 then first[k] else 0
  {
    RunOfFirst(ss, first, fat);
  }

  lemma RunOfFirst(ss: seq<Sector>, first: Sector, fat: seq<byte>)
    requires AreSectors(ss) && 0 < |ss| && ss[0] == first && forall i :: 1 <= i < |ss| ==> ss[i] == Zeros(512)
    requires fat == Flat(ss)
    ensures |fat| == 512 * |ss| && forall k :: 0 <= k < |fat| ==> fat[k] == if k < 512 then first[k] else 0
  {
    FlatLength(ss);
    forall k | 0 <= k < |fat| ensures fat[k] == if k < 512 then first[k] else 0 { FirstThenZeros(ss, first, k); }
  }

  lemma NewEntry(ty: FatType, fat: seq<byte>, c: nat)
    requires NewBytes(ty, fat) && Offset(ty, c) + Width(ty) <= |fat|
    ensures var v := Entry(ty, fat, c);
            && (c == 0 ==> v == match ty case Fat12 => 0xFF8 case Fat16 => 0xFFF8 case Fat32 => 0x0FFF_FFF8)
            && (c == 1 ==> v == match ty case Fat12 => 0xFFF case Fat16 => 0xFFFF case Fat32 => 0x0FFF_FFFF)
            && (c >= 2 ==> v == if ty.Fat32? && c == 2 then 0x0FFF_FFFF else 0)
  {
    match ty
    case Fat12 => NewEntry12(fat, c);
    case Fat16 => NewEntry16(fat, c);
    case Fat32 => NewEntry32(fat, c);
  }

  lemma NewEntry12(fat: seq<byte>, c: nat)
    requires NewBytes(Fat12, fat) && c + c / 2 + 2 <= |fat|
    ensures Entry(Fat12, fat, c) == if c == 0 then 0xFF8 else if c == 1 then 0xFFF else 0
  {
    assert fat[0] == 0xF8 && fat[1] == 0xFF && fat[2] == 0xFF;
    if c >= 2 { assert fat[c + c / 2] == 0 && fat[c + c / 2 + 1] == 0; }
  }

  lemma NewEntry16(fat: seq<byte>, c: nat)
    requires NewBytes(Fat16, fat) && c * 2 + 2 <= |fat|
    ensures Entry(Fat16, fat, c) == if c == 0 then 0xFFF8 else if c == 1 then 0xFFFF else 0
  {
    assert fat[0] == 0xF8 && fat[1] == 0xFF && fat[2] == 0xFF && fat[3] == 0xFF;
    if c >= 2 { assert fat[c * 2] == 0 && fat[c * 2 + 1] == 0; }
  }

  lemma NewEntry32(fat: seq<byte>, c: nat)
    requires NewBytes(Fat32, fat) && c * 4 + 4 <= |fat|
    ensures Entry(Fat32, fat, c) == if c == 0 then 0x0FFF_FFF8 else if c == 1 || c == 2 then 0x0FFF_FFFF else 0
  {
    if c == 0 {
      HeadBytes(fat, 0, 0xF8);
      Entry32Is(fat, 0, 0xF8, 0xFF, 0xFF, 0x0F);
    } else if c == 1 {
      HeadBytes(fat, 1, 0xFF);
      Entry32Is(fat, 1, 0xFF, 0xFF, 0xFF, 0x0F);
    } else if c == 2 {
      HeadBytes(fat, 2, 0xFF);
      Entry32Is(fat, 2, 0xFF, 0xFF, 0xFF, 0x0F);
    } else {
      HeadOf32();
      Entry32Is(fat, c, 0, 0, 0, 0);
    }
  }

  /** The first three entries differ in their first byte only, once the reserved bits are gone. */
  lemma HeadBytes(fat: seq<byte>, c: nat, first: byte)
    requires NewBytes(Fat32, fat) && c < 3 && first == if c == 0 then 0xF8 else 0xFF
    ensures fat[4 * c] == first && fat[4 * c + 1] == 0xFF && fat[4 * c + 2] == 0xFF && fat[4 * c + 3] % 16 == 0x0F
  {
    HeadOf32();
  }

  lemma HeadOf32()
    ensures var h := Head(Fat32);
            && h[0] == 0xF8 && h[1] == 0xFF && h[2] == 0xFF && h[3] == 0xFF
            && h[4] == 0xFF && h[5] == 0xFF && h[6] == 0xFF && h[7] == 0xFF && h[8] == 0xFF && h[9] == 0xFF
            && h[10] == 0xFF && h[11] == 0x0F
            && forall k :: 12 <= k < 512 ==> h[k] == 0
  {
  }

  lemma NewFatIsWellFormed(ty: FatType, fat: FatMap)
    requires IsNewFat(ty, fat)
    ensures WellFormed(fat, NewChains(ty)) && FreeFrom(fat, 0) == FreeCount(fat)
    ensures FreeCount(fat) == if ty.Fat32? then |fat| - 3 else |fat| - 2
  {
    FreeFromReserved(fat);
    if ty.Fat32? {
      assert FreeFrom(fat, 2) == FreeFrom(fat, 3);
      AllFree(fat, 3);
      assert IsChain(fat, [2]) && [2] in NewChains(ty) && 2 in [2];
    } else {
      AllFree(fat, 2);
    }
  }

  /** A new volume is as the rest of the model assumes, mirrored, and empty. */
  lemma NewVolume(disk: Disk, l: Layout)
    requires IsFormatted(disk, l)
    ensures var g := VolumeOf(l).OnDisk(|disk|);
            && HasData(g) && IsDisk(g, disk) && Mirrored(g, disk)
            && IsNewFat(l.ty, FatOf(g, disk)) && WellFormed(FatOf(g, disk), NewChains(l.ty))
            && FreeCount(FatOf(g, disk)) == if l.ty.Fat32? then l.nClusters - 1 else l.nClusters
  {
    var g := VolumeOf(l).OnDisk(|disk|);
    NewGeometry(disk, l);
    NewFatBytes(g, disk);
    var fat := FatOf(g, disk);
    forall c | 0 <= c < |fat|
      ensures c == 0 ==> fat[0] == match g.ty case Fat12 => 0xFF8 case Fat16 => 0xFFF8 case Fat32 => 0x0FFF_FFF8
      ensures c == 1 ==> fat[1] == match g.ty case Fat12 => 0xFFF case Fat16 => 0xFFFF case Fat32 => 0x0FFF_FFFF
      ensures c >= 2 ==> fat[c] == if g.ty.Fat32? && c == 2 then 0x0FFF_FFFF else 0
    {
      EntryFits(g.ty, c, g.nFatent);
      NewEntry(g.ty, FirstFat(g, disk), c);
    }
    NewFatIsWellFormed(l.ty, fat);
  }

  /** The root directory is empty: on FAT32 it is cluster 2, else it lies between FATs and data. */
  lemma NewRoot(disk: Disk, l: Layout)
    requires IsFormatted(disk, l)
    ensures var g := VolumeOf(l).OnDisk(|disk|);
            && HasData(g) && IsDisk(g, disk)
            && (l.ty.Fat32? ==> forall j :: 0 <= j < g.csize ==> Cluster(g, disk, 2)[j] == Zeros(512))
            && (!l.ty.Fat32? ==> forall i :: VolumeOf(l).dirbase <= i < g.database ==> disk[i] == Zeros(512))
  {
    NewGeometry(disk, l);
    var g := VolumeOf(l).OnDisk(|disk|);
    RootPlace(disk, l);
    if l.ty.Fat32? { FirstCluster(g, disk); }
  }

  lemma RootPlace(disk: Disk, l: Layout)
    requires Sound(l) && EmptyRoot(disk, l)
    ensures l.ty.Fat32? ==>
              l.vol + l.System() + l.csize <= |disk|
              && forall i :: l.vol + l.System() <= i < l.vol + l.System() + l.csize ==> disk[i] == Zeros(512)
    ensures !l.ty.Fat32? ==>
              l.vol + l.System() <= |disk|
              && forall i :: VolumeOf(l).dirbase <= i < l.vol + l.System() ==> disk[i] == Zeros(512)
  {
  }

  lemma FirstCluster(g: Geometry, disk: Disk)
    requires HasData(g) && IsDisk(g, disk) && g.database + g.csize <= |disk|
    requires forall i :: g.database <= i < g.database + g.csize ==> disk[i] == Zeros(512)
    ensures forall j :: 0 <= j < g.csize ==> Cluster(g, disk, 2)[j] == Zeros(512)
  {
    BaseIs(g, 2);
    BaseBounds(g, 2);
    forall j | 0 <= j < g.csize ensures Cluster(g, disk, 2)[j] == Zeros(512) {
      assert Cluster(g, disk, 2)[j] == disk[g.database + j];
    }
  }

  /** What mounting learns from FSInfo. */
  lemma InfoKnown(disk: Disk, l: Layout, freeClst: dword, lastClst: dword)
    requires IsFormatted(disk, l) && l.ty.Fat32? && Known(disk, l.ty, l.vol, freeClst, lastClst)
    ensures freeClst == l.nClusters - 1 && lastClst == 2
  {
    Extents(l);
    var b, s := disk[l.vol], disk[l.vol + 1];
    assert FieldsOf(b).fsInfo32 == Word(b[48], b[49]) == 1;
    assert b[48] == 1 && b[49] == 0;
    assert s[..4] == [0x52, 0x52, 0x61, 0x41] && s[484..488] == [0x72, 0x72, 0x41, 0x61];
    BytesOfDword(2, 0, 0, 0);
  }

  lemma NewGeometry(disk: Disk, l: Layout)
    requires IsFormatted(disk, l)
    ensures var g := VolumeOf(l).OnDisk(|disk|);
            && HasData(g) && IsDisk(g, disk) && Mirrored(g, disk)
            && 0 < g.fsize && Area(disk, g.fatbase, g.fsize, Head(g.ty))
  {
    NewHasData(l, |disk|);
    MirroredAreas(VolumeOf(l).OnDisk(|disk|), disk);
  }

  lemma NewHasData(l: Layout, sectors: nat)
    requires Sound(l) && l.vol + l.size <= sectors < 0x1_0000_0000
    ensures HasData(VolumeOf(l).OnDisk(sectors)) && 0 < l.fatSize
  {
    WholeBounds(l.size - l.System(), l.csize);
  }

  lemma MirroredAreas(g: Geometry, disk: Disk)
    requires g.Valid() && IsDisk(g, disk) && Area(disk, g.fatbase, g.fsize, Head(g.ty))
    requires g.nFats == 2 ==> Area(disk, g.fatbase + g.fsize, g.fsize, Head(g.ty))
    ensures Mirrored(g, disk)
  {
  }

  method MountNew(disk: Disk, l: Layout) returns (r: MountResult)
    requires IsFormatted(disk, l)
    ensures r.Mounted? && r.v == VolumeOf(l)
    ensures var g := VolumeOf(l).OnDisk(|disk|);
            && HasData(g) && IsDisk(g, disk) && Mirrored(g, disk) && WellFormed(FatOf(g, disk), NewChains(l.ty))
            && (l.ty.Fat32? ==> r.freeClst == FreeCount(FatOf(g, disk)) && r.lastClst == 2)
  {
    r := Mount(disk, l);
    NewVolume(disk, l);
    if l.ty.Fat32? { InfoKnown(disk, l, r.freeClst, r.lastClst); }
  }

  /** What is formatted is mounted, with the same sub-type, cluster size, number of clusters, FAT
      and data area; on FAT32 the free count that FSInfo supplies is the right one. */
  method FormatAndMount(drive: Drive, opt: Params, szBuf: nat, vsn: dword, chs: seq<byte>)
    returns (res: MkfsResult, l: Layout, r: MountResult)
    requires IsMedium(drive.disk) && |chs| == 6
    modifies drive
    ensures res.Formatted? <==> CanFormat(opt, szBuf, |old(drive.disk)|)
    ensures res.Formatted? ==> r.Mounted? && r.v == VolumeOf(l) && IsFormatted(drive.disk, l)
    ensures res.Formatted? ==>
              var g := r.v.OnDisk(|drive.disk|);
              && HasData(g) && IsDisk(g, drive.disk) && Mirrored(g, drive.disk)
              && WellFormed(FatOf(g, drive.disk), NewChains(l.ty))
              && (l.ty.Fat32? ==> r.freeClst == FreeCount(FatOf(g, drive.disk)) && r.lastClst == 2)
  {
    res, l := drive.Format(opt, szBuf, vsn, chs);
    r := NoFilesystem;
    if res.Formatted? {
      r := MountNew(drive.disk, l);
    }
  }
}
