/** f_mkfs for FAT12, FAT16 and FAT32 (fatfs/ff.c) on a drive, and the empty volume it leaves. */
module Mkfs {
  import opened Bytes
  import opened Sectors
  import opened FatEntries
  import opened FatChains
  import opened FatVolume
  import opened FileLayout
  import opened MkfsLayout
  import opened BootRecord
  import opened MountVolume

  datatype MkfsResult = Formatted | Aborted | InvalidParameter | NotEnoughCore

  /** MKFS_PARM with an alignment of one sector. */
  datatype Params = Params(fat: bool, fat32: bool, sfd: bool, nFats: nat, nRoot: nat, auSize: dword)

  const N_SEC_TRACK: nat := 63

  function Zeros(n: nat): (s: seq<byte>)
    ensures |s| == n && forall i :: 0 <= i < n ==> s[i] == 0
  {
    seq(n, i => 0)
  }

  /** The first sector of a new FAT: the reserved entries and, for FAT32, the root directory's. */
  function Head(ty: FatType): (s: Sector)
    ensures |s| == 512
  {
    match ty
    case Fat12 => [0xF8, 0xFF, 0xFF] + Zeros(509)
    case Fat16 => [0xF8, 0xFF, 0xFF, 0xFF] + Zeros(508)
    case Fat32 => [0xF8, 0xFF, 0xFF, 0xFF, 0xFF, 0xFF, 0xFF, 0xFF, 0xFF, 0xFF, 0xFF, 0x0F] + Zeros(500)
  }

  /** `n` sectors from `sect` on hold `first` and then zeros. */
  ghost predicate Area(disk: Disk, sect: nat, n: nat, first: Sector) {
    && sect + n <= |disk|
    && forall i :: sect <= i < sect + n ==> disk[i] == if i == sect then first else Zeros(512)
  }

  /** The copies of the FAT of a new volume. */
  ghost predicate NewFats(disk: Disk, l: Layout) {
    && Area(disk, l.vol + l.reserved, l.fatSize, Head(l.ty))
    && (l.nFats == 2 ==> Area(disk, l.vol + l.reserved + l.fatSize, l.fatSize, Head(l.ty)))
  }

  /** Sectors of the root directory of a new volume. */
  function RootSectors(l: Layout): nat {
    if l.ty.Fat32? then l.csize else l.nRoot / 16
  }

  /** It follows the FATs; that of FAT32 is the first cluster. */
  ghost predicate EmptyRoot(disk: Disk, l: Layout) {
    Area(disk, l.vol + l.reserved + (if l.nFats == 2 then l.fatSize + l.fatSize else l.fatSize), RootSectors(l),
         Zeros(512))
  }

  /** An FSInfo sector of a new volume: the signatures "RRaA", "rrAa" and 0xAA55, the free count, cluster 2 as the one
      that was allocated last, and zeros. */
  ghost predicate IsInfo(s: Sector, free: nat)
    requires |s| == 512
  {
    && s[0] == 0x52 && s[1] == 0x52 && s[2] == 0x61 && s[3] == 0x41 && (forall i :: 4 <= i < 484 ==> s[i] == 0)
    && s[484] == 0x72 && s[485] == 0x72 && s[486] == 0x41 && s[487] == 0x61
    && Dword(s[488], s[489], s[490], s[491]) == free && s[492] == 2 && (forall i :: 493 <= i < 510 ==> s[i] == 0)
    && s[510] == 0x55 && s[511] == 0xAA
  }

  /** FSInfo of FAT32, and the copies that are made of it and of the boot record. */
  ghost predicate InfoSectors(disk: Disk, l: Layout) {
    && l.vol + 8 <= |disk| && |disk[l.vol + 1]| == 512 && l.nClusters > 0
    && IsInfo(disk[l.vol + 1], l.nClusters - 1)
    && disk[l.vol + 6] == disk[l.vol] && disk[l.vol + 7] == disk[l.vol + 1]
  }

  /** What f_mkfs leaves on the drive. */
  ghost predicate IsFormatted(disk: Disk, l: Layout) {
    && IsMedium(disk) && Sound(l) && l.vol + l.size <= |disk|
    && Findable(disk, l.vol) && Describes(FieldsOf(disk[l.vol]), l)
    && NewFats(disk, l) && EmptyRoot(disk, l)
    && (l.ty.Fat32? ==> InfoSectors(disk, l))
  }

  /** What the partition entry says of the volume. */
  function SystemId(l: Layout): byte {
    if l.ty.Fat32? then 0x0C else if l.size >= 0x1_0000 then 0x06 else if l.ty.Fat16? then 0x04 else 0x01
  }

  /** A partition table with one entry, for `size` sectors from `start` on; its cylinder, head and sector bytes are
      anything, and so is its type. */
  ghost predicate IsTable(s: Sector, start: nat, size: nat)
    requires |s| == 512
  {
    && (forall i :: 0 <= i < 447 ==> s[i] == 0)
    && Dword(s[454], s[455], s[456], s[457]) == start && Dword(s[458], s[459], s[460], s[461]) == size
    && (forall i :: 462 <= i < 510 ==> s[i] == 0) && s[510] == 0x55 && s[511] == 0xAA
  }

  ghost predicate IsPartitioned(disk: Disk, l: Layout) {
    && |disk| > 0 && |disk[0]| == 512
    && IsTable(disk[0], l.vol, l.size)
    && disk[0][450] == (match l.ty
                        case Fat32 => 0x0C
                        case Fat16 => if l.size < 0x1_0000 then 0x04 else 0x06
                        case Fat12 => if l.size < 0x1_0000 then 0x01 else 0x06)
  }

  /** What a parameter counts for when it is not given properly. */
  function FatsOf(opt: Params): nat {
    if opt.nFats == 1 || opt.nFats == 2 then opt.nFats else 1
  }

  function RootOf(opt: Params): nat {
    if 0 < opt.nRoot <= 32768 && opt.nRoot % 16 == 0 then opt.nRoot else 512
  }

  class Drive {
    var disk: Disk

    method Write(sect: nat, secs: seq<Sector>)
      requires IsMedium(disk) && sect + |secs| <= |disk| && AreSectors(secs)
      modifies this
      ensures IsMedium(disk) && disk == Overwrite(old(disk), sect, secs)
    {
      disk := Overwrite(disk, sect, secs);
    }

    method WriteSector(sect: nat, sec: Sector)
      requires IsMedium(disk) && sect < |disk| && |sec| == 512
      modifies this
      ensures IsMedium(disk) && disk == old(disk)[sect := sec]
    {
      Write(sect, [sec]);
    }

    /** Fill an area from a buffer of `szBuf` sectors, of which only the first pass has `first`. */
    method FillArea(start: nat, count: nat, first: Sector, szBuf: nat)
      requires IsMedium(disk) && 0 < count && start + count <= |disk| && |first| == 512 && 0 < szBuf
      modifies this
      ensures IsMedium(disk) && |disk| == |old(disk)| && Area(disk, start, count, first)
      ensures forall i :: 0 <= i < |disk| && !(start <= i < start + count) ==> disk[i] == old(disk)[i]
    {
      var sect, nsect, head := start, count, first;
      while true
        invariant IsMedium(disk) && |disk| == |old(disk)| && |head| == 512
        invariant 0 < nsect <= count && sect + nsect == start + count
        invariant head == if sect == start then first else Zeros(512)
        invariant forall i :: start <= i < sect ==> disk[i] == if i == start then first else Zeros(512)
        invariant forall i :: 0 <= i < |disk| && !(start <= i < sect) ==> disk[i] == old(disk)[i]
        decreases nsect
      {
        var n := if nsect > szBuf then szBuf else nsect;
        Write(sect, [head] + seq(n - 1, _ => Zeros(512)));
        head := Zeros(512);
        sect, nsect := sect + n, nsect - n;
        if nsect == 0 { break; }
      }
    }

    /** The boot record. */
    method WriteBootRecord(l: Layout, vsn: dword) returns (rec: Sector)
      requires IsMedium(disk) && Sound(l) && l.vol + l.size <= |disk|
      modifies this
      ensures IsMedium(disk) && |disk| == |old(disk)| && disk == old(disk)[l.vol := rec]
      ensures IsBootRecord(rec, l, vsn)
    {
      var buf := new byte[512](_ => 0);
      FillBootRecord(buf, l, vsn);
      rec := buf[..];
      Write(l.vol, [rec]);
    }

    /** The backup of the boot record, FSInfo and its backup, on FAT32. */
    method WriteFsInfo(l: Layout, rec: Sector)
      requires IsMedium(disk) && Sound(l) && l.ty.Fat32? && l.vol + l.size <= |disk| && |rec| == 512
      modifies this
      ensures IsMedium(disk) && |disk| == |old(disk)|
      ensures rec == old(disk)[l.vol] ==> InfoSectors(disk, l)
      ensures forall i :: 0 <= i < |disk| && i != l.vol + 1 && i != l.vol + 6 && i != l.vol + 7 ==>
              disk[i] == old(disk)[i]
    {
      WriteSector(l.vol + 6, rec);
      var info := InfoSector(l.nClusters - 1);
      WriteSector(l.vol + 7, info);
      WriteSector(l.vol + 1, info);
    }

    method InfoSector(free: dword) returns (info: Sector)
      ensures |info| == 512 && IsInfo(info, free)
    {
      var buf := new byte[512](_ => 0);
      FillFsInfo(buf, free);
      info := buf[..];
    }

    /** Both copies of the FAT and the root directory. */
    method WriteAreas(l: Layout, szBuf: nat)
      requires IsMedium(disk) && Sound(l) && l.vol + l.size <= |disk| && 0 < szBuf
      modifies this
      ensures IsMedium(disk) && |disk| == |old(disk)| && NewFats(disk, l) && EmptyRoot(disk, l)
      ensures forall i :: 0 <= i < l.vol + l.reserved ==> disk[i] == old(disk)[i]
    {
      Extents(l);
      var sect := l.vol + l.reserved;
      FillArea(sect, l.fatSize, Head(l.ty), szBuf);
      sect := sect + l.fatSize;
      if l.nFats == 2 {
        FillArea(sect, l.fatSize, Head(l.ty), szBuf);
        sect := sect + l.fatSize;
      }
      ghost var d := disk;
      var nsect := if l.ty.Fat32? then l.csize else l.nRoot / 16;
      FillArea(sect, nsect, Zeros(512), szBuf);
      NewFatsKept(d, disk, l, sect);
    }

    /** create_partition with one entry. */
    method WritePartition(start: dword, size: dword, sys: byte, chs: seq<byte>)
      requires IsMedium(disk) && |chs| == 6
      modifies this
      ensures IsMedium(disk) && |disk| == |old(disk)|
      ensures Status(FieldsOf(disk[0])).OtherBoot? && PartitionStart(disk[0], 0) == start
      ensures IsTable(disk[0], start, size) && disk[0][450] == sys
      ensures disk[0][447..450] == chs[..3] && disk[0][451..454] == chs[3..]
      ensures forall i :: 1 <= i < |disk| ==> disk[i] == old(disk)[i]
    {
      var buf := new byte[512](_ => 0);
      FillPartitionTable(buf, start, size, sys, chs);
      ghost var s := buf[..];
      assert s[0] == 0 && s[510] == 0x55 && s[511] == 0xAA;
      Write(0, [buf[..]]);
      assert disk[0] == s;
    }

    /** f_mkfs of a whole drive or of one new partition on it. */
    method Format(opt: Params, szBuf: nat, vsn: dword, chs: seq<byte>) returns (res: MkfsResult, l: Layout)
      requires IsMedium(disk) && |chs| == 6
      modifies this
      ensures res.Formatted? ==> IsFormatted(disk, l) && Obeys(l, opt, |disk|) && (!opt.sfd ==> IsPartitioned(disk, l))
      ensures res.Formatted? ==> IsBootRecord(disk[l.vol], l, vsn) && LeastFat(l)
      ensures res.Formatted? <==> CanFormat(opt, szBuf, |old(disk)|)
      ensures (res.NotEnoughCore? <==> szBuf == 0) && (res.InvalidParameter? ==> !opt.fat && !opt.fat32)
      ensures !res.Formatted? ==> disk == old(disk)
      ensures |disk| == |old(disk)|
    {
      res, l := Plan(opt, szBuf, |disk|);
      if res.Formatted? {
        Extents(l);
        WriteVolume(l, szBuf, vsn);
        ghost var d := disk;
        RecordDescribes(d[l.vol], l, vsn);
        if !opt.sfd { WritePartition(l.vol, l.size, SystemId(l), chs); }
        BeyondTable(d, disk, l);
      }
    }

    /** Everything but the partition table, once the layout is chosen. */
    method WriteVolume(l: Layout, szBuf: nat, vsn: dword)
      requires IsMedium(disk) && Sound(l) && l.vol + l.size <= |disk| && 0 < szBuf
      modifies this
      ensures IsMedium(disk) && |disk| == |old(disk)| && IsBootRecord(disk[l.vol], l, vsn)
      ensures NewFats(disk, l) && EmptyRoot(disk, l) && (l.ty.Fat32? ==> InfoSectors(disk, l))
    {
      Extents(l);
      var rec := WriteBootRecord(l, vsn);
      if l.ty.Fat32? { WriteFsInfo(l, rec); }
      assert disk[l.vol] == rec;
      WriteAreas(l, szBuf);
    }
  }

  /** The sub-type that sizing starts with; FAT12 and FAT16 are one option. */
  function FirstType(opt: Params): FatType {
    if opt.fat then Fat16 else Fat32
  }

  /** The volume takes the drive, or what is behind its first track. */
  function VolumeStart(opt: Params): nat {
    if opt.sfd then 0 else N_SEC_TRACK
  }

  function VolumeSize(opt: Params, sectors: nat): nat {
    if VolumeStart(opt) <= sectors then sectors - VolumeStart(opt) else 0
  }

  /** When a drive can be formatted: with a sub-type that is allowed, a buffer, and 128 sectors for the volume,
      for which the sizing loop finds a layout. */
  ghost predicate CanFormat(opt: Params, szBuf: nat, sectors: nat) {
    && 0 < szBuf && (opt.fat || opt.fat32) && 128 <= VolumeSize(opt, sectors)
    && HasLayout(opt, VolumeSize(opt, sectors))
  }

  ghost predicate HasLayout(opt: Params, size: nat) {
    Succeeds(FirstType(opt), opt.fat32, size, VolumeStart(opt), SizeOf(opt.auSize), FatsOf(opt), RootOf(opt))
  }

  /** The layout has what the parameters ask for. */
  ghost predicate Obeys(l: Layout, opt: Params, sectors: nat) {
    && l.vol == VolumeStart(opt) && l.vol + l.size == sectors
    && (if l.ty.Fat32? then opt.fat32 else opt.fat && l.nRoot == RootOf(opt)) && l.nFats == FatsOf(opt)
    && (SizeOf(opt.auSize) != 0 ==> l.csize == SizeOf(opt.auSize))
    && l.csize > 0 && l == Candidate(l.ty, l.size, l.vol, l.csize, l.nFats, l.nRoot)
  }

  /** The parameters, in numbers: a volume behind the first track of 63 sectors, or without a partition table from the
      start of the drive; two FATs or one, and 512 root entries or a multiple of 16 up to 32768, as asked for; and
      clusters of the bytes that are asked for, but at most 64 KiB. */
  lemma ObeysMeans(l: Layout, opt: Params, sectors: nat)
    requires Obeys(l, opt, sectors)
    ensures l.vol == (if opt.sfd then 0 else 63) && l.size == sectors - l.vol
    ensures (l.ty.Fat32? ==> opt.fat32) && (!l.ty.Fat32? ==> opt.fat)
    ensures l.nFats == (if opt.nFats == 2 then 2 else 1)
    ensures !l.ty.Fat32? ==>
              l.nRoot == if 0 < opt.nRoot <= 32768 && opt.nRoot % 16 == 0 then opt.nRoot else 512
    ensures forall c :: c in {1, 2, 4, 8, 16, 32, 64, 128} && opt.auSize == 512 * c ==> l.csize == c
    ensures opt.auSize in {0x2_0000, 0x4_0000, 0x8_0000, 0x10_0000, 0x20_0000, 0x40_0000, 0x80_0000, 0x100_0000} ==>
              l.csize == 128
  {
  }

  method FatParameters(opt: Params) returns (nFats: nat, nRoot: nat)
    ensures 1 <= nFats <= 2 && nFats == FatsOf(opt)
    ensures 0 < nRoot <= 32768 && nRoot % 16 == 0 && nRoot == RootOf(opt)
  {
    nFats := if 1 <= opt.nFats <= 2 then opt.nFats else 1;
    nRoot := if 1 <= opt.nRoot <= 32768 && opt.nRoot % 16 == 0 then opt.nRoot else 512;
  }

  /** The first part of f_mkfs: parameters and layout. */
  method Plan(opt: Params, szBuf: nat, sectors: nat) returns (res: MkfsResult, l: Layout)
    requires sectors < 0x1_0000_0000
    ensures res.Formatted? ==> Sound(l) && Obeys(l, opt, sectors) && LeastFat(l)
    ensures res.Formatted? <==> CanFormat(opt, szBuf, sectors)
    ensures (res.NotEnoughCore? <==> szBuf == 0) && (res.InvalidParameter? ==> !opt.fat && !opt.fat32)
  {
    l := Layout(Fat16, 0, 0, 0, 0, 0, 0, 0, 0);
    var nFats, nRoot := FatParameters(opt);
    var szAu := AllocationUnit(opt.auSize);
    if szBuf == 0 { return NotEnoughCore, l; }
    var bVol, szVol := Place(opt, sectors);
    if szVol < 128 { return Aborted, l; }
    if !opt.fat && !opt.fat32 { return InvalidParameter, l; }
    var ok;
    ok, l := PlanVolume(opt, bVol, szVol, nFats, nRoot, szAu);
    res := if ok then Formatted else Aborted;
  }

  method PlanVolume(opt: Params, bVol: nat, szVol: nat, nFats: nat, nRoot: nat, szAu: nat)
    returns (ok: bool, l: Layout)
    requires 128 <= szVol < 0x1_0000_0000 && bVol == VolumeStart(opt) && (opt.fat || opt.fat32)
    requires nFats == FatsOf(opt) && nRoot == RootOf(opt) && szAu == SizeOf(opt.auSize)
             && (szAu == 0 || PowerOfTwo(szAu))
    ensures ok ==> Sound(l) && Obeys(l, opt, bVol + szVol) && LeastFat(l)
    ensures ok && SizeOf(opt.auSize) == 0 ==> var d := DefaultSize(FirstType(opt), szVol);
              || l.csize == d || (if opt.fat then l.csize == 2 * d else 2 * l.csize == d)
              || (l.ty.Fat32? && (l.csize == DefaultSize(Fat32, szVol) || 2 * l.csize == DefaultSize(Fat32, szVol)))
    ensures ok <==> HasLayout(opt, szVol)
  {
    var fsty := if opt.fat32 && !opt.fat then Fat32 else Fat16;
    assert fsty == FirstType(opt);
    ok, l := Choose(fsty, opt.fat32, szVol, bVol, szAu, nFats, nRoot);
  }

  /** Where the volume lies on the drive. */
  method Place(opt: Params, sectors: nat) returns (bVol: nat, szVol: nat)
    ensures szVol >= 128 <==> VolumeSize(opt, sectors) >= 128
    ensures szVol >= 128 ==> bVol == VolumeStart(opt) && szVol == VolumeSize(opt, sectors) && bVol + szVol == sectors
  {
    bVol, szVol := 0, sectors;
    if !opt.sfd && szVol > N_SEC_TRACK { bVol, szVol := N_SEC_TRACK, szVol - N_SEC_TRACK; }
  }

  lemma Extents(l: Layout)
    requires Sound(l)
    ensures 0 < l.fatSize && 1 <= l.reserved && (l.ty.Fat32? ==> l.reserved == 32)
    ensures l.reserved + (if l.nFats == 2 then l.fatSize + l.fatSize else l.fatSize)
            + (if l.ty.Fat32? then l.csize else l.nRoot / 16) <= l.size
    ensures 0 < (if l.ty.Fat32? then l.csize else l.nRoot / 16)
  {
  }

  lemma NewFatsKept(d: Disk, d': Disk, l: Layout, sect: nat)
    requires NewFats(d, l) && |d'| == |d|
    requires sect == l.vol + l.reserved + if l.nFats == 2 then l.fatSize + l.fatSize else l.fatSize
    requires forall i :: 0 <= i < |d| && i < sect ==> d'[i] == d[i]
    ensures NewFats(d', l)
  {
  }

  /** The partition table lies outside the volume it describes. */
  lemma BeyondTable(d: Disk, d': Disk, l: Layout)
    requires IsMedium(d) && IsMedium(d') && |d'| == |d| && Sound(l) && l.vol + l.size <= |d|
    requires Describes(FieldsOf(d[l.vol]), l)
    requires NewFats(d, l) && EmptyRoot(d, l) && (l.ty.Fat32? ==> InfoSectors(d, l))
    requires if l.vol == 0 then d' == d
             else && Status(FieldsOf(d'[0])).OtherBoot? && PartitionStart(d'[0], 0) == l.vol
                  && forall i :: 1 <= i < |d| ==> d'[i] == d[i]
    ensures IsFormatted(d', l)
  {
    Extents(l);
    DescribedRecord(FieldsOf(d[l.vol]), l);
    if l.vol != 0 { FormattedKept(d, d', l); }
  }

  lemma FormattedKept(d: Disk, d': Disk, l: Layout)
    requires |d'| == |d| && 0 < l.vol < |d| && forall i :: 1 <= i < |d| ==> d'[i] == d[i]
    requires NewFats(d, l) && EmptyRoot(d, l) && (l.ty.Fat32? ==> InfoSectors(d, l))
    ensures NewFats(d', l) && EmptyRoot(d', l) && (l.ty.Fat32? ==> InfoSectors(d', l))
  {
    AreaKept(d, d', l.vol + l.reserved, l.fatSize, Head(l.ty));
    if l.nFats == 2 { AreaKept(d, d', l.vol + l.reserved + l.fatSize, l.fatSize, Head(l.ty)); }
    AreaKept(d, d', l.vol + l.reserved + (if l.nFats == 2 then l.fatSize + l.fatSize else l.fatSize), RootSectors(l),
             Zeros(512));
  }

  lemma AreaKept(d: Disk, d': Disk, sect: nat, n: nat, first: Sector)
    requires |d'| == |d| && 1 <= sect && Area(d, sect, n, first) && forall i :: 1 <= i < |d| ==> d'[i] == d[i]
    ensures Area(d', sect, n, first)
  {
  }

  /** check_fs takes the boot record of every layout for one. */
  lemma DescribedRecord(f: Fields, l: Layout)
    requires Sound(l) && Describes(f, l)
    ensures Status(f).FatRecord?
  {
  }

  const POWERS_OF_TWO: set<nat> := {
    0x1, 0x2, 0x4, 0x8, 0x10, 0x20, 0x40, 0x80, 0x100, 0x200, 0x400, 0x800, 0x1000, 0x2000, 0x4000, 0x8000,
    0x1_0000, 0x2_0000, 0x4_0000, 0x8_0000, 0x10_0000, 0x20_0000, 0x40_0000, 0x80_0000, 0x100_0000
  }

  /** The cluster size that is asked for, in sectors, or 0. */
  function SizeOf(auSize: dword): nat {
    if auSize !in POWERS_OF_TWO || auSize < 512 then 0 else if auSize < 0x1_0000 then auSize / 512 else 128
  }

  /** `au_size` in sectors, and at most 128; what is not a power of two up to 16 MB counts as 0. */
  method AllocationUnit(size: dword) returns (au: nat)
    ensures (au == 0 || PowerOfTwo(au)) && au == SizeOf(size)
  {
    if size == 0 || size in POWERS_OF_TWO { au := size; } else { au := 0; }
    au := au / 512;
    if au > 128 { au := 128; }
  }

  method FillFsInfo(buf: array<byte>, free: dword)
    requires buf.Length == 512 && forall i :: 0 <= i < 512 ==> buf[i] == 0
    modifies buf
    ensures IsInfo(buf[..], free)
  {
    StDword(buf, 0, 0x4161_5252);
    BytesOfDword(buf[0], buf[1], buf[2], buf[3]);
    StDword(buf, 484, 0x6141_7272);
    BytesOfDword(buf[484], buf[485], buf[486], buf[487]);
    StDword(buf, 488, free);
    StDword(buf, 492, 2);
    BytesOfDword(buf[492], buf[493], buf[494], buf[495]);
    StWord(buf, BS_55AA, 0xAA55);
    BytesOfWord(buf[510], buf[511]);
  }

  /** A partition table with one entry; the cylinder, head and sector bytes are given. */
  method FillPartitionTable(buf: array<byte>, start: dword, size: dword, sys: byte, chs: seq<byte>)
    requires buf.Length == 512 && |chs| == 6 && forall i :: 0 <= i < 512 ==> buf[i] == 0
    modifies buf
    ensures IsTable(buf[..], start, size) && buf[450] == sys
    ensures buf[447..450] == chs[..3] && buf[451..454] == chs[3..]
  {
    FillPartition(buf, start, size, sys, chs);
    ghost var head, tail := buf[447..450], buf[451..454];
    StWord(buf, BS_55AA, 0xAA55);
    BytesOfWord(buf[510], buf[511]);
    assert buf[447..450] == head && buf[451..454] == tail;
  }

  method FillPartition(buf: array<byte>, start: dword, size: dword, sys: byte, chs: seq<byte>)
    requires buf.Length == 512 && |chs| == 6
    modifies buf
    ensures Dword(buf[454], buf[455], buf[456], buf[457]) == start
            && Dword(buf[458], buf[459], buf[460], buf[461]) == size
    ensures buf[450] == sys && forall i :: 0 <= i < 512 && !(447 <= i < 462) ==> buf[i] == old(buf[i])
    ensures buf[447..450] == chs[..3] && buf[451..454] == chs[3..]
  {
    StDword(buf, 454, start);
    StDword(buf, 458, size);
    buf[450] := sys;
    buf[447], buf[448], buf[449] := chs[0], chs[1], chs[2];
    buf[451], buf[452], buf[453] := chs[3], chs[4], chs[5];
  }
}
