/** Finding and mounting a FAT volume (fatfs/ff.c, check_fs, find_volume and mount_volume). */
module MountVolume {
  import opened Bytes
  import opened Sectors
  import opened FatEntries
  import opened FatVolume
  import opened FileLayout
  import opened MkfsLayout
  import opened BootRecord

  /** check_fs: a FAT boot record, some other boot sector, no boot sector, or a disk error. */
  datatype BootStatus = FatRecord | OtherBoot | NoBoot | ReadError

  ghost predicate IsMedium(disk: Disk) {
    0 < |disk| < 0x1_0000_0000 && AreSectors(disk)
  }

  /** What check_fs makes of a sector. */
  function Status(f: Fields): BootStatus {
    if f.jump in {0xEB, 0xE9, 0xE8} && ((f.sign == 0xAA55 && f.signed32) || Plausible(f)) then FatRecord
    else if f.sign == 0xAA55 then OtherBoot
    else NoBoot
  }

  /** A record without signatures that can be presumed a FAT one. */
  predicate Plausible(f: Fields) {
    && f.bytesPerSec == 512 && PowerOfTwo(f.csize) && f.reserved != 0 && 1 <= f.nFats <= 2 && f.nRoot != 0
    && (f.size16 >= 128 || f.size32 >= 0x1_0000) && f.fatSize16 != 0
  }

  method CheckFs(disk: Disk, sect: dword) returns (st: BootStatus)
    requires IsMedium(disk)
    ensures st == if sect < |disk| then Status(FieldsOf(disk[sect])) else ReadError
    ensures sect < |disk| ==> var s := disk[sect];
              (st.FatRecord? <==> LooksFat(s)) && (st.OtherBoot? <==> !LooksFat(s) && s[510] == 0x55 && s[511] == 0xAA)
  {
    if sect < |disk| { StatusAt(disk[sect]); }
    if sect >= |disk| { return ReadError; }
    st := Status(FieldsOf(disk[sect]));
  }

  /** Byte by byte: a jump code, and the signatures of a FAT32 record or fields that only a FAT record has. */
  ghost predicate LooksFat(s: Sector)
    requires |s| == 512
  {
    && (s[0] == 0xEB || s[0] == 0xE9 || s[0] == 0xE8)
    && ((s[510] == 0x55 && s[511] == 0xAA && s[82..90] == [0x46, 0x41, 0x54, 0x33, 0x32, 0x20, 0x20, 0x20])
        || HasFatFields(s))
  }

  ghost predicate HasFatFields(s: Sector)
    requires |s| == 512
  {
    && s[11] == 0 && s[12] == 2 && s[13] in {1, 2, 4, 8, 16, 32, 64, 128} && Word(s[14], s[15]) != 0
    && (s[16] == 1 || s[16] == 2) && Word(s[17], s[18]) != 0 && Word(s[22], s[23]) != 0
    && (Word(s[19], s[20]) >= 128 || Dword(s[32], s[33], s[34], s[35]) >= 0x1_0000)
  }

  lemma StatusAt(s: Sector)
    requires |s| == 512
    ensures Status(FieldsOf(s)).FatRecord? <==> LooksFat(s)
    ensures Status(FieldsOf(s)).OtherBoot? <==> !LooksFat(s) && s[510] == 0x55 && s[511] == 0xAA
  {
    var f := FieldsOf(s);
    WordIs(s[510], s[511], 0x55, 0xAA);
    assert f.sign == 0xAA55 <==> s[510] == 0x55 && s[511] == 0xAA;
    FatFields(s);
  }

  lemma FatFields(s: Sector)
    requires |s| == 512
    ensures Plausible(FieldsOf(s)) <==> HasFatFields(s)
  {
    WordIs(s[11], s[12], 0, 2);
    Powers(s[13]);
  }

  lemma WordIs(a: byte, b: byte, lo: byte, hi: byte)
    ensures Word(a, b) == lo + 256 * hi <==> a == lo && b == hi
  {
  }

  lemma Powers(b: byte)
    ensures PowerOfTwo(b) <==> b in {1, 2, 4, 8, 16, 32, 64, 128}
  {
  }

  /** Start of partition `i` in the table of a master boot record. */
  function PartitionStart(s: Sector, i: nat): dword
    requires |s| == 512 && i < 4
  {
    LdDword(s, 446 + i * 16 + 8)
  }

  /** Entry `i` of the partition table leads to a FAT volume. */
  ghost predicate HasFat(disk: Disk, i: nat)
    requires IsMedium(disk) && i < 4
  {
    var p := PartitionStart(disk[0], i);
    0 < p < |disk| && Status(FieldsOf(disk[p])).FatRecord?
  }

  /** It is the first one that does, and starts at `bsect`. */
  ghost predicate FirstFatAt(disk: Disk, i: nat, bsect: nat)
    requires IsMedium(disk) && i < 4
  {
    HasFat(disk, i) && bsect == PartitionStart(disk[0], i) && forall j :: 0 <= j < i ==> !HasFat(disk, j)
  }

  /** What the table leads to where it leads to no FAT volume: the sector of its last entry decides. */
  ghost predicate LastIs(disk: Disk, st: BootStatus)
    requires IsMedium(disk)
  {
    var p := PartitionStart(disk[0], 3);
    st == if p == 0 then NoBoot else if p < |disk| then Status(FieldsOf(disk[p])) else ReadError
  }

  /** The volume is sector 0 itself, or the first FAT volume of the table there, if there is one. */
  ghost predicate Found(disk: Disk, st: BootStatus, bsect: nat)
    requires IsMedium(disk)
  {
    && (st.FatRecord? ==> bsect < |disk| && Status(FieldsOf(disk[bsect])).FatRecord?)
    && match Status(FieldsOf(disk[0]))
       case FatRecord => st.FatRecord? && bsect == 0
       case OtherBoot =>
         if st.FatRecord? then exists i :: 0 <= i < 4 && FirstFatAt(disk, i, bsect)
         else LastIs(disk, st) && forall i :: 0 <= i < 4 ==> !HasFat(disk, i)
       case _ => st.NoBoot?
  }

  lemma FindableIsFound(disk: Disk, vol: nat, st: BootStatus, bsect: nat)
    requires IsMedium(disk) && Findable(disk, vol) && Found(disk, st, bsect)
    ensures st.FatRecord? && bsect == vol
  {
    if vol != 0 {
      assert HasFat(disk, 0);
      var i :| 0 <= i < 4 && FirstFatAt(disk, i, bsect);
    }
  }

  ghost predicate FatAtSector(disk: Disk, p: nat)
    requires IsMedium(disk)
  {
    0 < p < |disk| && LooksFat(disk[p])
  }

  /** The four entries of the table have the starts of their partitions at 454, 470, 486 and 502. */
  lemma FoundMeans(disk: Disk, st: BootStatus, bsect: nat)
    requires IsMedium(disk) && Found(disk, st, bsect)
    ensures LooksFat(disk[0]) ==> st.FatRecord? && bsect == 0
    ensures !LooksFat(disk[0]) && st.FatRecord? ==> disk[0][510] == 0x55 && disk[0][511] == 0xAA
    ensures !LooksFat(disk[0]) && disk[0][510] == 0x55 && disk[0][511] == 0xAA ==>
              var p, q := LdDword(disk[0], 454), LdDword(disk[0], 470);
              var r, t := LdDword(disk[0], 486), LdDword(disk[0], 502);
              && (st.FatRecord? <==>
                    FatAtSector(disk, p) || FatAtSector(disk, q) || FatAtSector(disk, r) || FatAtSector(disk, t))
              && (st.FatRecord? ==> bsect == if FatAtSector(disk, p) then p else if FatAtSector(disk, q) then q
                                             else if FatAtSector(disk, r) then r else t)
              && (st.ReadError? <==> !st.FatRecord? && t >= |disk|)
    ensures !LooksFat(disk[0]) && !(disk[0][510] == 0x55 && disk[0][511] == 0xAA) ==> st.NoBoot?
  {
    StatusAt(disk[0]);
    if Status(FieldsOf(disk[0])).OtherBoot? {
      EntryLeads(disk, 0, 454);
      EntryLeads(disk, 1, 470);
      EntryLeads(disk, 2, 486);
      EntryLeads(disk, 3, 502);
      if st.FatRecord? { var i :| 0 <= i < 4 && FirstFatAt(disk, i, bsect); }
    }
  }

  lemma EntryLeads(disk: Disk, i: nat, k: nat)
    requires IsMedium(disk) && i < 4 && k == 454 + 16 * i
    ensures PartitionStart(disk[0], i) == LdDword(disk[0], k)
    ensures HasFat(disk, i) <==> FatAtSector(disk, LdDword(disk[0], k))
  {
    var p := PartitionStart(disk[0], i);
    if 0 < p < |disk| { StatusAt(disk[p]); }
  }

  /** find_volume, for any partition: sector 0, or else the first FAT volume of the partition table. */
  method FindVolume(disk: Disk) returns (st: BootStatus, bsect: dword)
    requires IsMedium(disk)
    ensures Found(disk, st, bsect)
  {
    bsect := 0;
    st := CheckFs(disk, 0);
    if !st.OtherBoot? { return; }
    var i := 0;
    while true
      invariant 0 <= i < 4 && forall j :: 0 <= j < i ==> !HasFat(disk, j)
      decreases 4 - i
    {
      bsect := PartitionStart(disk[0], i);
      if bsect != 0 { st := CheckFs(disk, bsect); } else { st := NoBoot; }
      if st.FatRecord? {
        assert FirstFatAt(disk, i, bsect);
        return;
      }
      i := i + 1;
      if i == 4 { return; }
    }
  }

  /** What mounting records of a volume. */
  datatype Volume = Volume(
    ty: FatType, nFats: nat, nFatent: nat, fsize: nat, volbase: nat, fatbase: nat, database: nat, csize: nat,
        dirbase: nat)
  {
    function OnDisk(sectors: nat): Geometry {
      Geometry(ty, nFats, nFatent, fsize, fatbase, database, csize, sectors)
    }
  }

  function FatSectorsOf(f: Fields): nat {
    if f.fatSize16 == 0 then f.fatSize32 else f.fatSize16
  }

  function TotalSectors(f: Fields): nat {
    if f.size16 == 0 then f.size32 else f.size16
  }

  /** The sectors before the data area, before they are cut to 32 bits. */
  function SystemSectors(f: Fields): nat {
    f.reserved + FatArea(f) + f.nRoot / 16
  }

  /** The sectors of all copies of the FAT. */
  function FatArea(f: Fields): nat {
    if f.nFats == 2 then FatSectorsOf(f) + FatSectorsOf(f) else FatSectorsOf(f)
  }

  /** What mounting makes of the boot record of a layout. */
  function VolumeOf(l: Layout): Volume {
    Volume(l.ty, l.nFats, l.nClusters + 2, l.fatSize, l.vol, l.vol + l.reserved, l.vol + l.System(), l.csize,
           if l.ty.Fat32? then 2 else l.vol + l.reserved + (if l.nFats == 2 then l.fatSize + l.fatSize else l.fatSize))
  }

  function Wrapped(x: nat): dword {
    x % 0x1_0000_0000
  }

  /** Number of clusters, from the system area as it is computed in 32 bits. */
  function Clusters(f: Fields): nat
    requires f.csize != 0 && Wrapped(SystemSectors(f)) <= TotalSectors(f)
  {
    Whole(TotalSectors(f) - Wrapped(SystemSectors(f)), f.csize)
  }

  /** The boot records that mount_volume accepts. */
  predicate Acceptable(f: Fields) {
    && f.bytesPerSec == 512 && 1 <= f.nFats <= 2 && PowerOfTwo(f.csize) && f.nRoot % 16 == 0 && f.reserved != 0
    && Wrapped(SystemSectors(f)) <= TotalSectors(f)
    && 0 < Clusters(f) <= MAX_FAT32
    && (if SubType(Clusters(f)).Fat32? then f.version32 == 0 && f.nRoot == 0 else f.nRoot != 0)
    && FatSize(SubType(Clusters(f)), Clusters(f) + 2) <= 512 * FatSectorsOf(f)
  }

  /** What is recorded for them. */
  function Recorded(f: Fields, bsect: dword): Volume
    requires Acceptable(f)
  {
    var ty := SubType(Clusters(f));
    Volume(ty, f.nFats, Clusters(f) + 2, FatSectorsOf(f), bsect, Wrapped(bsect + f.reserved),
           Wrapped(bsect + Wrapped(SystemSectors(f))), f.csize,
           if ty.Fat32? then f.root32 else Wrapped(bsect + f.reserved + FatArea(f)))
  }

  /** The FAT part of mount_volume, for a boot record in sector `bsect`. */
  method Analyze(f: Fields, bsect: dword) returns (ok: bool, v: Volume)
    ensures ok <==> Acceptable(f)
    ensures ok ==> v == Recorded(f, bsect)
  {
    v := Volume(Fat12, 0, 0, 0, 0, 0, 0, 0, 0);
    if f.bytesPerSec != 512 { return false, v; }
    if f.nFats != 1 && f.nFats != 2 { return false, v; }
    if !PowerOfTwo(f.csize) { return false, v; }
    if f.nRoot % 16 != 0 { return false, v; }
    if f.reserved == 0 { return false, v; }
    var fsize, fasize, sysect := SystemArea(f);
    var tsect: dword := f.size16;
    if tsect == 0 { tsect := f.size32; }
    if tsect < sysect { return false, v; }
    WholeIsQuotient(tsect - sysect, f.csize);
    var nclst := (tsect - sysect) / f.csize;
    if nclst == 0 { return false, v; }
    if nclst > MAX_FAT32 { return false, v; }
    var fmt := Fat32;
    if nclst <= MAX_FAT16 { fmt := Fat16; }
    if nclst <= MAX_FAT12 { fmt := Fat12; }
    if fmt.Fat32? {
      if f.version32 != 0 { return false, v; }
      if f.nRoot != 0 { return false, v; }
    } else {
      if f.nRoot == 0 { return false, v; }
    }
    ok := FatLargeEnough(fmt, nclst + 2, fsize);
    if ok { v := Record(f, bsect, fmt, nclst, fsize, fasize, sysect); }
  }

  method Record(f: Fields, bsect: dword, fmt: FatType, nclst: nat, fsize: dword, fasize: dword, sysect: dword)
    returns (v: Volume)
    requires Acceptable(f) && nclst == Clusters(f) && fmt == SubType(nclst) && fsize == FatSectorsOf(f)
    requires fasize == Wrapped(FatArea(f)) && sysect == Wrapped(SystemSectors(f))
    ensures v == Recorded(f, bsect)
  {
    var fatbase := (bsect + f.reserved) % 0x1_0000_0000;
    var database := (bsect + sysect) % 0x1_0000_0000;
    var dirbase := if fmt.Fat32? then f.root32 else (fatbase + fasize) % 0x1_0000_0000;
    WrappedSum(bsect + f.reserved, FatArea(f));
    v := Volume(fmt, f.nFats, nclst + 2, fsize, bsect, fatbase, database, f.csize, dirbase);
  }

  /** What is accepted, in numbers. */
  lemma AcceptableMeans(f: Fields)
    ensures Acceptable(f) <==>
              var fsize := if f.fatSize16 != 0 then f.fatSize16 else f.fatSize32;
              var total := if f.size16 != 0 then f.size16 else f.size32;
              var sys := (f.reserved + f.nFats * fsize + f.nRoot * 32 / 512) % 0x1_0000_0000;
              && f.bytesPerSec == 512 && (f.nFats == 1 || f.nFats == 2) && f.csize in {1, 2, 4, 8, 16, 32, 64, 128}
              && f.nRoot % 16 == 0 && f.reserved != 0 && sys <= total
              && var n := (total - sys) / f.csize;
                 && 1 <= n <= 0x0FFF_FFF5
                 && (if n <= 0xFFF5 then f.nRoot != 0 else f.nRoot == 0 && f.version32 == 0)
                 && (if n <= 0xFF5 then (n + 2) * 3 / 2 + n % 2 else if n <= 0xFFF5 then (n + 2) * 2 else (n + 2) * 4)
                    <= 512 * fsize
  {
    if f.nFats == 1 || f.nFats == 2 {
      Sums(f);
      var total, sys := TotalSectors(f), Wrapped(SystemSectors(f));
      if PowerOfTwo(f.csize) && sys <= total {
        WholeIsQuotient(total - sys, f.csize);
        SizesInBytes((total - sys) / f.csize);
      }
    }
  }

  lemma Sums(f: Fields)
    requires f.nFats == 1 || f.nFats == 2
    ensures var fsize := if f.fatSize16 != 0 then f.fatSize16 else f.fatSize32;
            && fsize == FatSectorsOf(f) && f.nFats * fsize == FatArea(f) && f.nRoot * 32 / 512 == f.nRoot / 16
            && (f.reserved + f.nFats * fsize + f.nRoot * 32 / 512) % 0x1_0000_0000 == Wrapped(SystemSectors(f))
            && TotalSectors(f) == if f.size16 != 0 then f.size16 else f.size32
  {
    if f.nFats == 2 { assert 2 * FatSectorsOf(f) == FatSectorsOf(f) + FatSectorsOf(f); }
  }

  lemma SizesInBytes(n: nat)
    ensures FatSize(SubType(n), n + 2) == if n <= 0xFF5 then (n + 2) * 3 / 2 + n % 2
                                          else if n <= 0xFFF5 then (n + 2) * 2 else (n + 2) * 4
  {
  }

  /** What is recorded, in numbers: all sums are cut to 32 bits. */
  lemma RecordedMeans(f: Fields, bsect: dword)
    requires Acceptable(f)
    ensures var fsize := if f.fatSize16 != 0 then f.fatSize16 else f.fatSize32;
            var total := if f.size16 != 0 then f.size16 else f.size32;
            var sys := (f.reserved + f.nFats * fsize + f.nRoot * 32 / 512) % 0x1_0000_0000;
            var v := Recorded(f, bsect);
            && v.nFats == f.nFats && v.fsize == fsize && v.volbase == bsect && v.csize == f.csize
            && v.fatbase == (bsect + f.reserved) % 0x1_0000_0000 && v.database == (bsect + sys) % 0x1_0000_0000
            && v.nFatent == (total - sys) / f.csize + 2
            && v.ty == (if v.nFatent - 2 <= 0xFF5 then Fat12 else if v.nFatent - 2 <= 0xFFF5 then Fat16 else Fat32)
            && v.dirbase == if v.ty.Fat32? then f.root32 else (bsect + f.reserved + f.nFats * fsize) % 0x1_0000_0000
  {
    Sums(f);
    WholeIsQuotient(TotalSectors(f) - Wrapped(SystemSectors(f)), f.csize);
  }

  lemma WrappedSum(a: nat, b: nat)
    ensures Wrapped(Wrapped(a) + Wrapped(b)) == Wrapped(a + b)
  {
  }

  method FatLargeEnough(ty: FatType, n: nat, fsize: nat) returns (ok: bool)
    ensures ok <==> FatSize(ty, n) <= 512 * fsize
  {
    var szbfat := if ty.Fat32? then n * 4 else if ty.Fat16? then n * 2 else n * 3 / 2 + n % 2;
    ok := !(fsize < (szbfat + 511) / 512);
  }

  /** Every volume that f_mkfs lays out is accepted, with the same sub-type, cluster size, number of
      clusters and areas. */
  lemma LayoutIsAccepted(f: Fields, l: Layout)
    requires Sound(l) && Describes(f, l) && l.vol + l.size < 0x1_0000_0000
    ensures Acceptable(f) && Recorded(f, l.vol) == VolumeOf(l)
  {
    DescribedSums(f, l);
    RecordedLayout(f, l);
  }

  lemma RecordedLayout(f: Fields, l: Layout)
    requires Sound(l) && Describes(f, l) && l.vol + l.size < 0x1_0000_0000 && Acceptable(f)
    ensures Recorded(f, l.vol) == VolumeOf(l)
  {
    DescribedSums(f, l);
    RecordedSums(f, l);
  }

  lemma RecordedSums(f: Fields, l: Layout)
    requires l.vol + l.System() < 0x1_0000_0000 && f.reserved == l.reserved && FatArea(f) <= l.System() - l.reserved
    ensures Wrapped(l.vol + l.reserved) == l.vol + l.reserved && Wrapped(l.System()) == l.System()
    ensures Wrapped(l.vol + l.System()) == l.vol + l.System()
    ensures Wrapped(l.vol + l.reserved + FatArea(f)) == l.vol + l.reserved + FatArea(f)
  {
    Unwrapped(l.vol + l.reserved);
    Unwrapped(l.vol + l.System());
    Unwrapped(l.vol + l.reserved + FatArea(f));
  }

  lemma Unwrapped(x: nat)
    requires x < 0x1_0000_0000
    ensures Wrapped(x) == x
  {
  }

  lemma DescribedSums(f: Fields, l: Layout)
    requires Sound(l) && Describes(f, l)
    ensures FatSectorsOf(f) == l.fatSize && TotalSectors(f) == l.size && SystemSectors(f) == l.System()
    ensures FatArea(f) == if l.nFats == 2 then l.fatSize + l.fatSize else l.fatSize
    ensures Wrapped(l.System()) == l.System() && PowerOfTwo(f.csize)
  {
  }

  /** An accepted record fits the assumptions made of a mounted volume, with its FAT where the record
      puts it, if and only if the size of its system area fits in 32 bits: mounting does not check
      the sums that may wrap around. */
  lemma AcceptedIsSound(f: Fields, bsect: dword, sectors: nat)
    requires Acceptable(f) && bsect + TotalSectors(f) <= sectors < 0x1_0000_0000
    ensures var v := Recorded(f, bsect);
            HasData(v.OnDisk(sectors)) && v.fatbase == bsect + f.reserved <==> SystemSectors(f) < 0x1_0000_0000
  {
    WholeBounds(TotalSectors(f) - Wrapped(SystemSectors(f)), f.csize);
    AreasInOrder(f, bsect);
  }

  /** Such a record: of two FATs so large that their size is a small number in 32 bits. */
  lemma WrappedExample() returns (f: Fields)
    ensures f.nFats == 2 && FatSectorsOf(f) == 0x8000_0100 && f.reserved == 32 && f.csize == 128
            && TotalSectors(f) == 0x0100_0000
    ensures Acceptable(f) && SystemSectors(f) > 0x1_0000_0000
    ensures var v := Recorded(f, 0);
            v.database < v.fatbase + v.fsize && !HasData(v.OnDisk(0x0100_0000))
  {
    f := Fields(0xEB, 512, 128, 32, 2, 0, 0, 0x0100_0000, 0, 0x8000_0100, 0, 2, 1, 6, true, 0, 0xAA55);
    var s := TotalSectors(f) - Wrapped(SystemSectors(f));
    assert s == 0x00FF_FDE0;
    WholeIsQuotient(s, 128);
  }

  /** The data area starts after the FATs if and only if nothing wrapped around. */
  lemma AreasInOrder(f: Fields, bsect: dword)
    requires Acceptable(f) && bsect + TotalSectors(f) < 0x1_0000_0000
    ensures Wrapped(bsect + Wrapped(SystemSectors(f))) == bsect + Wrapped(SystemSectors(f))
    ensures var fatbase, database := Wrapped(bsect + f.reserved), Wrapped(bsect + Wrapped(SystemSectors(f)));
            fatbase == bsect + f.reserved && fatbase + FatArea(f) <= database <==> SystemSectors(f) < 0x1_0000_0000
  {
    var s := SystemSectors(f);
    if s >= 0x1_0000_0000 && bsect + f.reserved < 0x1_0000_0000 {
      assert Wrapped(s) + 0x1_0000_0000 <= s;
    }
  }

  /** The size of one FAT and of all areas before the data, in 32-bit arithmetic. */
  method SystemArea(f: Fields) returns (fsize: dword, fasize: dword, sysect: dword)
    requires f.nFats == 1 || f.nFats == 2
    ensures fsize == FatSectorsOf(f)
    ensures fasize == Wrapped(FatArea(f)) && sysect == Wrapped(SystemSectors(f))
  {
    fsize := f.fatSize16;
    if fsize == 0 { fsize := f.fatSize32; }
    assert fsize * f.nFats == FatArea(f) by { if f.nFats == 2 { assert fsize * 2 == fsize + fsize; } }
    fasize := fsize * f.nFats % 0x1_0000_0000;
    WrappedTerm(f.reserved + f.nRoot / 16, FatArea(f));
    sysect := (f.reserved + fasize + f.nRoot / 16) % 0x1_0000_0000;
  }

  lemma WrappedTerm(a: nat, b: nat)
    ensures Wrapped(a + Wrapped(b)) == Wrapped(a + b)
  {
    assert b == Wrapped(b) + 0x1_0000_0000 * (b / 0x1_0000_0000);
  }

  // ----- the whole of mount_volume

  datatype MountResult = Mounted(v: Volume, freeClst: dword, lastClst: dword) | NoFilesystem | DiskError

  /** The three signatures of an FSInfo sector: "RRaA", "rrAa" and 0xAA55. */
  ghost predicate IsSigned(s: Sector)
    requires |s| == 512
  {
    s[..4] == [0x52, 0x52, 0x61, 0x41] && s[484..488] == [0x72, 0x72, 0x41, 0x61] && s[510] == 0x55 && s[511] == 0xAA
  }

  lemma SignedInfo(s: Sector)
    requires |s| == 512
    ensures IsSigned(s) <==> LdWord(s, 510) == 0xAA55 && LdDword(s, 0) == 0x4161_5252 && LdDword(s, 484) == 0x6141_7272
  {
    assert s[..4] == [s[0], s[1], s[2], s[3]] && s[484..488] == [s[484], s[485], s[486], s[487]];
    FourBytes(s[0], s[1], s[2], s[3], 0x52, 0x52, 0x61, 0x41);
    FourBytes(s[484], s[485], s[486], s[487], 0x72, 0x72, 0x41, 0x61);
  }

  lemma FourBytes(a: byte, b: byte, c: byte, d: byte, a': byte, b': byte, c': byte, d': byte)
    ensures Dword(a, b, c, d) == Dword(a', b', c', d') <==> a == a' && b == b' && c == c' && d == d'
  {
    BytesOfDword(a, b, c, d);
    BytesOfDword(a', b', c', d');
  }

  /** Where find_volume looks for the volume of a layout. */
  ghost predicate Findable(disk: Disk, vol: nat)
    requires IsMedium(disk)
  {
    && vol < |disk| && Status(FieldsOf(disk[vol])).FatRecord?
    && (vol != 0 ==> Status(FieldsOf(disk[0])).OtherBoot? && PartitionStart(disk[0], 0) == vol)
  }

  /** FSInfo is in the sector behind a FAT32 boot record that says so, with the free count at 488 and the last
      cluster at 492; without it nothing is known. */
  ghost predicate Known(disk: Disk, ty: FatType, bsect: nat, freeClst: dword, lastClst: dword)
    requires IsMedium(disk) && bsect < |disk|
  {
    var b := disk[bsect];
    if ty.Fat32? && b[48] == 1 && b[49] == 0 && bsect + 1 < |disk| && IsSigned(disk[bsect + 1])
    then var s := disk[bsect + 1];
         && freeClst == Dword(s[488], s[489], s[490], s[491]) && lastClst == Dword(s[492], s[493], s[494], s[495])
    else freeClst == 0xFFFF_FFFF && lastClst == 0xFFFF_FFFF
  }

  /** "Get FSInfo if available" */
  method LoadInfo(disk: Disk, ty: FatType, fsInfo: word, bsect: dword) returns (freeClst: dword, lastClst: dword)
    requires IsMedium(disk) && bsect < |disk| && fsInfo == FieldsOf(disk[bsect]).fsInfo32
    ensures Known(disk, ty, bsect, freeClst, lastClst)
  {
    assert fsInfo == Word(disk[bsect][48], disk[bsect][49]);
    freeClst, lastClst := 0xFFFF_FFFF, 0xFFFF_FFFF;
    if ty.Fat32? && fsInfo == 1 && bsect + 1 < |disk| {
      var s := disk[bsect + 1];
      SignedInfo(s);
      if LdWord(s, 510) == 0xAA55 && LdDword(s, 0) == 0x4161_5252 && LdDword(s, 484) == 0x6141_7272 {
        freeClst := LdDword(s, 488);
        lastClst := LdDword(s, 492);
      }
    }
  }

  /** mount_volume, after the drive was initialised. */
  method Mount(disk: Disk, ghost l: Layout) returns (r: MountResult)
    requires IsMedium(disk)
    ensures Findable(disk, l.vol) && Sound(l) && Describes(FieldsOf(disk[l.vol]), l) && l.vol + l.size <= |disk| ==>
              r.Mounted? && r.v == VolumeOf(l)
    ensures r.DiskError? <==> Found(disk, ReadError, 0)
    ensures r.NoFilesystem? ==>
              forall b :: 0 <= b < |disk| && Found(disk, FatRecord, b) ==> !Acceptable(FieldsOf(disk[b]))
    ensures r.Mounted? ==>
              && r.v.volbase < |disk| && Found(disk, FatRecord, r.v.volbase)
              && var f := FieldsOf(disk[r.v.volbase]); Acceptable(f) && r.v == Recorded(f, r.v.volbase)
    ensures r.Mounted? ==> Known(disk, r.v.ty, r.v.volbase, r.freeClst, r.lastClst)
  {
    var st, bsect := FindVolume(disk);
    if Findable(disk, l.vol) { FindableIsFound(disk, l.vol, st, bsect); }
    if st.ReadError? { return DiskError; }
    if !st.FatRecord? { return NoFilesystem; }
    var f := FieldsOf(disk[bsect]);
    if Sound(l) && Describes(f, l) && bsect == l.vol && l.vol + l.size <= |disk| { LayoutIsAccepted(f, l); }
    var ok, v := Analyze(f, bsect);
    if !ok { return NoFilesystem; }
    var freeClst, lastClst := LoadInfo(disk, v.ty, f.fsInfo32, bsect);
    r := Mounted(v, freeClst, lastClst);
  }
}
