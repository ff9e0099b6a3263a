/** The boot record of a FAT volume (fatfs/ff.c): how f_mkfs fills it in and what check_fs and
    mount_volume make of it. */
module BootRecord {
  import opened Bytes
  import opened Guards
  import opened Sectors
  import opened FatEntries
  import opened MkfsLayout

  const BS_JmpBoot: nat := 0
  const BPB_BytsPerSec: nat := 11
  const BPB_SecPerClus: nat := 13
  const BPB_RsvdSecCnt: nat := 14
  const BPB_NumFATs: nat := 16
  const BPB_RootEntCnt: nat := 17
  const BPB_TotSec16: nat := 19
  const BPB_Media: nat := 21
  const BPB_FATSz16: nat := 22
  const BPB_SecPerTrk: nat := 24
  const BPB_NumHeads: nat := 26
  const BPB_HiddSec: nat := 28
  const BPB_TotSec32: nat := 32
  const BS_DrvNum: nat := 36
  const BS_BootSig: nat := 38
  const BS_VolID: nat := 39
  const BS_VolLab: nat := 43
  const BPB_FATSz32: nat := 36
  const BPB_RootClus32: nat := 44
  const BPB_FSInfo32: nat := 48
  const BPB_BkBootSec32: nat := 50
  const BS_DrvNum32: nat := 64
  const BS_BootSig32: nat := 66
  const BS_VolID32: nat := 67
  const BS_VolLab32: nat := 71
  const BS_55AA: nat := 510

  function LdWord(s: Sector, k: nat): word
    requires k + 2 <= |s|
  {
    Word(s[k], s[k + 1])
  }

  function LdDword(s: Sector, k: nat): dword
    requires k + 4 <= |s|
  {
    Dword(s[k], s[k + 1], s[k + 2], s[k + 3])
  }

  method Store(buf: array<byte>, k: nat, bs: seq<byte>)
    requires k + |bs| <= buf.Length
    modifies buf
    ensures forall i :: k <= i < k + |bs| ==> buf[i] == bs[i - k]
    ensures forall i :: 0 <= i < buf.Length && !(k <= i < k + |bs|) ==> buf[i] == old(buf[i])
  {
    forall i | 0 <= i < |bs| { buf[k + i] := bs[i]; }
  }

  method StWord(buf: array<byte>, k: nat, w: word)
    requires k + 2 <= buf.Length
    modifies buf
    ensures Word(buf[k], buf[k + 1]) == w
    ensures forall i :: 0 <= i < buf.Length && i != k && i != k + 1 ==> buf[i] == old(buf[i])
  {
    WordOfBytes(w);
    buf[k], buf[k + 1] := ByteOf(w, 0), ByteOf(w, 1);
  }

  method StDword(buf: array<byte>, k: nat, w: dword)
    requires k + 4 <= buf.Length
    modifies buf
    ensures Dword(buf[k], buf[k + 1], buf[k + 2], buf[k + 3]) == w
    ensures forall i :: 0 <= i < buf.Length && !(k <= i < k + 4) ==> buf[i] == old(buf[i])
  {
    DwordOfBytes(w);
    buf[k], buf[k + 1], buf[k + 2], buf[k + 3] := ByteOf(w, 0), ByteOf(w, 1), ByteOf(w, 2), ByteOf(w, 3);
  }

  // The strings of the record, as bytes.
  const JUMP_AND_OEM: seq<byte> := [0xEB, 0xFE, 0x90, 0x4D, 0x53, 0x44, 0x4F, 0x53, 0x35, 0x2E, 0x30]  // MSDOS5.0
  const NO_NAME: seq<byte> := [0x4E, 0x4F, 0x20, 0x4E, 0x41, 0x4D, 0x45, 0x20, 0x20, 0x20, 0x20]  // NO NAME
  const FAT32_SIGN: seq<byte> := [0x46, 0x41, 0x54, 0x33, 0x32, 0x20, 0x20, 0x20]  // FAT32
  const FAT_SIGN: seq<byte> := [0x46, 0x41, 0x54, 0x20, 0x20, 0x20, 0x20, 0x20]  // FAT

  /** The fields of a boot record that matter for mounting, or say where things are. */
  datatype Fields = Fields(
    jump: byte, bytesPerSec: word, csize: byte, reserved: word, nFats: byte, nRoot: word, size16: word, size32: dword,
    fatSize16: word, fatSize32: dword, version32: word, root32: dword, fsInfo32: word, backup32: word, signed32: bool,
        hidden: dword, sign: word)

  function FieldsOf(s: Sector): Fields
    requires |s| == 512
  {
    Fields(s[0], LdWord(s, 11), s[13], LdWord(s, 14), s[16], LdWord(s, 17), LdWord(s, 19), LdDword(s, 32),
           LdWord(s, 22), LdDword(s, 36), LdWord(s, 42), LdDword(s, 44), LdWord(s, 48), LdWord(s, 50),
           s[82..90] == FAT32_SIGN, LdDword(s, 28), LdWord(s, 510))
  }

  /** The fields for a layout; those a FAT12/16 record uses for other things are unconstrained. */
  ghost predicate Describes(f: Fields, l: Layout) {
    && f.jump == 0xEB && f.bytesPerSec == 512 && f.csize == l.csize && f.reserved == l.reserved
    && f.nFats == l.nFats && f.nRoot == l.nRoot && f.hidden == l.vol && f.sign == 0xAA55
    && (if l.size < 0x1_0000 then f.size16 == l.size && f.size32 == 0 else f.size16 == 0 && f.size32 == l.size)
    && if l.ty.Fat32?
       then f.fatSize16 == 0 && f.fatSize32 == l.fatSize && f.version32 == 0 && f.root32 == 2 && f.fsInfo32 == 1
            && f.backup32 == 6
            && f.signed32
       else f.fatSize16 == l.fatSize
  }

  /** The boot record of a layout, byte by byte. */
  ghost predicate IsBootRecord(s: Sector, l: Layout, vsn: dword) {
    Filled(s, l, vsn) && s[510] == 0x55 && s[511] == 0xAA
  }

  /** All of it but the signature at its end. */
  ghost predicate Filled(s: seq<byte>, l: Layout, vsn: dword) {
    |s| == 512 && forall k: nat :: Opens(k) ==>
      CommonAt(s, l) && (if l.ty.Fat32? then Fat32At(s, l, vsn) else FatAt(s, l, vsn))
  }

  /** The fields all sub-types have: jump code and "MSDOS5.0", sizes, media descriptor, 63 sectors and 255 heads, and
      the place of the volume. */
  ghost predicate CommonAt(s: seq<byte>, l: Layout)
    requires |s| == 512
  {
    && s[..11] == [0xEB, 0xFE, 0x90, 0x4D, 0x53, 0x44, 0x4F, 0x53, 0x35, 0x2E, 0x30]
    && Word(s[11], s[12]) == 512 && s[13] == l.csize && Word(s[14], s[15]) == l.reserved && s[16] == l.nFats
    && Word(s[17], s[18]) == l.nRoot && Word(s[19], s[20]) == (if l.size < 0x1_0000 then l.size else 0)
    && s[21] == 0xF8 && Word(s[24], s[25]) == 63 && Word(s[26], s[27]) == 255
    && Dword(s[28], s[29], s[30], s[31]) == l.vol
    && Dword(s[32], s[33], s[34], s[35]) == if l.size < 0x1_0000 then 0 else l.size
  }

  /** Size of the FAT, version, root directory in cluster 2, FSInfo in sector 1, backup in sector 6, drive 0x80,
      signature 0x29, serial number, "NO NAME" and "FAT32"; the rest is zero. */
  ghost predicate Fat32At(s: seq<byte>, l: Layout, vsn: dword)
    requires |s| == 512
  {
    && s[22] == 0 && s[23] == 0 && Dword(s[36], s[37], s[38], s[39]) == l.fatSize
    && s[40] == 0 && s[41] == 0 && s[42] == 0 && s[43] == 0
    && Dword(s[44], s[45], s[46], s[47]) == 2 && Word(s[48], s[49]) == 1 && Word(s[50], s[51]) == 6
    && (forall i :: 52 <= i < 64 ==> s[i] == 0) && s[64] == 0x80 && s[65] == 0 && s[66] == 0x29
    && Dword(s[67], s[68], s[69], s[70]) == vsn
    && s[71..82] == [0x4E, 0x4F, 0x20, 0x4E, 0x41, 0x4D, 0x45, 0x20, 0x20, 0x20, 0x20]
    && s[82..90] == [0x46, 0x41, 0x54, 0x33, 0x32, 0x20, 0x20, 0x20] && forall i :: 90 <= i < 510 ==> s[i] == 0
  }

  /** The same for FAT12 and FAT16. */
  ghost predicate FatAt(s: seq<byte>, l: Layout, vsn: dword)
    requires |s| == 512
  {
    && Word(s[22], s[23]) == l.fatSize && s[36] == 0x80 && s[37] == 0 && s[38] == 0x29
    && Dword(s[39], s[40], s[41], s[42]) == vsn
    && s[43..54] == [0x4E, 0x4F, 0x20, 0x4E, 0x41, 0x4D, 0x45, 0x20, 0x20, 0x20, 0x20]
    && s[54..62] == [0x46, 0x41, 0x54, 0x20, 0x20, 0x20, 0x20, 0x20] && forall i :: 62 <= i < 510 ==> s[i] == 0
  }

  lemma RecordDescribes(s: Sector, l: Layout, vsn: dword)
    requires IsBootRecord(s, l, vsn)
    ensures Describes(FieldsOf(s), l)
  {
    assert Opens(0);
    var f := FieldsOf(s);
    assert s[..11][0] == s[0];
    assert f.jump == 0xEB && f.sign == Word(0x55, 0xAA) == 0xAA55;
    if l.ty.Fat32? { Fat32Fields(s, l, vsn); }
  }

  lemma Fat32Fields(s: Sector, l: Layout, vsn: dword)
    requires |s| == 512 && Fat32At(s, l, vsn)
    ensures var f := FieldsOf(s);
            && f.fatSize16 == 0 && f.fatSize32 == l.fatSize && f.version32 == 0 && f.root32 == 2 && f.fsInfo32 == 1
            && f.backup32 == 6 && f.signed32
  {
  }

  ghost predicate ZeroFrom(buf: array<byte>, k: nat)
    requires buf.Length == 512
    reads buf
  {
    forall i :: k <= i < 512 ==> buf[i] == 0
  }

  /** The fields up to the size of the root directory. */
  method FillGeometry(buf: array<byte>, l: Layout)
    requires buf.Length == 512 && Sound(l) && ZeroFrom(buf, 0)
    modifies buf
    ensures buf[..11] == JUMP_AND_OEM && Word(buf[11], buf[12]) == 512 && buf[13] == l.csize
            && Word(buf[14], buf[15]) == l.reserved
    ensures buf[16] == l.nFats && Word(buf[17], buf[18]) == l.nRoot && ZeroFrom(buf, 19)
  {
    Store(buf, BS_JmpBoot, JUMP_AND_OEM);
    ghost var start := buf[..11];
    assert start == JUMP_AND_OEM;
    StWord(buf, BPB_BytsPerSec, 512);
    buf[BPB_SecPerClus] := l.csize;
    StWord(buf, BPB_RsvdSecCnt, l.reserved);
    buf[BPB_NumFATs] := l.nFats;
    StWord(buf, BPB_RootEntCnt, l.nRoot);
    assert buf[..11] == start;
  }

  /** The size of the volume. */
  method FillSize(buf: array<byte>, l: Layout)
    requires buf.Length == 512 && Sound(l) && ZeroFrom(buf, 19)
    modifies buf
    ensures forall i :: 0 <= i < 512 && i != 19 && i != 20 && !(32 <= i < 36) ==> buf[i] == old(buf[i])
    ensures Word(buf[19], buf[20]) == if l.size < 0x1_0000 then l.size else 0
    ensures Dword(buf[32], buf[33], buf[34], buf[35]) == if l.size < 0x1_0000 then 0 else l.size
  {
    if l.size < 0x1_0000 {
      StWord(buf, BPB_TotSec16, l.size);
    } else {
      StDword(buf, BPB_TotSec32, l.size);
    }
  }

  /** The fields from the volume size on that all sub-types have. */
  method FillSizes(buf: array<byte>, l: Layout)
    requires buf.Length == 512 && Sound(l) && l.vol < 0x1_0000_0000 && ZeroFrom(buf, 19)
    modifies buf
    ensures forall i :: 0 <= i < 19 ==> buf[i] == old(buf[i])
    ensures Word(buf[19], buf[20]) == if l.size < 0x1_0000 then l.size else 0
    ensures buf[21] == 0xF8 && buf[22] == 0 && buf[23] == 0 && Word(buf[24], buf[25]) == 63
            && Word(buf[26], buf[27]) == 255
    ensures Dword(buf[28], buf[29], buf[30], buf[31]) == l.vol
    ensures Dword(buf[32], buf[33], buf[34], buf[35]) == if l.size < 0x1_0000 then 0 else l.size
    ensures ZeroFrom(buf, 36)
  {
    FillSize(buf, l);
    buf[BPB_Media] := 0xF8;
    StWord(buf, BPB_SecPerTrk, 63);
    StWord(buf, BPB_NumHeads, 255);
    StDword(buf, BPB_HiddSec, l.vol);
  }

  method FillCommon(buf: array<byte>, l: Layout)
    requires buf.Length == 512 && Sound(l) && l.vol < 0x1_0000_0000
    modifies buf
    ensures CommonAt(buf[..], l) && buf[22] == 0 && buf[23] == 0 && ZeroFrom(buf, 36)
  {
    forall i | 0 <= i < 512 { buf[i] := 0; }
    FillGeometry(buf, l);
    ghost var start := buf[..11];
    FillSizes(buf, l);
    assert buf[..11] == start && buf[..][..11] == buf[..11];
  }

  /** Drive, signature and the two names, from `k` on, the names from `k + 7` on. */
  method Label(buf: array<byte>, k: nat, names: seq<byte>)
    requires buf.Length == 512 && k + 7 + |names| <= 510
    modifies buf
    ensures buf[k] == 0x80 && buf[k + 2] == 0x29 && buf[k + 7..k + 7 + |names|] == names
    ensures forall i :: 0 <= i < 512 && i != k && i != k + 2 && !(k + 7 <= i < k + 7 + |names|) ==>
            buf[i] == old(buf[i])
  {
    buf[k] := 0x80;
    buf[k + 2] := 0x29;
    Store(buf, k + 7, names);
  }

  method FillFat32(buf: array<byte>, l: Layout, vsn: dword)
    requires buf.Length == 512 && l.fatSize < 0x1_0000_0000 && ZeroFrom(buf, 36) && buf[22] == 0 && buf[23] == 0
    modifies buf
    ensures forall i :: 0 <= i < 36 ==> buf[i] == old(buf[i])
    ensures Fat32At(buf[..], l, vsn)
  {
    StDword(buf, BS_VolID32, vsn);
    StDword(buf, BPB_FATSz32, l.fatSize);
    StDword(buf, BPB_RootClus32, 2);
    StWord(buf, BPB_FSInfo32, 1);
    StWord(buf, BPB_BkBootSec32, 6);
    Label(buf, BS_DrvNum32, NO_NAME + FAT32_SIGN);
    Names(buf[..], 71, FAT32_SIGN);
  }

  method FillFat(buf: array<byte>, l: Layout, vsn: dword)
    requires buf.Length == 512 && l.fatSize < 0x1_0000 && ZeroFrom(buf, 36)
    modifies buf
    ensures forall i :: 0 <= i < 36 && i != 22 && i != 23 ==> buf[i] == old(buf[i])
    ensures FatAt(buf[..], l, vsn)
  {
    StDword(buf, BS_VolID, vsn);
    StWord(buf, BPB_FATSz16, l.fatSize);
    Label(buf, BS_DrvNum, NO_NAME + FAT_SIGN);
    Names(buf[..], 43, FAT_SIGN);
  }

  lemma Names(s: seq<byte>, k: nat, name: seq<byte>)
    requires |NO_NAME| == 11 && |name| == 8 && k + 19 <= |s| && s[k..k + 19] == NO_NAME + name
    ensures s[k..k + 11] == NO_NAME && s[k + 11..k + 19] == name
  {
    var t := s[k..k + 19];
    assert t[..11] == s[k..k + 11] && t[11..] == s[k + 11..k + 19];
  }

  /** The boot record of a new volume. */
  method FillBootRecord(buf: array<byte>, l: Layout, vsn: dword)
    requires buf.Length == 512 && Sound(l) && l.vol < 0x1_0000_0000 && l.fatSize < 0x1_0000_0000
    modifies buf
    ensures IsBootRecord(buf[..], l, vsn) && Describes(FieldsOf(buf[..]), l)
  {
    FillFields(buf, l, vsn);
    ghost var s := buf[..];
    StWord(buf, BS_55AA, 0xAA55);
    BytesOfWord(buf[510], buf[511]);
    assert buf[510] == 0x55 && buf[511] == 0xAA;
    SignKeeps(s, buf[..], l, vsn);
    RecordDescribes(buf[..], l, vsn);
  }

  method FillFields(buf: array<byte>, l: Layout, vsn: dword)
    requires buf.Length == 512 && Sound(l) && l.vol < 0x1_0000_0000 && l.fatSize < 0x1_0000_0000
    modifies buf
    ensures Filled(buf[..], l, vsn)
  {
    FillCommon(buf, l);
    ghost var common := buf[..];
    if l.ty.Fat32? { FillFat32(buf, l, vsn); } else { FillFat(buf, l, vsn); }
    CommonKept(common, buf[..], l);
  }

  lemma SignKeeps(s: seq<byte>, s': seq<byte>, l: Layout, vsn: dword)
    requires |s| == |s'| == 512 && (forall i :: 0 <= i < 510 ==> s'[i] == s[i]) && s'[510] == 0x55 && s'[511] == 0xAA
    requires Filled(s, l, vsn)
    ensures IsBootRecord(s', l, vsn)
  {
    assert Opens(0);
    CommonKept(s, s', l);
    if l.ty.Fat32? { Fat32Kept(s, s', l, vsn); } else { FatKept(s, s', l, vsn); }
  }

  lemma CommonKept(s: seq<byte>, s': seq<byte>, l: Layout)
    requires |s| == |s'| == 512 && CommonAt(s, l) && forall i :: 0 <= i < 36 && i != 22 && i != 23 ==> s'[i] == s[i]
    ensures CommonAt(s', l)
  {
    assert s'[..11] == s[..11];
  }

  lemma Fat32Kept(s: seq<byte>, s': seq<byte>, l: Layout, vsn: dword)
    requires |s| == |s'| == 512 && forall i :: 0 <= i < 510 ==> s'[i] == s[i]
    requires Fat32At(s, l, vsn)
    ensures Fat32At(s', l, vsn)
  {
    assert s'[71..82] == s[71..82] && s'[82..90] == s[82..90];
  }

  lemma FatKept(s: seq<byte>, s': seq<byte>, l: Layout, vsn: dword)
    requires |s| == |s'| == 512 && forall i :: 0 <= i < 510 ==> s'[i] == s[i]
    requires FatAt(s, l, vsn)
    ensures FatAt(s', l, vsn)
  {
    assert s'[43..54] == s[43..54] && s'[54..62] == s[54..62];
  }
}
