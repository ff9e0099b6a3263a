/** FAT entries as fatfs/ff.c packs them into the bytes of the table: 12-bit entries that share
    bytes, 16-bit words, and 28-bit values in 32-bit words. */
module FatEntries {
  import opened Bytes
  import opened Sectors

  const MAX_FAT12: nat := 0xFF5
  const MAX_FAT16: nat := 0xFFF5
  const MAX_FAT32: nat := 0x0FFF_FFF5

  datatype FatType = Fat12 | Fat16 | Fat32

  function MaxClusters(ty: FatType): nat {
    match ty
    case Fat12 => MAX_FAT12
    case Fat16 => MAX_FAT16
    case Fat32 => MAX_FAT32
  }

  /** Bytes a FAT of `n` entries takes (`szbfat` in mount_volume). */
  function FatSize(ty: FatType, n: nat): nat {
    match ty
    case Fat12 => n * 3 / 2 + n % 2
    case Fat16 => n * 2
    case Fat32 => n * 4
  }

  /** Byte offset of the entry of cluster `c`. */
  function Offset(ty: FatType, c: nat): nat {
    match ty
    case Fat12 => c + c / 2
    case Fat16 => c * 2
    case Fat32 => c * 4
  }

  function Width(ty: FatType): nat {
    if ty.Fat32? then 4 else 2
  }

  /** What is left of a value once it has been stored in an entry. */
  function Masked(ty: FatType, val: dword): nat {
    match ty
    case Fat12 => val % 0x1000
    case Fat16 => val % 0x1_0000
    case Fat32 => val % 0x1000_0000
  }

  lemma EntryFits(ty: FatType, c: nat, n: nat)
    requires c < n
    ensures Offset(ty, c) + Width(ty) <= FatSize(ty, n)
  {
  }

  /** The value of the entry of cluster `c`. */
  function Entry(ty: FatType, fat: seq<byte>, c: nat): (v: nat)
    requires Offset(ty, c) + Width(ty) <= |fat|
    ensures v < if ty.Fat12? then 0x1000 else if ty.Fat16? then 0x1_0000 else 0x1000_0000
  {
    var k := Offset(ty, c);
    match ty
    case Fat12 =>
      var wc := Word(fat[k], fat[k + 1]);
      if c % 2 == 1 then wc / 16 else wc % 0x1000
    case Fat16 => Word(fat[k], fat[k + 1])
    case Fat32 => Dword(fat[k], fat[k + 1], fat[k + 2], fat[k + 3]) % 0x1000_0000
  }

  /** Which bytes, and which half of a shared one, make the entry. */
  lemma EntryMeans(ty: FatType, fat: seq<byte>, c: nat)
    requires Offset(ty, c) + Width(ty) <= |fat|
    ensures ty.Fat16? ==> 2 * c + 1 < |fat| && Entry(ty, fat, c) == Word(fat[2 * c], fat[2 * c + 1])
    ensures ty.Fat32? ==>
              && 4 * c + 3 < |fat|
              && Entry(ty, fat, c) == Dword(fat[4 * c], fat[4 * c + 1], fat[4 * c + 2], fat[4 * c + 3] % 16)
    ensures ty.Fat12? && c % 2 == 0 ==>
              var k := c / 2 * 3; k + 1 < |fat| && Entry(ty, fat, c) == Word(fat[k], fat[k + 1] % 16)
    ensures ty.Fat12? && c % 2 == 1 ==>
              var k := c / 2 * 3;
              k + 2 < |fat| && var low: nat, high: nat :=
                  fat[k + 1], fat[k + 2]; Entry(ty, fat, c) == low / 16 + 16 * high
  {
    if ty.Fat32? {
      var k := 4 * c;
      LowBits(fat[k], fat[k + 1], fat[k + 2], fat[k + 3]);
    }
  }

  lemma Entry32Is(fat: seq<byte>, c: nat, b0: byte, b1: byte, b2: byte, b3: byte)
    requires 4 * c + 4 <= |fat| && b3 < 16
    requires fat[4 * c] == b0 && fat[4 * c + 1] == b1 && fat[4 * c + 2] == b2 && fat[4 * c + 3] % 16 == b3
    ensures Entry(Fat32, fat, c) == Dword(b0, b1, b2, b3)
  {
    LowBits(fat[4 * c], fat[4 * c + 1], fat[4 * c + 2], fat[4 * c + 3]);
  }

  lemma LowBits(b0: byte, b1: byte, b2: byte, b3: byte)
    ensures Dword(b0, b1, b2, b3) % 0x1000_0000 == Dword(b0, b1, b2, b3 % 16)
  {
    var x := Dword(b0, b1, b2, b3 % 16);
    assert Dword(b0, b1, b2, b3) == 0x1000_0000 * (b3 / 16) + x;
  }

  /** The table as a sequence of values, one per cluster number. */
  ghost function Entries(ty: FatType, fat: seq<byte>, n: nat): (es: seq<nat>)
    requires FatSize(ty, n) <= |fat|
    ensures |es| == n
    ensures forall c :: 0 <= c < n ==> Offset(ty, c) + Width(ty) <= |fat| && es[c] == Entry(ty, fat, c)
  {
    assert forall c: nat :: c < n ==> Offset(ty, c) + Width(ty) <= |fat| by {
      forall c: nat | c < n ensures Offset(ty, c) + Width(ty) <= |fat| { EntryFits(ty, c, n); }
    }
    seq(n, c requires 0 <= c < n => Entry(ty, fat, c))
  }

  // ----- FAT12

  lemma Nibbles(a: byte, b: byte)
    ensures Word(a, b) / 16 == a / 16 + 16 * b
    ensures Word(a, b) % 0x1000 == a + 0x100 * (b % 16)
  {
    assert a + 0x100 * b == a % 16 + 16 * (a / 16 + 16 * b);
    assert a + 0x100 * b == (a + 0x100 * (b % 16)) + 0x1000 * (b / 16);
  }

  lemma Digits(x: nat)
    ensures x % 0x100 == x % 16 + 16 * (x / 16 % 16)
    ensures x % 0x1000 == x % 0x100 + 0x100 * (x / 0x100 % 16)
  {
    var h := x / 16;
    var d0, d1, q := x - 16 * h, h - 16 * (h / 16), h / 16;
    assert x == (d0 + 16 * d1) + 0x100 * q;
    Split(d0, h);
    Split(d1, q);
    Split8(d0 + 16 * d1, q);
    UpperDigit(d0 + 16 * d1, q);
  }

  lemma UpperDigit(b: nat, q: nat)
    requires b < 0x100
    ensures (b + 0x100 * q) % 0x1000 == b + 0x100 * (q % 16)
  {
    var p := q / 16;
    assert b + 0x100 * q == (b + 0x100 * (q % 16)) + 0x1000 * p;
    Split12(b + 0x100 * (q % 16), p);
  }

  lemma Split8(a: nat, q: nat)
    requires a < 0x100
    ensures (a + 0x100 * q) / 0x100 == q && (a + 0x100 * q) % 0x100 == a
  {
  }

  lemma Split12(a: nat, q: nat)
    requires a < 0x1000
    ensures (a + 0x1000 * q) % 0x1000 == a
  {
  }

  lemma Split(a: nat, q: nat)
    requires a < 16
    ensures (a + 16 * q) / 16 == q && (a + 16 * q) % 16 == a
  {
  }

  /** What a byte `b` that replaces byte `x` of a FAT12 entry has to hold. */
  predicate Half12(second: bool, odd: bool, val: dword, x: byte, b: byte) {
    if second then if odd then b == val / 16 % 0x100 else b / 16 == x / 16 && b % 16 == val / 0x100 % 16
    else if odd then b % 16 == x % 16 && b / 16 == val % 16 else b == val % 0x100
  }

  /** put_fat's update of the first byte of a FAT12 entry, over `x`. */
  method FirstByte12(odd: bool, val: dword, x: byte) returns (b: byte)
    ensures Half12(false, odd, val, x, b)
  {
    if odd {
      Digits(val);
      assert val % 0x100 * 16 % 0x100 == 16 * (val % 16);
      Split(x % 16, val % 16);
      b := x % 16 + val % 0x100 * 16 % 0x100;
    } else {
      b := val % 0x100;
    }
  }

  /** put_fat's update of the second byte of a FAT12 entry, over `x`. */
  method SecondByte12(odd: bool, val: dword, x: byte) returns (b: byte)
    ensures Half12(true, odd, val, x, b)
  {
    if odd {
      b := val / 16 % 0x100;
    } else {
      Digits(val / 0x100);
      Split(val / 0x100 % 16, x / 16);
      b := x / 16 * 16 + val / 0x100 % 0x100 % 16;
    }
  }

  /** Bytes `b0`, `b1` hold `val` in their entry's nibbles and keep the neighbour's nibble. */
  predicate Holds12(odd: bool, val: dword, x0: byte, x1: byte, b0: byte, b1: byte) {
    if odd then b0 % 16 == x0 % 16 && b0 / 16 + 16 * b1 == val % 0x1000
    else b1 / 16 == x1 / 16 && b0 + 0x100 * (b1 % 16) == val % 0x1000
  }

  lemma Bytes12Hold(odd: bool, val: dword, x0: byte, x1: byte, b0: byte, b1: byte)
    requires Half12(false, odd, val, x0, b0) && Half12(true, odd, val, x1, b1)
    ensures Holds12(odd, val, x0, x1, b0, b1)
  {
    Digits(val);
    Digits(val / 16);
    assert val / 16 / 16 == val / 0x100;
  }

  /** A FAT12 entry shares a byte with a neighbour; storing it leaves the neighbour alone. */
  lemma SetEntry12(fat: seq<byte>, n: nat, c: nat, k: nat, val: dword, b0: byte, b1: byte)
    requires FatSize(Fat12, n) <= |fat| && c < n && k == c + c / 2 && k + 1 < |fat|
    requires Holds12(c % 2 == 1, val, fat[k], fat[k + 1], b0, b1)
    ensures var fat' := Patch(Patch(fat, k, [b0]), k + 1, [b1]);
            Entries(Fat12, fat', n) == Entries(Fat12, fat, n)[c := Masked(Fat12, val)]
  {
    var fat' := Patch(Patch(fat, k, [b0]), k + 1, [b1]);
    TwoBytes(fat, fat', k, b0, b1);
    EntriesSet12(fat, fat', n, c, k, val, Entries(Fat12, fat, n), Entries(Fat12, fat', n));
  }

  /** `fat'` is `fat` but for the two bytes from `k` on. */
  ghost predicate OnlyTwo(fat: seq<byte>, fat': seq<byte>, k: nat) {
    k + 1 < |fat| == |fat'| && forall i :: 0 <= i < |fat| && i != k && i != k + 1 ==> fat'[i] == fat[i]
  }

  lemma TwoBytes(fat: seq<byte>, fat': seq<byte>, k: nat, b0: byte, b1: byte)
    requires k + 1 < |fat| && fat' == Patch(Patch(fat, k, [b0]), k + 1, [b1])
    ensures OnlyTwo(fat, fat', k) && fat'[k] == b0 && fat'[k + 1] == b1
  {
  }

  lemma EntriesSet12(fat: seq<byte>, fat': seq<byte>, n: nat, c: nat, k: nat, val: dword, es: seq<nat>, es': seq<nat>)
    requires FatSize(Fat12, n) <= |fat| && c < n && k == c + c / 2 && OnlyTwo(fat, fat', k)
    requires Holds12(c % 2 == 1, val, fat[k], fat[k + 1], fat'[k], fat'[k + 1])
    requires es == Entries(Fat12, fat, n) && es' == Entries(Fat12, fat', n)
    ensures es' == es[c := Masked(Fat12, val)]
  {
    forall i | 0 <= i < n ensures es'[i] == if i == c then Masked(Fat12, val) else es[i] {
      EntryFits(Fat12, i, n);
      if i == c { OwnEntry12(fat, fat', c, k, val); } else { OtherEntry12(fat, fat', c, k, val, i, i + i / 2); }
    }
  }

  lemma OwnEntry12(fat: seq<byte>, fat': seq<byte>, c: nat, k: nat, val: dword)
    requires k == c + c / 2 && OnlyTwo(fat, fat', k)
    requires Holds12(c % 2 == 1, val, fat[k], fat[k + 1], fat'[k], fat'[k + 1])
    ensures Entry(Fat12, fat', c) == val % 0x1000
  {
    Nibbles(fat'[k], fat'[k + 1]);
  }

  lemma OtherEntry12(fat: seq<byte>, fat': seq<byte>, c: nat, k: nat, val: dword, i: nat, j: nat)
    requires k == c + c / 2 && OnlyTwo(fat, fat', k) && i != c && j == i + i / 2 && j + 1 < |fat|
    requires Holds12(c % 2 == 1, val, fat[k], fat[k + 1], fat'[k], fat'[k + 1])
    ensures Entry(Fat12, fat', i) == Entry(Fat12, fat, i)
  {
    Nibbles(fat[j], fat[j + 1]);
    Nibbles(fat'[j], fat'[j + 1]);
    Neighbours12(c, k, i, j);
  }

  /** Entries share a byte only if one is even and the other its successor. */
  lemma Neighbours12(c: nat, k: nat, i: nat, j: nat)
    requires k == c + c / 2 && j == i + i / 2 && i != c
    ensures j + 1 < k || k + 1 < j || (i == c + 1 && c % 2 == 0 && j == k + 1)
            || (c == i + 1 && i % 2 == 0 && k == j + 1)
  {
  }

  // ----- FAT16 and FAT32

  lemma SetEntry16(fat: seq<byte>, n: nat, c: nat, val: dword)
    requires FatSize(Fat16, n) <= |fat| && c < n
    ensures var w: word := val % 0x1_0000;
            var fat' := Patch(fat, c * 2, WordBytes(w));
            Entries(Fat16, fat', n) == Entries(Fat16, fat, n)[c := Masked(Fat16, val)]
  {
    var w: word := val % 0x1_0000;
    var fat' := Patch(fat, c * 2, WordBytes(w));
    WordOfBytes(w);
    assert Entries(Fat16, fat', n) == Entries(Fat16, fat, n)[c := Masked(Fat16, val)];
  }

  /** `val` with the four reserved bits of the old entry `x` above it. */
  function WithReserved(val: dword, x: dword): (v: dword)
    ensures v % 0x1000_0000 == val % 0x1000_0000 && v / 0x1000_0000 == x / 0x1000_0000
  {
    val % 0x1000_0000 + x / 0x1000_0000 * 0x1000_0000
  }

  lemma SetEntry32(fat: seq<byte>, n: nat, c: nat, val: dword, v: dword)
    requires FatSize(Fat32, n) <= |fat| && c < n
    requires v % 0x1000_0000 == val % 0x1000_0000
    ensures var fat' := Patch(fat, c * 4, DwordBytes(v));
            Entries(Fat32, fat', n) == Entries(Fat32, fat, n)[c := Masked(Fat32, val)]
  {
    var fat' := Patch(fat, c * 4, DwordBytes(v));
    DwordOfBytes(v);
    assert Entries(Fat32, fat', n) == Entries(Fat32, fat, n)[c := Masked(Fat32, val)];
  }
}
