/** Bytes, and the little-endian words that `st_word`, `ld_word`, `st_dword` and `ld_dword`
    move in and out of sector buffers.  Shifts and masks on unsigned values are written
    with `/`, `*` and `%` by powers of two. */
module Bytes {

  type byte = x: int | 0 <= x < 0x100
  type word = x: int | 0 <= x < 0x1_0000
  type dword = x: int | 0 <= x < 0x1_0000_0000

  const DWORD_MAX: dword := 0xFFFF_FFFF

  function Word(b0: byte, b1: byte): word {
    b0 + 0x100 * b1
  }

  function Dword(b0: byte, b1: byte, b2: byte, b3: byte): dword {
    b0 + 0x100 * b1 + 0x1_0000 * b2 + 0x100_0000 * b3
  }

  /** The k-th byte of a double word, least significant first. */
  function ByteOf(x: dword, k: nat): byte
    requires k < 4
  {
    if k == 0 then x % 0x100
    else if k == 1 then x / 0x100 % 0x100
    else if k == 2 then x / 0x1_0000 % 0x100
    else x / 0x100_0000
  }

  function WordBytes(x: word): seq<byte> {
    [ByteOf(x, 0), ByteOf(x, 1)]
  }

  function DwordBytes(x: dword): seq<byte> {
    [ByteOf(x, 0), ByteOf(x, 1), ByteOf(x, 2), ByteOf(x, 3)]
  }

  lemma DwordOfBytes(x: dword)
    ensures Dword(ByteOf(x, 0), ByteOf(x, 1), ByteOf(x, 2), ByteOf(x, 3)) == x
  {
    assert x == 0x100 * (x / 0x100) + x % 0x100;
    assert x / 0x100 / 0x100 == x / 0x1_0000;
    assert x / 0x1_0000 / 0x100 == x / 0x100_0000;
  }

  /** The bytes of a double word are those it was made of, least significant first. */
  lemma BytesOfDword(a: byte, b: byte, c: byte, d: byte)
    ensures var x := Dword(a, b, c, d); ByteOf(x, 0) == a && ByteOf(x, 1) == b && ByteOf(x, 2) == c && ByteOf(x, 3) == d
  {
    var x := Dword(a, b, c, d);
    assert x == 0x100 * (b + 0x100 * c + 0x1_0000 * d) + a;
    assert x / 0x100 == b + 0x100 * c + 0x1_0000 * d == 0x100 * (c + 0x100 * d) + b;
    assert x / 0x1_0000 == c + 0x100 * d;
  }

  lemma BytesOfWord(a: byte, b: byte)
    ensures var x := Word(a, b); ByteOf(x, 0) == a && ByteOf(x, 1) == b && x % 0x100 == a && x / 0x100 == b
  {
  }

  lemma WordOfBytes(x: word)
    ensures Word(ByteOf(x, 0), ByteOf(x, 1)) == x
  {
  }
}
