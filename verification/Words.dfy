/**
 A 32-bit word of guest memory, held as its twelve low bits and the number in its upper twenty, which is
 how the page walk reads it; and the four bytes of such a word, which is how everything else reads it.
 */
module Words {

  /** The number of a 4 KB page, linear or physical. */
  type Page = p: int | 0 <= p < 0x100000

  /** Four bits, b0 the least significant. */
  datatype Nibble = Nibble(b0: bool, b1: bool, b2: bool, b3: bool)

  /** Bits 0 to 3, 4 to 7, 8 to 11, and the number in bits 12 to 31. */
  datatype Word = Word(n0: Nibble, n1: Nibble, n2: Nibble, frame: Page)

  type Byte = b: int | 0 <= b < 256

  function Bit(b: bool): int {
    if b then 1 else 0
  }

  function Value(x: Nibble): (n: int)
    ensures 0 <= n < 16
  {
    Bit(x.b0) + 2 * Bit(x.b1) + 4 * Bit(x.b2) + 8 * Bit(x.b3)
  }

  function ToNibble(n: int): Nibble {
    Nibble(n % 2 == 1, n / 2 % 2 == 1, n / 4 % 2 == 1, n / 8 % 2 == 1)
  }

  lemma ValueOfNibble(n: int)
    requires 0 <= n < 16
    ensures Value(ToNibble(n)) == n
  {
  }

  /** Byte k of a word, counting from the least significant. */
  function ByteOf(w: Word, k: int): Byte
    requires 0 <= k < 4
  {
    if k == 0 then Value(w.n0) + 16 * Value(w.n1)
    else if k == 1 then Value(w.n2) + 16 * (w.frame % 16)
    else if k == 2 then w.frame / 16 % 256
    else w.frame / 16 / 256
  }

  function FromBytes(b0: Byte, b1: Byte, b2: Byte, b3: Byte): Word {
    Word(ToNibble(b0 % 16), ToNibble(b0 / 16), ToNibble(b1 % 16), b1 / 16 + 16 * (b2 + 256 * b3))
  }

  lemma DivMod16(low: int, high: int)
    requires 0 <= low < 16
    ensures (low + 16 * high) % 16 == low && (low + 16 * high) / 16 == high
  {
  }

  /** Any four bytes are a word. */
  lemma BytesOfWord(b0: Byte, b1: Byte, b2: Byte, b3: Byte)
    ensures var w := FromBytes(b0, b1, b2, b3);
            ByteOf(w, 0) == b0 && ByteOf(w, 1) == b1 && ByteOf(w, 2) == b2 && ByteOf(w, 3) == b3
  {
    var w := FromBytes(b0, b1, b2, b3);
    ValueOfNibble(b0 % 16);
    ValueOfNibble(b0 / 16);
    ValueOfNibble(b1 % 16);
    DivMod16(b1 / 16, b2 + 256 * b3);
    assert w.frame / 16 == b2 + 256 * b3;
  }

  /** The number that a word is. */
  function Number(w: Word): (n: int)
    ensures 0 <= n < 0x1_0000_0000
  {
    Value(w.n0) + 0x10 * Value(w.n1) + 0x100 * Value(w.n2) + 0x1000 * w.frame
  }

  /** The bytes of a word are those of its number, the lowest first. */
  lemma BytesOfNumber(w: Word)
    ensures Number(w) == ByteOf(w, 0) + 0x100 * ByteOf(w, 1) + 0x1_0000 * ByteOf(w, 2) + 0x100_0000 * ByteOf(w, 3)
  {
  }

  lemma BitsOfNibble(x: Nibble, rest: int)
    ensures var n := Value(x) + 16 * rest;
            && n % 2 == Bit(x.b0) && n / 2 % 2 == Bit(x.b1) && n / 4 % 2 == Bit(x.b2) && n / 8 % 2 == Bit(x.b3)
            && n / 16 == rest
  {
    var n := Value(x) + 16 * rest;
    assert n / 2 == Bit(x.b1) + 2 * Bit(x.b2) + 4 * Bit(x.b3) + 8 * rest;
    assert n / 4 == Bit(x.b2) + 2 * Bit(x.b3) + 4 * rest;
    assert n / 8 == Bit(x.b3) + 2 * rest;
  }

  /** The bits of a table entry by their numbers: present (0), writable (1), user (2), accessed (5), dirty (6), page
      size (7) and global (8); the frame is what is above bit 11. */
  lemma EntryBits(w: Word)
    ensures var n := Number(w);
            && Bit(w.n0.b0) == n % 2 && Bit(w.n0.b1) == n / 2 % 2 && Bit(w.n0.b2) == n / 4 % 2
            && Bit(w.n1.b1) == n / 0x20 % 2 && Bit(w.n1.b2) == n / 0x40 % 2 && Bit(w.n1.b3) == n / 0x80 % 2
            && Bit(w.n2.b0) == n / 0x100 % 2 && w.frame == n / 0x1000
  {
    var n := Number(w);
    var middle := Value(w.n1) + 16 * (Value(w.n2) + 16 * w.frame);
    BitsOfNibble(w.n0, middle);
    BitsOfNibble(w.n1, Value(w.n2) + 16 * w.frame);
    BitsOfNibble(w.n2, w.frame);
    assert n == Value(w.n0) + 16 * middle && n / 16 == middle;
    assert n / 0x20 == middle / 2 && n / 0x40 == middle / 4 && n / 0x80 == middle / 8;
    assert n / 0x100 == middle / 16 && n / 0x1000 == middle / 16 / 16;
  }
}
