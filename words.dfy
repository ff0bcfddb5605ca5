/** Value types of the CHIP-8 core: memory cells, display pixels and the
    16-bit opcode word, with the opcode fields the interpreter extracts. */
module Words {

  /** A memory cell or general register: an unsigned 8-bit value. */
  type Byte = b: int | 0 <= b < 256

  /** A display pixel: 0 (off) or 1 (on). */
  type Bit = b: int | 0 <= b < 2

  /** A 4-bit field of an opcode, also used as a register number. */
  type Nibble = n: int | 0 <= n < 16

  /** An opcode: the big-endian word made of two consecutive memory cells. */
  type Word = w: int | 0 <= w < 0x1_0000

  /** The word `hi lo`: the two one-byte objects concatenated by fetch. */
  function MakeWord(hi: Byte, lo: Byte): (w: Word)
    ensures w / 256 == hi && w % 256 == lo
  {
    hi * 256 + lo
  }

  /** First hex digit of the opcode (`op >> 12`): selects the instruction group.
      It is the number of whole 0x1000 blocks below the word. */
  function FirstNibble(op: Word): (n: Nibble)
    ensures n * 0x1000 <= op < n * 0x1000 + 0x1000
  {
    op / 0x1000
  }

  /** Second hex digit (`(op >> 8) & 0xF`): register X, the leading digit of
      the low twelve bits. */
  function SecondNibble(op: Word): (n: Nibble)
    ensures n * 0x100 <= op % 0x1000 < n * 0x100 + 0x100
  {
    var q := op / 0x100;
    assert op == q * 0x100 + op % 0x100;
    assert q == q / 0x10 * 0x10 + q % 0x10;
    assert op == q / 0x10 * 0x1000 + (q % 0x10 * 0x100 + op % 0x100);
    assert op % 0x1000 == q % 0x10 * 0x100 + op % 0x100;
    q % 0x10
  }

  /** Third hex digit (`(op >> 4) & 0xF`): register Y, the leading digit of
      the low byte. */
  function ThirdNibble(op: Word): (n: Nibble)
    ensures n * 0x10 <= op % 0x100 < n * 0x10 + 0x10
  {
    var q := op / 0x10;
    assert op == q * 0x10 + op % 0x10;
    assert q == q / 0x10 * 0x10 + q % 0x10;
    assert op == q / 0x10 * 0x100 + (q % 0x10 * 0x10 + op % 0x10);
    assert op % 0x100 == q % 0x10 * 0x10 + op % 0x10;
    q % 0x10
  }

  /** Fourth hex digit (`op & 0xF`): N, the sub-selector or sprite height.
      The word minus it is a multiple of 16. */
  function FourthNibble(op: Word): (n: Nibble)
    ensures (op - n) % 16 == 0
  {
    op % 16
  }

  /** The second and third hex digits read as one byte (`(op >> 4) & 0xFF`).
      This is what the interpreter calls its second byte; it is not the low
      byte NN of the opcode. */
  function SecondByte(op: Word): (b: Byte)
    ensures b == SecondNibble(op) * 16 + ThirdNibble(op)
  {
    var q := op / 0x10;
    DivideTwice(op);
    SplitLowByte(q);
    q % 0x100
  }

  /** Dividing by 16 twice is dividing by 256. */
  lemma DivideTwice(a: nat)
    ensures a / 0x10 / 0x10 == a / 0x100
  {
    var t := a / 0x10;
    assert a == t * 0x10 + a % 0x10;
    assert t == t / 0x10 * 0x10 + t % 0x10;
    assert a == t / 0x10 * 0x100 + (t % 0x10 * 0x10 + a % 0x10);
    assert 0 <= t % 0x10 * 0x10 + a % 0x10 < 0x100;
  }

  /** A value's low byte is its second-lowest hex digit times 16 plus its lowest. */
  lemma SplitLowByte(q: nat)
    ensures q % 0x100 == q / 0x10 % 0x10 * 0x10 + q % 0x10
  {
    var t := q / 0x10;
    assert q == t * 0x10 + q % 0x10;
    assert t == t / 0x10 * 0x10 + t % 0x10;
    assert q == t / 0x10 * 0x100 + (t % 0x10 * 0x10 + q % 0x10);
    ModUnique(q, 0x100, t / 0x10, t % 0x10 * 0x10 + q % 0x10);
  }

  /** The remainder is determined by any quotient-remainder decomposition. */
  lemma ModUnique(a: int, d: int, m: int, r: int)
    requires d > 0 && 0 <= r < d && a == m * d + r
    ensures a % d == r
  {
    var t := a / d - m;
    assert a == a / d * d + a % d;
    assert t * d == r - a % d;
    assert -d < t * d < d;
  }

  /** The last three hex digits (`op & 0xFFF`): the address NNN. With the
      first digit it makes up the whole word. */
  function LowTwelveBits(op: Word): (a: nat)
    ensures a < 0x1000
    ensures op == FirstNibble(op) * 0x1000 + a
  {
    op % 0x1000
  }

  /** The second byte coincides with the low byte NN exactly when the second,
      third and fourth digits are all the same. */
  lemma SecondByteIsLowByteIff(op: Word)
    ensures SecondByte(op) == op % 0x100 <==> SecondNibble(op) == ThirdNibble(op) == FourthNibble(op)
  {
    var q := op / 0x10;
    assert op == q * 0x10 + op % 0x10;
    assert op % 0x100 == ThirdNibble(op) * 0x10 + FourthNibble(op);
  }

  /** Two instances: for 6005 and 7003 the second byte is 0x00 while NN is
      0x05 and 0x03. */
  lemma SecondByteDiffersFromLowByte()
    ensures SecondByte(0x6005) == 0x00 && 0x6005 % 0x100 == 0x05
    ensures SecondByte(0x7003) == 0x00 && 0x7003 % 0x100 == 0x03
  {
  }
}
