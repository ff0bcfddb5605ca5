/** The textual decoding the interpreter actually performs: it renders the
    fetched two-byte object with `bytes.hex()` (two lower-case hex digits per
    byte, high digit first), picks characters and slices of that text, and
    reads slices back with `int(s, 16)`. The lemma at the end shows that
    every such character and slice is one of the arithmetic fields of Words. */
module HexText {
  import opened Words
  import opened Semantics

  predicate IsHexDigit(c: char) {
    ('0' <= c <= '9') || ('a' <= c <= 'f') || ('A' <= c <= 'F')
  }

  predicate IsHexText(s: string) {
    forall i :: 0 <= i < |s| ==> IsHexDigit(s[i])
  }

  /** The value of one hex digit, as `int(c, 16)` reads it. */
  function DigitValue(c: char): (v: Nibble)
    requires IsHexDigit(c)
    ensures v < 10 <==> '0' <= c <= '9'
  {
    if '0' <= c <= '9' then c as int - '0' as int
    else if 'a' <= c <= 'f' then c as int - 'a' as int + 10
    else c as int - 'A' as int + 10
  }

  /** The lower-case digit `bytes.hex()` writes for a value below 16. */
  function HexDigit(d: Nibble): (c: char)
    ensures IsHexDigit(c) && DigitValue(c) == d
    ensures !('A' <= c <= 'F')
  {
    if d < 10 then ('0' as int + d) as char else ('a' as int + d - 10) as char
  }

  /** Two characters per byte, high digit first: Python's `bytes.hex()`. */
  function BytesHex(bs: seq<Byte>): (s: string)
    ensures |s| == 2 * |bs| && IsHexText(s)
    ensures forall i :: 0 <= i < |bs| ==> s[2 * i] == HexDigit(bs[i] / 16) && s[2 * i + 1] == HexDigit(bs[i] % 16)
  {
    if bs == [] then "" else [HexDigit(bs[0] / 16), HexDigit(bs[0] % 16)] + BytesHex(bs[1..])
  }

  function Pow16(e: nat): (p: nat)
    ensures p >= 1
  {
    if e == 0 then 1 else 16 * Pow16(e - 1)
  }

  /** Python's `int(s, 16)` on a non-empty run of hex digits (the empty
      string raises). A value of k digits is below 16^k. */
  function ParseHex(s: string): (v: nat)
    requires |s| > 0 && IsHexText(s)
    ensures v < Pow16(|s|)
  {
    if |s| == 1 then DigitValue(s[0]) else ParseHex(s[..|s| - 1]) * 16 + DigitValue(s[|s| - 1])
  }

  /** `int(c, 16)` reads either case; rendering its value gives the digit back
      in lower case. */
  lemma HexDigitOfDigitValue(c: char)
    requires IsHexDigit(c)
    ensures HexDigit(DigitValue(c)) == if 'A' <= c <= 'F' then (c as int + 32) as char else c
  {
  }

  /** Reading back the digits of a value gives the value: `int` undoes the
      rendering, digit by digit. */
  lemma {:induction false} ParseTwoDigits(a: Nibble, b: Nibble)
    ensures ParseHex([HexDigit(a), HexDigit(b)]) == a * 16 + b
  {
    var s := [HexDigit(a), HexDigit(b)];
    assert s[..1] == [HexDigit(a)];
    assert ParseHex([HexDigit(a)]) == a;
    assert ParseHex(s) == ParseHex(s[..1]) * 16 + DigitValue(s[1]);
  }

  lemma {:induction false} ParseThreeDigits(a: Nibble, b: Nibble, c: Nibble)
    ensures ParseHex([HexDigit(a), HexDigit(b), HexDigit(c)]) == a * 0x100 + b * 0x10 + c
  {
    var s := [HexDigit(a), HexDigit(b), HexDigit(c)];
    assert s[..2] == [HexDigit(a), HexDigit(b)];
    ParseTwoDigits(a, b);
    assert ParseHex(s) == ParseHex(s[..2]) * 16 + DigitValue(s[2]);
  }

  /** The characters and slices of `instruction.hex()` used by
      decode_and_execute, for the instruction fetched as the bytes `hi lo`:
      character k is the k-th nibble, the slice [1:3] is the second byte and
      the slice [1:] is the 12-bit address. */
  lemma {:induction false} InstructionHexFields(hi: Byte, lo: Byte)
    ensures var s := BytesHex([hi, lo]); var op := MakeWord(hi, lo);
      && |s| == 4
      && s[0] == HexDigit(FirstNibble(op))
      && s[1] == HexDigit(SecondNibble(op))
      && s[2] == HexDigit(ThirdNibble(op))
      && s[3] == HexDigit(FourthNibble(op))
      && ParseHex(s[1..3]) == SecondByte(op)
      && ParseHex(s[1..]) == LowTwelveBits(op)
  {
    var s := BytesHex([hi, lo]);
    var op := MakeWord(hi, lo);
    assert [hi, lo][1..] == [lo];
    assert [lo][1..] == [];
    assert BytesHex([lo]) == [HexDigit(lo / 16), HexDigit(lo % 16)];
    assert s == [HexDigit(hi / 16), HexDigit(hi % 16), HexDigit(lo / 16), HexDigit(lo % 16)];
    NibblesOfWord(hi, lo);
    assert s[1..3] == [HexDigit(hi % 16), HexDigit(lo / 16)];
    ParseTwoDigits(hi % 16, lo / 16);
    assert s[1..] == [HexDigit(hi % 16), HexDigit(lo / 16), HexDigit(lo % 16)];
    ParseThreeDigits(hi % 16, lo / 16, lo % 16);
  }

  /** The four nibbles of `hi lo` are the two digits of each byte. */
  lemma NibblesOfWord(hi: Byte, lo: Byte)
    ensures var op := MakeWord(hi, lo);
      && FirstNibble(op) == hi / 16 && SecondNibble(op) == hi % 16
      && ThirdNibble(op) == lo / 16 && FourthNibble(op) == lo % 16
      && LowTwelveBits(op) == hi % 16 * 0x100 + lo
  {
    // Stability hint: the digit decomposition keeps this cheap on every solver seed.
    var op := MakeWord(hi, lo);
    assert hi == hi / 16 * 16 + hi % 16;
    assert lo == lo / 16 * 16 + lo % 16;
    assert op == hi / 16 * 0x1000 + (hi % 16 * 0x100 + lo);
    assert op / 0x1000 == hi / 16;
    assert op / 0x100 == hi;
    assert op == (hi * 16 + lo / 16) * 16 + lo % 16;
    assert op / 0x10 == hi * 16 + lo / 16;
    assert op % 0x10 == lo % 16;
  }

  /** A case label of the interpreter's `match` is the lower-case digit of a
      nibble value, so matching a character is matching the nibble. */
  lemma CaseLabelMatchesNibble(d: Nibble, e: Nibble)
    ensures HexDigit(d) == HexDigit(e) <==> d == e
  {
    if HexDigit(d) == HexDigit(e) {
      assert DigitValue(HexDigit(d)) == d;
    }
  }

  /** decode_and_execute on the text of `instruction.hex()`: the `match` on
      its characters, with `int(s, 16)` on the digits and slices it reads. */
  function DecodeText(s: string): Instruction
    requires |s| == 4 && IsHexText(s)
  {
    assert Pow16(2) == 0x100;
    var secondByte := ParseHex(s[1..3]);
    var nibbles234 := ParseHex(s[1..]);
    match s[0]
    case '0' => (
      match s[3]
      case '0' => ClearScreen
      case 'e' => Return
      case _ => NoMatch)
    case '1' => Jump(nibbles234)
    case '6' => SetRegister(DigitValue(s[1]), secondByte)
    case '7' => AddToRegister(DigitValue(s[1]), secondByte)
    case 'a' => SetIndex(nibbles234)
    case 'd' => Draw(DigitValue(s[1]), DigitValue(s[2]), DigitValue(s[3]))
    case _ => NoMatch
  }

  /** The text-level decoding of a fetched instruction takes the same arm,
      with the same operands, as the arithmetic Decode of its word. */
  lemma DecodeTextMatchesDecode(hi: Byte, lo: Byte)
    ensures DecodeText(BytesHex([hi, lo])) == Decode(MakeWord(hi, lo))
  {
    var s := BytesHex([hi, lo]);
    var op := MakeWord(hi, lo);
    InstructionHexFields(hi, lo);
    assert DigitValue(s[1]) == SecondNibble(op);
    assert DigitValue(s[2]) == ThirdNibble(op);
    assert DigitValue(s[3]) == FourthNibble(op);
  }
}
