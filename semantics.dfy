/** The interpreter's state as a value and what one decoded instruction does
    to it. The CPU class (module Cpu) is proved to change its fields exactly as
    Execute says; the lemmas here state what that means opcode by opcode. */
module Semantics {
  import opened Words

  const MemorySize := 4096
  const DisplayHeight := 32
  const DisplayWidth := 64
  const RegisterCount := 16
  /** VF, written `variable_registers[-1]` by the draw instruction. */
  const Flag := 15
  const ProgramStart := 0x200
  const SpriteWidth := 8

  /** Every field of the CPU object, in the order the constructor sets them. */
  datatype State = State(
    memory: seq<Byte>,
    display: seq<seq<Bit>>,
    pc: nat,
    index: nat,
    stack: seq<nat>,
    delayTimer: nat,
    soundTimer: nat,
    registers: seq<Byte>)

  /** 32 rows of 64 pixels. */
  predicate IsScreen(d: seq<seq<Bit>>) {
    |d| == DisplayHeight && forall y :: 0 <= y < DisplayHeight ==> |d[y]| == DisplayWidth
  }

  predicate WellFormed(s: State) {
    |s.memory| == MemorySize && IsScreen(s.display) && |s.registers| == RegisterCount
  }

  function Min(a: int, b: int): int {
    if a < b then a else b
  }

  // ---------------------------------------------------------------- decoding

  /** What decode_and_execute does with an opcode: one of the arms of its
      `match`, or no arm at all. */
  datatype Instruction =
    | ClearScreen                                // 0__0
    | Return                                     // 0__e
    | Jump(target: nat)                          // 1NNN
    | SetRegister(x: Nibble, value: Byte)        // 6X__, value = second byte
    | AddToRegister(x: Nibble, value: Byte)      // 7X__, value = second byte
    | SetIndex(address: nat)                     // ANNN
    | Draw(x: Nibble, y: Nibble, height: Nibble) // DXYN
    | NoMatch                                    // no case applies

  /** The arm of decode_and_execute's `match` that an opcode takes. The jump
      target and the index address are the rest of the word after its group
      digit, and exactly the opcodes with no `case` do nothing. */
  function Decode(op: Word): (r: Instruction)
    ensures r.Jump? ==> op == 0x1000 + r.target
    ensures r.SetIndex? ==> op == 0xA000 + r.address
    ensures r == NoMatch <==>
      FirstNibble(op) !in {0x0, 0x1, 0x6, 0x7, 0xA, 0xD} || (FirstNibble(op) == 0x0 && FourthNibble(op) !in {0x0, 0xE})
  {
    match FirstNibble(op)
    case 0x0 =>
      if FourthNibble(op) == 0x0 then ClearScreen
      else if FourthNibble(op) == 0xE then Return
      else NoMatch
    case 0x1 => Jump(LowTwelveBits(op))
    case 0x6 => SetRegister(SecondNibble(op), SecondByte(op))
    case 0x7 => AddToRegister(SecondNibble(op), SecondByte(op))
    case 0xA => SetIndex(LowTwelveBits(op))
    case 0xD => Draw(SecondNibble(op), ThirdNibble(op), FourthNibble(op))
    case _ => NoMatch
  }

  // ----------------------------------------------------------------- drawing

  /** `x_cord` and `y_cord`: the register value masked with 63 (for both axes). */
  function Coordinate(v: Byte): (c: nat)
    ensures c < 64 && c % 64 == v % 64
  {
    v % 64
  }

  /** Pixel (y, x) is visited by the loops `for y in range(yc, min(32, n))`
      and `for x in range(xc, min(64, 8))`. */
  predicate InWindow(xc: nat, yc: nat, n: nat, y: int, x: int)
    ensures InWindow(xc, yc, n, y, x) ==> y < n && x < SpriteWidth && 0 <= y - yc < RowsDrawn(yc, n)
  {
    yc <= y < Min(DisplayHeight, n) && xc <= x < Min(DisplayWidth, SpriteWidth)
  }

  /** Number of sprite rows read from memory, one per visited display row. */
  function RowsDrawn(yc: nat, n: nat): (k: nat)
    ensures yc + k == Min(DisplayHeight, n) || k == 0
    ensures k > 0 <==> yc < Min(DisplayHeight, n)
  {
    if yc < Min(DisplayHeight, n) then Min(DisplayHeight, n) - yc else 0
  }

  function Pow2(e: nat): (p: nat)
    ensures p >= 1
  {
    if e == 0 then 1 else 2 * Pow2(e - 1)
  }

  /** Bit k of a sprite row, counting from the most significant bit: bit 0
      is set exactly when the row is at least 0x80, bit 7 when it is odd. */
  function SpriteBit(row: Byte, k: nat): (b: Bit)
    requires k < SpriteWidth
    ensures k == 0 ==> (b == 1 <==> row >= 0x80)
    ensures k == SpriteWidth - 1 ==> (b == 1 <==> row % 2 == 1)
  {
    assert Pow2(7) == 0x80;
    row / Pow2(SpriteWidth - 1 - k) % 2
  }

  /** `display[y][x] ^= bit` on 0/1 values. */
  function Xor(a: Bit, b: Bit): (r: Bit)
    ensures r == 1 <==> a != b
  {
    (a + b) % 2
  }

  /** The precondition of a draw: each sprite row it reads lies in memory. */
  predicate SpriteFits(mem: seq<Byte>, index: nat, yc: nat, n: nat) {
    index + RowsDrawn(yc, n) <= |mem|
  }

  /** The sprite row used for display row y: `memory[index + (y - yc)]`. */
  function SpriteRow(mem: seq<Byte>, index: nat, yc: nat, n: nat, y: int): Byte
    requires SpriteFits(mem, index, yc, n) && yc <= y < Min(DisplayHeight, n)
  {
    mem[index + (y - yc)]
  }

  /** The value of pixel (y, x) after the draw. */
  function Blitted(d: seq<seq<Bit>>, mem: seq<Byte>, index: nat, xc: nat, yc: nat, n: nat, y: int, x: int): Bit
    requires IsScreen(d) && SpriteFits(mem, index, yc, n)
    requires 0 <= y < DisplayHeight && 0 <= x < DisplayWidth
  {
    if InWindow(xc, yc, n, y, x) then Xor(d[y][x], SpriteBit(SpriteRow(mem, index, yc, n, y), x - xc))
    else d[y][x]
  }

  /** The display after drawing: each visited pixel XORed with its sprite bit. */
  function Blit(d: seq<seq<Bit>>, mem: seq<Byte>, index: nat, xc: nat, yc: nat, n: nat): (r: seq<seq<Bit>>)
    requires IsScreen(d) && SpriteFits(mem, index, yc, n)
    ensures IsScreen(r)
  {
    seq(DisplayHeight, y requires 0 <= y < DisplayHeight =>
      seq(DisplayWidth, x requires 0 <= x < DisplayWidth => Blitted(d, mem, index, xc, yc, n, y, x)))
  }

  /** The test that raises the flag: a visited pixel that is on and whose
      sprite bit is set. */
  predicate Hit(d: seq<seq<Bit>>, mem: seq<Byte>, index: nat, xc: nat, yc: nat, n: nat, y: int, x: int)
    requires IsScreen(d) && SpriteFits(mem, index, yc, n)
  {
    && 0 <= y < DisplayHeight && 0 <= x < DisplayWidth
    && InWindow(xc, yc, n, y, x)
    && d[y][x] == 1 && SpriteBit(SpriteRow(mem, index, yc, n, y), x - xc) == 1
  }

  /** Some visited pixel is a hit; this needs a non-empty window. */
  predicate Collides(d: seq<seq<Bit>>, mem: seq<Byte>, index: nat, xc: nat, yc: nat, n: nat)
    requires IsScreen(d) && SpriteFits(mem, index, yc, n)
    ensures Collides(d, mem, index, xc, yc, n) ==> yc < Min(DisplayHeight, n) && xc < Min(DisplayWidth, SpriteWidth)
  {
    exists y, x | 0 <= y < DisplayHeight && 0 <= x < DisplayWidth :: Hit(d, mem, index, xc, yc, n, y, x)
  }

  /** A hit is exactly a pixel that the draw turns from 1 to 0. */
  lemma HitIffPixelCleared(d: seq<seq<Bit>>, mem: seq<Byte>, index: nat, xc: nat, yc: nat, n: nat, y: int, x: int)
    requires IsScreen(d) && SpriteFits(mem, index, yc, n)
    ensures Hit(d, mem, index, xc, yc, n, y, x) <==>
      0 <= y < DisplayHeight && 0 <= x < DisplayWidth && d[y][x] == 1 && Blitted(d, mem, index, xc, yc, n, y, x) == 0
  {
  }

  // --------------------------------------------------------------- execution

  /** What the code needs to run an instruction without raising: a non-empty
      stack for `stack.pop()`, and sprite rows inside memory for the draw. */
  predicate Enabled(s: State, ins: Instruction)
    requires WellFormed(s)
  {
    match ins
    case Return => |s.stack| > 0
    case Draw(x, y, n) => SpriteFits(s.memory, s.index, Coordinate(s.registers[y]), n)
    case _ => true
  }

  /** A blank 32 x 64 display. */
  function BlankScreen(): (d: seq<seq<Bit>>)
    ensures IsScreen(d)
  {
    seq(DisplayHeight, _ => seq(DisplayWidth, _ => 0))
  }

  function Execute(s: State, ins: Instruction): (r: State)
    requires WellFormed(s) && Enabled(s, ins)
    ensures WellFormed(r)
  {
    match ins
    case ClearScreen => s.(display := BlankScreen())
    case Return => s.(pc := s.stack[|s.stack| - 1], stack := s.stack[..|s.stack| - 1])
    case Jump(target) => s.(pc := target)
    case SetRegister(x, v) => s.(registers := s.registers[x := v])
    case AddToRegister(x, v) => s.(registers := s.registers[x := (s.registers[x] + v) % 256])
    case SetIndex(a) => s.(index := a)
    case Draw(x, y, n) =>
      var xc := Coordinate(s.registers[x]);
      var yc := Coordinate(s.registers[y]);
      s.(display := Blit(s.display, s.memory, s.index, xc, yc, n),
         registers := s.registers[Flag := if Collides(s.display, s.memory, s.index, xc, yc, n) then 1 else 0])
    case NoMatch => s
  }

  // ------------------------------------------------------------------ lemmas

  /** Two displays with the same pixels are the same display. */
  lemma ScreensEqual(a: seq<seq<Bit>>, b: seq<seq<Bit>>)
    requires IsScreen(a) && IsScreen(b)
    requires forall y, x :: 0 <= y < DisplayHeight && 0 <= x < DisplayWidth ==> a[y][x] == b[y][x]
    ensures a == b
  {
    forall y | 0 <= y < DisplayHeight ensures a[y] == b[y] {
      assert forall x :: 0 <= x < DisplayWidth ==> a[y][x] == b[y][x];
    }
  }

  /** 0__0 clears: every pixel reads 0, the 32 x 64 shape is kept and no
      other field changes. */
  lemma ClearScreenBlanks(s: State, op: Word)
    requires WellFormed(s) && FirstNibble(op) == 0x0 && FourthNibble(op) == 0x0
    ensures var r := Execute(s, Decode(op));
      && IsScreen(r.display)
      && (forall y, x :: 0 <= y < DisplayHeight && 0 <= x < DisplayWidth ==> r.display[y][x] == 0)
      && r.(display := s.display) == s
  {
  }

  /** 0__e returns: the new PC is the old top of the stack, and pushing it back
      gives the old stack; nothing else changes. */
  lemma ReturnPopsStack(s: State, op: Word)
    requires WellFormed(s) && FirstNibble(op) == 0x0 && FourthNibble(op) == 0xE && |s.stack| > 0
    ensures var r := Execute(s, Decode(op));
      && r.stack + [r.pc] == s.stack
      && r.(pc := s.pc, stack := s.stack) == s
  {
  }

  /** Group 0 with a fourth digit other than 0 and e matches no inner case. */
  lemma OtherGroupZeroIgnored(s: State, op: Word)
    requires WellFormed(s) && FirstNibble(op) == 0x0 && FourthNibble(op) != 0x0 && FourthNibble(op) != 0xE
    ensures Execute(s, Decode(op)) == s
  {
  }

  /** 1NNN jumps: PC becomes the low 12 bits of the opcode, nothing else
      changes. */
  lemma JumpSetsProgramCounter(s: State, op: Word)
    requires WellFormed(s) && FirstNibble(op) == 0x1
    ensures Execute(s, Decode(op)) == s.(pc := op % 0x1000)
  {
  }

  /** ANNN: the index register becomes the low 12 bits of the opcode,
      nothing else changes. */
  lemma SetIndexWritesIndex(s: State, op: Word)
    requires WellFormed(s) && FirstNibble(op) == 0xA
    ensures Execute(s, Decode(op)) == s.(index := op % 0x1000)
  {
  }

  /** 6X__ writes the second byte (digits 2 and 3 of the opcode) to VX and
      changes nothing else. */
  lemma SetRegisterWritesSecondByte(s: State, op: Word)
    requires WellFormed(s) && FirstNibble(op) == 0x6
    ensures var r := Execute(s, Decode(op)); var x := SecondNibble(op);
      && r.registers[x] == (op / 0x10) % 0x100
      && (forall i :: 0 <= i < RegisterCount && i != x ==> r.registers[i] == s.registers[i])
      && r.(registers := s.registers) == s
  {
  }

  /** 7X__ adds the second byte to VX modulo 256: the new value is a byte and
      differs from the old sum by a multiple of 256; other registers, VF
      included when X is not F, and all other fields are unchanged. */
  lemma AddToRegisterWraps(s: State, op: Word)
    requires WellFormed(s) && FirstNibble(op) == 0x7
    ensures var r := Execute(s, Decode(op)); var x := SecondNibble(op); var sum := s.registers[x] + SecondByte(op);
      && 0 <= r.registers[x] < 256
      && (r.registers[x] == sum || r.registers[x] == sum - 256)
      && (forall i :: 0 <= i < RegisterCount && i != x ==> r.registers[i] == s.registers[i])
      && r.(registers := s.registers) == s
  {
  }

  /** Opcodes whose first digit has no case change nothing. */
  lemma UnmatchedGroupIgnored(s: State, op: Word)
    requires WellFormed(s)
    requires FirstNibble(op) in {0x2, 0x3, 0x4, 0x5, 0x8, 0x9, 0xB, 0xC, 0xE, 0xF}
    ensures Decode(op) == NoMatch && Execute(s, Decode(op)) == s
  {
  }

  /** Every pixel the draw loops visit is on the screen, in the first eight
      columns, and its sprite row lies in memory. */
  lemma WindowInBounds(mem: seq<Byte>, index: nat, xc: nat, yc: nat, n: nat, y: int, x: int)
    requires SpriteFits(mem, index, yc, n) && InWindow(xc, yc, n, y, x)
    ensures 0 <= y < DisplayHeight && 0 <= x < SpriteWidth && index + (y - yc) < |mem|
  {
  }

  /** Pixel (y, x) of the drawn display. */
  lemma BlitPixel(d: seq<seq<Bit>>, mem: seq<Byte>, index: nat, xc: nat, yc: nat, n: nat, y: int, x: int)
    requires IsScreen(d) && SpriteFits(mem, index, yc, n)
    requires 0 <= y < DisplayHeight && 0 <= x < DisplayWidth
    ensures Blit(d, mem, index, xc, yc, n)[y][x] ==
              if InWindow(xc, yc, n, y, x) then Xor(d[y][x], SpriteBit(mem[index + (y - yc)], x - xc)) else d[y][x]
  {
    assert Blit(d, mem, index, xc, yc, n)[y][x] == Blitted(d, mem, index, xc, yc, n, y, x);
  }

  /** Because both loop ranges are absolute, a draw visits some pixel exactly
      when `y_cord < min(32, n)` and `x_cord < 8`. */
  lemma WindowNonEmptyIff(xc: nat, yc: nat, n: nat)
    ensures (exists y, x :: InWindow(xc, yc, n, y, x)) <==> yc < Min(DisplayHeight, n) && xc < SpriteWidth
  {
    if yc < Min(DisplayHeight, n) && xc < SpriteWidth {
      assert InWindow(xc, yc, n, yc, xc);
    }
  }

  /** The first k sprite bits, read as a binary number. */
  function BitsValue(row: Byte, k: nat): nat
    requires k <= SpriteWidth
  {
    if k == 0 then 0 else BitsValue(row, k - 1) * 2 + SpriteBit(row, k - 1)
  }

  /** Division is determined by quotient and remainder. */
  lemma DivUnique(a: int, d: int, m: int, r: int)
    requires d > 0 && 0 <= r < d && a == m * d + r
    ensures a / d == m
  {
    var t := a / d - m;
    assert t * d == r - a % d;
    assert -d < t * d < d;
  }

  /** Dividing by the next power of two halves the quotient. */
  lemma HalveOnce(a: nat, e: nat)
    ensures a / Pow2(e + 1) == a / Pow2(e) / 2
  {
    var p := Pow2(e);
    var q := a / p;
    assert a == q * p + a % p;
    assert q == q / 2 * 2 + q % 2;
    assert a == q / 2 * (2 * p) + (q % 2 * p + a % p);
    DivUnique(a, 2 * p, q / 2, q % 2 * p + a % p);
  }

  /** The first k bits read MSB first are the top k bits of the row. */
  lemma {:induction false} BitsValuePrefix(row: Byte, k: nat)
    requires k <= SpriteWidth
    ensures BitsValue(row, k) == row / Pow2(SpriteWidth - k)
  {
    if k == 0 {
      assert Pow2(8) == 256;
    } else {
      BitsValuePrefix(row, k - 1);
      HalveOnce(row, SpriteWidth - k);
      var q := row / Pow2(SpriteWidth - k);
      assert q == q / 2 * 2 + q % 2;
    }
  }

  /** The eight bits the draw reads from a sprite row, most significant first,
      spell that row in binary. */
  lemma SpriteBitsSpellRow(row: Byte)
    ensures BitsValue(row, SpriteWidth) == row
  {
    BitsValuePrefix(row, SpriteWidth);
  }

  /** WindowInBounds for every visited pixel at once. */
  lemma WindowsInBounds(mem: seq<Byte>, index: nat, xc: nat, yc: nat, n: nat)
    requires SpriteFits(mem, index, yc, n)
    ensures forall y, x :: InWindow(xc, yc, n, y, x) ==> 0 <= y < DisplayHeight && 0 <= x < SpriteWidth && index + (y - yc) < |mem|
  {
    forall y, x | InWindow(xc, yc, n, y, x)
      ensures 0 <= y < DisplayHeight && 0 <= x < SpriteWidth && index + (y - yc) < |mem|
    {
      WindowInBounds(mem, index, xc, yc, n, y, x);
    }
  }

  /** DXYN sets the display to the blit at the masked coordinates. */
  lemma DrawDisplay(s: State, op: Word)
    requires WellFormed(s) && FirstNibble(op) == 0xD && Enabled(s, Decode(op))
    ensures SpriteFits(s.memory, s.index, Coordinate(s.registers[ThirdNibble(op)]), FourthNibble(op))
    ensures Execute(s, Decode(op)).display ==
      Blit(s.display, s.memory, s.index, Coordinate(s.registers[SecondNibble(op)]), Coordinate(s.registers[ThirdNibble(op)]), FourthNibble(op))
  {
    assert Decode(op) == Draw(SecondNibble(op), ThirdNibble(op), FourthNibble(op));
  }

  /** DXYN, pixel by pixel: a visited pixel becomes old XOR sprite bit, every
      other pixel keeps its value, and every visited pixel is on the screen. */
  lemma DrawPixels(s: State, op: Word)
    requires WellFormed(s) && FirstNibble(op) == 0xD && Enabled(s, Decode(op))
    ensures var r := Execute(s, Decode(op));
      var xc := Coordinate(s.registers[SecondNibble(op)]);
      var yc := Coordinate(s.registers[ThirdNibble(op)]);
      var n := FourthNibble(op);
      && (forall y, x :: InWindow(xc, yc, n, y, x) ==>
            0 <= y < DisplayHeight && 0 <= x < SpriteWidth && s.index + (y - yc) < MemorySize)
      && (forall y, x :: 0 <= y < DisplayHeight && 0 <= x < DisplayWidth ==>
            r.display[y][x] == if InWindow(xc, yc, n, y, x)
                               then Xor(s.display[y][x], SpriteBit(s.memory[s.index + (y - yc)], x - xc))
                               else s.display[y][x])
  {
    var r := Execute(s, Decode(op));
    var xc := Coordinate(s.registers[SecondNibble(op)]);
    var yc := Coordinate(s.registers[ThirdNibble(op)]);
    var n := FourthNibble(op);
    DrawDisplay(s, op);
    WindowsInBounds(s.memory, s.index, xc, yc, n);
    forall y, x | 0 <= y < DisplayHeight && 0 <= x < DisplayWidth
      ensures r.display[y][x] == if InWindow(xc, yc, n, y, x)
                                 then Xor(s.display[y][x], SpriteBit(s.memory[s.index + (y - yc)], x - xc))
                                 else s.display[y][x]
    {
      BlitPixel(s.display, s.memory, s.index, xc, yc, n, y, x);
    }
  }

  /** DXYN touches only the display and VF: memory, PC, index, stack, timers
      and the other registers are unchanged, and VF becomes 0 or 1. */
  lemma DrawFrame(s: State, op: Word)
    requires WellFormed(s) && FirstNibble(op) == 0xD && Enabled(s, Decode(op))
    ensures var r := Execute(s, Decode(op));
      && (r.registers[Flag] == 0 || r.registers[Flag] == 1)
      && (forall i :: 0 <= i < Flag ==> r.registers[i] == s.registers[i])
      && r.(display := s.display, registers := s.registers) == s
  {
  }

  /** Drawing a sprite twice at the same place gives back the display. */
  lemma {:induction false} BlitTwice(d: seq<seq<Bit>>, mem: seq<Byte>, index: nat, xc: nat, yc: nat, n: nat)
    requires IsScreen(d) && SpriteFits(mem, index, yc, n)
    ensures Blit(Blit(d, mem, index, xc, yc, n), mem, index, xc, yc, n) == d
  {
    var once := Blit(d, mem, index, xc, yc, n);
    var twice := Blit(once, mem, index, xc, yc, n);
    forall y, x | 0 <= y < DisplayHeight && 0 <= x < DisplayWidth
      ensures twice[y][x] == d[y][x]
    {
      assert once[y][x] == Blitted(d, mem, index, xc, yc, n, y, x);
      assert twice[y][x] == Blitted(once, mem, index, xc, yc, n, y, x);
    }
    ScreensEqual(twice, d);
  }

  /** The collision test holds exactly when the draw turns some pixel off. */
  lemma {:induction false} CollidesIffCleared(d: seq<seq<Bit>>, mem: seq<Byte>, index: nat, xc: nat, yc: nat, n: nat)
    requires IsScreen(d) && SpriteFits(mem, index, yc, n)
    ensures var r := Blit(d, mem, index, xc, yc, n);
      Collides(d, mem, index, xc, yc, n) <==>
        exists y, x :: 0 <= y < DisplayHeight && 0 <= x < DisplayWidth && d[y][x] == 1 && r[y][x] == 0
  {
    var r := Blit(d, mem, index, xc, yc, n);
    if Collides(d, mem, index, xc, yc, n) {
      var y, x :| 0 <= y < DisplayHeight && 0 <= x < DisplayWidth && Hit(d, mem, index, xc, yc, n, y, x);
      assert r[y][x] == Blitted(d, mem, index, xc, yc, n, y, x);
    }
    if exists y, x :: 0 <= y < DisplayHeight && 0 <= x < DisplayWidth && d[y][x] == 1 && r[y][x] == 0 {
      var y, x :| 0 <= y < DisplayHeight && 0 <= x < DisplayWidth && d[y][x] == 1 && r[y][x] == 0;
      assert r[y][x] == Blitted(d, mem, index, xc, yc, n, y, x);
      assert Hit(d, mem, index, xc, yc, n, y, x);
    }
  }

  /** The collision flag of a draw is 1 exactly when the draw turned some
      pixel off. */
  lemma DrawFlagMeansPixelCleared(s: State, op: Word)
    requires WellFormed(s) && FirstNibble(op) == 0xD && Enabled(s, Decode(op))
    ensures var r := Execute(s, Decode(op));
      r.registers[Flag] == 1 <==>
        exists y, x :: 0 <= y < DisplayHeight && 0 <= x < DisplayWidth && s.display[y][x] == 1 && r.display[y][x] == 0
  {
    CollidesIffCleared(s.display, s.memory, s.index,
      Coordinate(s.registers[SecondNibble(op)]), Coordinate(s.registers[ThirdNibble(op)]), FourthNibble(op));
  }

  /** Drawing the same sprite twice restores the display, and the second draw
      raises VF exactly when the first turned some pixel on. This needs X and
      Y to differ from F: otherwise the first draw's write to VF moves the
      second draw. */
  lemma DrawTwiceRestores(s: State, op: Word)
    requires WellFormed(s) && FirstNibble(op) == 0xD && Enabled(s, Decode(op))
    requires SecondNibble(op) != Flag && ThirdNibble(op) != Flag
    ensures Enabled(Execute(s, Decode(op)), Decode(op))
    ensures var once := Execute(s, Decode(op)); var twice := Execute(once, Decode(op));
      && twice.display == s.display
      && (twice.registers[Flag] == 1 <==>
            exists y, x :: 0 <= y < DisplayHeight && 0 <= x < DisplayWidth && s.display[y][x] == 0 && once.display[y][x] == 1)
  {
    var xc := Coordinate(s.registers[SecondNibble(op)]);
    var yc := Coordinate(s.registers[ThirdNibble(op)]);
    var n := FourthNibble(op);
    var once := Execute(s, Decode(op));
    assert once.registers[SecondNibble(op)] == s.registers[SecondNibble(op)];
    assert once.registers[ThirdNibble(op)] == s.registers[ThirdNibble(op)];
    BlitTwice(s.display, s.memory, s.index, xc, yc, n);
    CollidesIffCleared(once.display, s.memory, s.index, xc, yc, n);
  }

  /** The program 6005 7003 (meant as "V0 := 5; V0 += 3") leaves V0 at
      0 in this interpreter, because both instructions use the second byte
      0x00 rather than the low byte. */
  lemma SetThenAddUsesSecondByte(s: State)
    requires WellFormed(s)
    ensures Execute(Execute(s, Decode(0x6005)), Decode(0x7003)).registers[0] == 0
  {
  }
}
