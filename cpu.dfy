/** The CPU object of cpu.py: memory, display and registers are arrays
    updated in place, the other fields are reassigned. Each method is proved
    to move the object from one Semantics.State to the next. */
module Cpu {
  import opened Words
  import opened Semantics

  class CPU {
    var memory: array<Byte>
    var display: array2<Bit>
    var programCounter: nat
    var indexRegister: nat
    var stack: seq<nat>
    var delayTimer: nat
    var soundTimer: nat
    var registers: array<Byte>

    ghost predicate Valid()
      reads this
    {
      && memory.Length == MemorySize
      && display.Length0 == DisplayHeight && display.Length1 == DisplayWidth
      && registers.Length == RegisterCount
      && memory != registers
    }

    /** The display as rows of pixels. */
    ghost function Screen(): (d: seq<seq<Bit>>)
      reads this, display
      requires Valid()
      ensures IsScreen(d)
      ensures forall y, x :: 0 <= y < DisplayHeight && 0 <= x < DisplayWidth ==> d[y][x] == display[y, x]
    {
      var a := display;
      seq(DisplayHeight, y reads a requires 0 <= y < DisplayHeight =>
        seq(DisplayWidth, x reads a requires 0 <= x < DisplayWidth => a[y, x]))
    }

    /** The whole object as a value. */
    ghost function Snapshot(): (s: State)
      reads this, memory, display, registers
      requires Valid()
      ensures WellFormed(s)
    {
      State(memory[..], Screen(), programCounter, indexRegister, stack,
            delayTimer, soundTimer, registers[..])
    }

    /** Zeroed memory, a blank display, PC at 0x200 and everything else zero
        or empty. */
    constructor ()
      ensures Valid() && fresh(memory) && fresh(display) && fresh(registers)
      ensures forall i :: 0 <= i < MemorySize ==> memory[i] == 0
      ensures forall y, x :: 0 <= y < DisplayHeight && 0 <= x < DisplayWidth ==> display[y, x] == 0
      ensures programCounter == ProgramStart && indexRegister == 0 && stack == []
      ensures delayTimer == 0 && soundTimer == 0
      ensures forall i :: 0 <= i < RegisterCount ==> registers[i] == 0
    {
      memory := new Byte[MemorySize](_ => 0);
      display := new Bit[DisplayHeight, DisplayWidth]((_, _) => 0);
      programCounter := ProgramStart;
      indexRegister := 0;
      stack := [];
      delayTimer := 0;
      soundTimer := 0;
      registers := new Byte[RegisterCount](_ => 0);
    }

    /** Reads the big-endian word at PC and advances PC by 2; nothing else
        changes. */
    method Fetch() returns (instruction: Word)
      requires Valid() && programCounter + 1 < MemorySize
      modifies this`programCounter
      ensures Valid()
      ensures instruction == MakeWord(memory[old(programCounter)], memory[old(programCounter) + 1])
      ensures programCounter == old(programCounter) + 2
      ensures Snapshot() == old(Snapshot()).(pc := old(programCounter) + 2)
    {
      instruction := MakeWord(memory[programCounter], memory[programCounter + 1]);
      programCounter := programCounter + 2;
    }

    /** 00E0: a new blank display replaces the old one. */
    method ClearScreen()
      requires Valid()
      modifies this`display
      ensures Valid() && fresh(display)
      ensures forall y, x :: 0 <= y < DisplayHeight && 0 <= x < DisplayWidth ==> display[y, x] == 0
      ensures Snapshot() == old(Snapshot()).(display := BlankScreen())
    {
      display := new Bit[DisplayHeight, DisplayWidth]((_, _) => 0);
      ScreensEqual(Screen(), BlankScreen());
    }

    /** 00EE: `program_counter = stack.pop()`. */
    method ReturnFromSubroutine()
      requires Valid() && |stack| > 0
      modifies this`programCounter, this`stack
      ensures Valid()
      ensures programCounter == old(stack[|stack| - 1]) && stack == old(stack[..|stack| - 1])
    {
      programCounter := stack[|stack| - 1];
      stack := stack[..|stack| - 1];
    }

    /** Pixels before position (row, col), in row-major order, hold their
        drawn value; the others still hold their value in d0. */
    ghost predicate DrawnBefore(d0: seq<seq<Bit>>, mem: seq<Byte>, index: nat, xc: nat, yc: nat, n: nat, row: int, col: int)
      reads this, display
      requires Valid() && IsScreen(d0) && SpriteFits(mem, index, yc, n)
    {
      forall r, c :: 0 <= r < DisplayHeight && 0 <= c < DisplayWidth ==>
        display[r, c] == if r < row || (r == row && c < col) then Blitted(d0, mem, index, xc, yc, n, r, c) else d0[r][c]
    }

    /** VF records whether a pixel before (row, col) was a hit. */
    ghost predicate FlaggedBefore(d0: seq<seq<Bit>>, mem: seq<Byte>, index: nat, xc: nat, yc: nat, n: nat, row: int, col: int)
      reads this, registers
      requires Valid() && IsScreen(d0) && SpriteFits(mem, index, yc, n)
    {
      registers[Flag] == if exists r, c :: (r < row || (r == row && c < col)) && Hit(d0, mem, index, xc, yc, n, r, c) then 1 else 0
    }

    /** The inner loop of DXYN for display row `row`: columns x_cord up to
        min(64, 8), stepping `sprite_idx` through the bits of `sprite`. */
    method DrawSpriteRow(ghost d0: seq<seq<Bit>>, ghost mem: seq<Byte>, xCord: nat, yCord: nat, height: Nibble, row: nat, sprite: Byte)
      requires Valid() && IsScreen(d0) && SpriteFits(mem, indexRegister, yCord, height)
      requires yCord <= row < Min(DisplayHeight, height) && sprite == SpriteRow(mem, indexRegister, yCord, height, row)
      requires DrawnBefore(d0, mem, indexRegister, xCord, yCord, height, row, 0)
      requires FlaggedBefore(d0, mem, indexRegister, xCord, yCord, height, row, 0)
      modifies registers, display
      ensures Valid()
      ensures DrawnBefore(d0, mem, indexRegister, xCord, yCord, height, row + 1, 0)
      ensures FlaggedBefore(d0, mem, indexRegister, xCord, yCord, height, row + 1, 0)
      ensures forall i :: 0 <= i < RegisterCount && i != Flag ==> registers[i] == old(registers[i])
    {
      var spriteIdx := 0;
      var colEnd := Min(DisplayWidth, SpriteWidth);
      var col := xCord;
      RowStarted(d0, mem, indexRegister, xCord, yCord, height, row);
      while col < colEnd
        invariant xCord <= col && (col <= colEnd || col == xCord)
        invariant spriteIdx == col - xCord
        invariant forall i :: 0 <= i < RegisterCount && i != Flag ==> registers[i] == old(registers[i])
        invariant DrawnBefore(d0, mem, indexRegister, xCord, yCord, height, row, col)
        invariant FlaggedBefore(d0, mem, indexRegister, xCord, yCord, height, row, col)
      {
        var bit := SpriteBit(sprite, spriteIdx);
        if display[row, col] == 1 && bit == 1 {
          registers[Flag] := 1;
          assert Hit(d0, mem, indexRegister, xCord, yCord, height, row, col);
        } else {
          assert !Hit(d0, mem, indexRegister, xCord, yCord, height, row, col);
        }
        display[row, col] := Xor(display[row, col], bit);
        spriteIdx := spriteIdx + 1;
        col := col + 1;
      }
      RowFinished(d0, mem, indexRegister, xCord, yCord, height, row, col);
    }

    /** Columns left of x_cord are outside the window, so a row starts there. */
    lemma RowStarted(d0: seq<seq<Bit>>, mem: seq<Byte>, index: nat, xc: nat, yc: nat, n: nat, row: int)
      requires Valid() && IsScreen(d0) && SpriteFits(mem, index, yc, n)
      requires DrawnBefore(d0, mem, index, xc, yc, n, row, 0)
      requires FlaggedBefore(d0, mem, index, xc, yc, n, row, 0)
      ensures DrawnBefore(d0, mem, index, xc, yc, n, row, xc)
      ensures FlaggedBefore(d0, mem, index, xc, yc, n, row, xc)
    {
    }

    /** Columns from min(64, 8) on are outside the window, so the row is done. */
    lemma RowFinished(d0: seq<seq<Bit>>, mem: seq<Byte>, index: nat, xc: nat, yc: nat, n: nat, row: int, col: int)
      requires Valid() && IsScreen(d0) && SpriteFits(mem, index, yc, n)
      requires col >= Min(DisplayWidth, SpriteWidth)
      requires DrawnBefore(d0, mem, index, xc, yc, n, row, col)
      requires FlaggedBefore(d0, mem, index, xc, yc, n, row, col)
      ensures DrawnBefore(d0, mem, index, xc, yc, n, row + 1, 0)
      ensures FlaggedBefore(d0, mem, index, xc, yc, n, row + 1, 0)
    {
    }

    /** DXYN: XOR the sprite at memory[index..] onto the display over the
        visited rows and columns, with VF reset to 0 first and set to 1 when
        an on pixel meets a set sprite bit. */
    method DrawSprite(x: Nibble, y: Nibble, height: Nibble)
      requires Valid() && SpriteFits(memory[..], indexRegister, Coordinate(registers[y]), height)
      modifies registers, display
      ensures Valid()
      ensures Screen() == Blit(old(Screen()), memory[..], indexRegister,
                               Coordinate(old(registers[x])), Coordinate(old(registers[y])), height)
      ensures registers[..] == old(registers[..])[Flag :=
                if Collides(old(Screen()), memory[..], indexRegister,
                            Coordinate(old(registers[x])), Coordinate(old(registers[y])), height)
                then 1 else 0]
    {
      ghost var d0 := Screen();
      var xCord := Coordinate(registers[x]);
      var yCord := Coordinate(registers[y]);
      registers[Flag] := 0;
      NothingDrawnYet(d0, memory[..], indexRegister, xCord, yCord, height);
      DrawSpriteRows(d0, xCord, yCord, height);
      assert registers[..] == old(registers[..])[Flag := registers[Flag]];
    }

    /** The outer loop of DXYN: display rows y_cord up to min(32, n), with
        `sprite_memory_pos` stepping through memory from the index register. */
    method DrawSpriteRows(ghost d0: seq<seq<Bit>>, xCord: nat, yCord: nat, height: Nibble)
      requires Valid() && IsScreen(d0) && SpriteFits(memory[..], indexRegister, yCord, height)
      requires DrawnBefore(d0, memory[..], indexRegister, xCord, yCord, height, yCord, 0)
      requires FlaggedBefore(d0, memory[..], indexRegister, xCord, yCord, height, yCord, 0)
      modifies registers, display
      ensures Valid()
      ensures Screen() == Blit(d0, memory[..], indexRegister, xCord, yCord, height)
      ensures registers[Flag] == if Collides(d0, memory[..], indexRegister, xCord, yCord, height) then 1 else 0
      ensures forall i :: 0 <= i < RegisterCount && i != Flag ==> registers[i] == old(registers[i])
    {
      ghost var mem := memory[..];
      var spriteMemoryPos := indexRegister;
      var spriteHeight := height;
      var rowEnd := Min(DisplayHeight, spriteHeight);
      var row := yCord;
      while row < rowEnd
        invariant yCord <= row && (row <= rowEnd || row == yCord)
        invariant spriteMemoryPos == indexRegister + (row - yCord)
        invariant forall i :: 0 <= i < RegisterCount && i != Flag ==> registers[i] == old(registers[i])
        invariant DrawnBefore(d0, mem, indexRegister, xCord, yCord, spriteHeight, row, 0)
        invariant FlaggedBefore(d0, mem, indexRegister, xCord, yCord, spriteHeight, row, 0)
      {
        DrawSpriteRow(d0, mem, xCord, yCord, spriteHeight, row, memory[spriteMemoryPos]);
        spriteMemoryPos := spriteMemoryPos + 1;
        row := row + 1;
      }
      DrawnAll(d0, mem, indexRegister, xCord, yCord, spriteHeight, row);
      FlaggedAll(d0, mem, indexRegister, xCord, yCord, spriteHeight, row);
    }

    /** Before the first visited row, nothing is drawn and VF is 0. */
    lemma NothingDrawnYet(d0: seq<seq<Bit>>, mem: seq<Byte>, index: nat, xc: nat, yc: nat, n: nat)
      requires Valid() && IsScreen(d0) && SpriteFits(mem, index, yc, n)
      requires Screen() == d0 && registers[Flag] == 0
      ensures DrawnBefore(d0, mem, index, xc, yc, n, yc, 0)
      ensures FlaggedBefore(d0, mem, index, xc, yc, n, yc, 0)
    {
    }

    /** Once every visited row is done, the display is the drawn one. */
    lemma DrawnAll(d0: seq<seq<Bit>>, mem: seq<Byte>, index: nat, xc: nat, yc: nat, n: nat, row: int)
      requires Valid() && IsScreen(d0) && SpriteFits(mem, index, yc, n)
      requires row >= Min(DisplayHeight, n) && DrawnBefore(d0, mem, index, xc, yc, n, row, 0)
      ensures Screen() == Blit(d0, mem, index, xc, yc, n)
    {
      var drawn := Blit(d0, mem, index, xc, yc, n);
      forall r, c | 0 <= r < DisplayHeight && 0 <= c < DisplayWidth
        ensures Screen()[r][c] == drawn[r][c]
      {
        assert drawn[r][c] == Blitted(d0, mem, index, xc, yc, n, r, c);
      }
      ScreensEqual(Screen(), drawn);
    }

    /** Once every visited row is done, VF is the collision test. */
    lemma FlaggedAll(d0: seq<seq<Bit>>, mem: seq<Byte>, index: nat, xc: nat, yc: nat, n: nat, row: int)
      requires Valid() && IsScreen(d0) && SpriteFits(mem, index, yc, n)
      requires row >= Min(DisplayHeight, n) && FlaggedBefore(d0, mem, index, xc, yc, n, row, 0)
      ensures registers[Flag] == if Collides(d0, mem, index, xc, yc, n) then 1 else 0
    {
    }

    /** Runs one opcode: the object afterwards is Execute of the object
        before and the decoded opcode. */
    method DecodeAndExecute(instruction: Word)
      requires Valid() && Enabled(Snapshot(), Decode(instruction))
      modifies this, registers, display
      ensures Valid() && memory == old(memory) && registers == old(registers)
      ensures display == old(display) || fresh(display)
      ensures Snapshot() == Execute(old(Snapshot()), Decode(instruction))
    {
      var firstNibble := FirstNibble(instruction);
      var secondNibble := SecondNibble(instruction);
      var thirdNibble := ThirdNibble(instruction);
      var fourthNibble := FourthNibble(instruction);
      var secondByte := SecondByte(instruction);
      var nibbles234 := LowTwelveBits(instruction);

      match firstNibble
      case 0x0 =>
        if fourthNibble == 0x0 {
          ClearScreen();
        } else if fourthNibble == 0xE {
          ReturnFromSubroutine();
        }
      case 0x1 =>
        programCounter := nibbles234;
      case 0x6 =>
        registers[secondNibble] := secondByte;
      case 0x7 =>
        // `+=` followed by `&= 255`
        registers[secondNibble] := (registers[secondNibble] + secondByte) % 256;
      case 0xA =>
        indexRegister := nibbles234;
      case 0xD =>
        DrawSprite(secondNibble, thirdNibble, fourthNibble);
      case _ =>
    }
  }
}
