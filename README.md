# A verified model of a partial CHIP-8 interpreter

This project models the `CPU` class of a small Python CHIP-8 emulator, together with the start-up code that copies a ROM into memory. The CPU has:

- 4096 memory cells;
- a 32 × 64 display of 0/1 pixels;
- a program counter, an index register and a return stack;
- two timers;
- sixteen 8-bit registers, where VF (register 15) is the collision flag.

The class has three operations:

- `fetch` reads two memory cells as one big-endian opcode word and advances PC by 2;
- `decode_and_execute` has six `case` groups with seven arms: `0__0` (clear), `0__e` (return), 1NNN (jump), 6XNN (set), 7XNN (add), ANNN (set index) and DXYN (XOR-draw a sprite);
- the constructor zeroes everything and puts PC at 0x200.

## Layout

- `words.dfy` (`Words`): byte, bit, nibble and word types. It builds the word from two bytes and defines the fields the interpreter extracts from it.
- `hex_text.dfy` (`HexText`): the interpreter decodes its opcode from text. It takes characters and slices of `instruction.hex()` and parses them with `int(s, 16)`. This module models that text and the `match` on its characters (`DecodeText`). It proves that each character or slice equals an arithmetic field of the word, and that `DecodeText` agrees with `Semantics.Decode`.
- `semantics.dfy` (`Semantics`): the CPU object as a value (`State`), `Decode` from an opcode to the `match` arm it takes, and `Execute` for that arm. The lemmas state the properties opcode by opcode.
- `cpu.dfy` (`Cpu`): the class `CPU`. Memory, display (`array2`) and registers are arrays changed in place. The stack and the scalars are fields that get reassigned. `DecodeAndExecute` is proved to leave `Snapshot() == Execute(old(Snapshot()), Decode(op))`. DXYN keeps the source's two nested loops. `DrawSprite` sets up the coordinates and clears VF, `DrawSpriteRows` is the row loop, and `DrawSpriteRow` is the column loop, each with its invariants.
- `loader.dfy` (`Loader`): the ROM copy loop, `Boot` (construct the CPU, then load), and a run of the two-instruction program `6005 7003`.

## Code as written

The model follows the code, not the usual CHIP-8 description. These points come straight from the code:

- **6XNN and 7XNN do not use NN.** The value is `int(instruction.hex()[1:3], 16)`: the second and third hex digits (X and Y), i.e. `(op >> 4) & 0xFF`. `HexText.InstructionHexFields` proves that. `Loader.RunSetThenAdd` and `Semantics.SetThenAddUsesSecondByte` show the effect: after `6005 7003`, V0 is 0, not 8.
- **DXYN draws only part of the sprite.** The Y coordinate is `Vy & 63`, not mod 32. The row loop is `range(y_cord, min(32, n))` and the column loop is `range(x_cord, min(64, 8))`: absolute screen ranges, not offsets from the coordinates. So a sprite is drawn only when `y_cord < n` and `x_cord < 8`, and there is no wrap-around.
- **Sprite bit.** `format(bin(memory[pos]), 'b')` raises in Python. The model reads the sprite bit for column `x` as bit `7 - (x - x_cord)` of the row byte, most significant bit first.
- **Group 0.** Only the fourth digit is tested. Any `0__0` clears the display, any `0__e` returns, and other words in group 0 do nothing.
- **Other groups.** The `match` has no default arm, so every other first digit leaves the state unchanged.
- **Timers.** The constructor sets both timers to 0 and nothing changes them afterwards.

## Model

| member | source | states |
|---|---|---|
| `Words.MakeWord` | cpu.py:19 | the fetched word is `hi*256 + lo`: its high byte is the cell at PC and its low byte the cell at PC+1 |
| `Words.FirstNibble` | cpu.py:24 | `hex()[0]` is the number of whole 0x1000 blocks below the word |
| `Words.SecondNibble` | cpu.py:25 | `hex()[1]` is the leading hex digit of the low twelve bits |
| `Words.ThirdNibble` | cpu.py:26 | `hex()[2]` is the leading hex digit of the low byte |
| `Words.FourthNibble` | cpu.py:27 | `hex()[3]` is the digit that leaves a multiple of 16 when taken from the word |
| `Words.SecondByte` | cpu.py:29 | `second_byte` is the second and third hex digits read as one byte (X*16 + Y), not the low byte |
| `Words.LowTwelveBits` | cpu.py:30 | `nibbles234` is below 0x1000, and the first digit times 0x1000 plus it gives back the word |
| `Words.SecondByteIsLowByteIff` | cpu.py:29-30 | for every word, the second byte equals the low byte NN exactly when the second, third and fourth digits are equal |
| `Words.SecondByteDiffersFromLowByte` | cpu.py:44-49 | for 6005 and 7003 the second byte is 0x00 while the low bytes are 0x05 and 0x03 |
| `HexText.HexDigit` | cpu.py:24-27 | `hex()` writes each nibble as one lower-case hex digit that `int(c, 16)` reads back as the nibble |
| `HexText.BytesHex` | cpu.py:24 | `bytes.hex()` of n bytes is 2n hex digits: characters 2i and 2i+1 are the high and low digits of byte i |
| `HexText.DigitValue` | cpu.py:46 | `int(c, 16)` of one digit is below 10 exactly when `c` is a decimal digit |
| `HexText.HexDigitOfDigitValue` | cpu.py:46 | rendering the value `int(c, 16)` gives back `c`, lower-cased when it is one of A-F |
| `HexText.ParseHex` | cpu.py:43 | `int(s, 16)` of k digits (k at least 1) is below 16^k |
| `HexText.ParseTwoDigits` | cpu.py:46 | `int(s, 16)` of two rendered digits a, b is a*16 + b |
| `HexText.ParseThreeDigits` | cpu.py:43 | `int(s, 16)` of three rendered digits is their positional value |
| `HexText.NibblesOfWord` | cpu.py:24-27 | the four nibbles of `hi lo` are the high and low digits of each byte |
| `HexText.InstructionHexFields` | cpu.py:24-30 | for the word fetched from `hi lo`: hex characters 0 to 3 are the four nibbles, `int(hex[1:3], 16)` is the second byte and `int(hex[1:], 16)` is `op & 0xFFF` |
| `HexText.CaseLabelMatchesNibble` | cpu.py:32-55 | a `case` label character matches exactly when the nibble equals that label's value |
| `HexText.DecodeTextMatchesDecode` | cpu.py:24-60 | the `match` on the characters of `instruction.hex()`, with `int(s, 16)` on its slices, takes the same arm with the same operands as `Semantics.Decode` of the fetched word |
| `Semantics.Decode` | cpu.py:32-55 | the jump target and the index address are the word minus its group digit (0x1000 and 0xA000), and an opcode matches no arm exactly when its first digit has no `case`, or it is in group 0 with a fourth digit other than 0 and e |
| `Semantics.Coordinate` | cpu.py:57-58 | a draw coordinate is below 64 and equals the register mod 64 (`& 63`, for both axes) |
| `Semantics.RowsDrawn` | cpu.py:64 | the number of rows drawn is positive exactly when `y_cord < min(32, n)`, and then it reaches exactly to `min(32, n)` from `y_cord` |
| `Semantics.InWindow` | cpu.py:64-67 | a visited pixel has `y < n` and `x < 8` whatever the coordinates, and its row is one of the rows drawn |
| `Semantics.WindowNonEmptyIff` | cpu.py:64-67 | a draw visits some pixel exactly when `y_cord < min(32, n)` and `x_cord < 8` |
| `Semantics.SpriteBit` | cpu.py:65-71 | the sprite bits are read most significant first: bit 0 is set exactly when the row byte is at least 0x80, bit 7 exactly when it is odd |
| `Semantics.SpriteBitsSpellRow` | cpu.py:65-71 | the eight sprite bits, read in the loop's order as a binary number, give back the row byte |
| `Semantics.Xor` | cpu.py:71 | `^=` on pixels gives 1 exactly when the pixel and the sprite bit differ |
| `Semantics.BlankScreen` | cpu.py:37 | the cleared display has 32 rows of 64 pixels |
| `Semantics.Blit` | cpu.py:64-73 | drawing keeps the 32×64 shape of the display |
| `Semantics.HitIffPixelCleared` | cpu.py:69-71 | the VF test of a pixel holds exactly when the draw turns that pixel from 1 to 0 |
| `Semantics.Collides` | cpu.py:62-70 | VF can only be raised by a draw whose window is non-empty (`y_cord < min(32, n)`, `x_cord < 8`) |
| `Semantics.Execute` | cpu.py:32-73 | every arm that runs without raising keeps the state well formed: 4096 cells, 32×64 display, 16 registers |
| `Semantics.ClearScreenBlanks` | cpu.py:35-37 | after `0__0`, every pixel reads 0, the shape is kept and no other field changes |
| `Semantics.ReturnPopsStack` | cpu.py:38-40 | after `0__e`, pushing the new PC back onto the new stack gives the old stack; nothing else changes |
| `Semantics.OtherGroupZeroIgnored` | cpu.py:33-40 | a group-0 word whose fourth digit is neither 0 nor e changes nothing |
| `Semantics.JumpSetsProgramCounter` | cpu.py:41-43 | 1NNN sets PC to `op & 0xFFF` and changes nothing else |
| `Semantics.SetIndexWritesIndex` | cpu.py:52-54 | ANNN sets the index register to `op & 0xFFF` and changes nothing else |
| `Semantics.SetRegisterWritesSecondByte` | cpu.py:44-46 | 6X__ sets VX to `(op >> 4) & 0xFF`; other registers and fields are unchanged |
| `Semantics.AddToRegisterWraps` | cpu.py:47-51 | 7X__ leaves VX in 0..255, equal to the sum or the sum minus 256; other registers (VF too when X is not F) and fields are unchanged |
| `Semantics.UnmatchedGroupIgnored` | cpu.py:32-73 | first digits 2-5, 8, 9, b, c, e and f match no arm and leave the state unchanged |
| `Semantics.WindowInBounds` | cpu.py:64-71 | every pixel the two loops visit lies on the 32×64 display, and its sprite row `index + (y - y_cord)` is inside memory |
| `Semantics.BlitPixel` | cpu.py:64-73 | a visited pixel of the drawn display is the old pixel XOR its sprite bit; an unvisited pixel is the old one |
| `Semantics.DrawPixels` | cpu.py:56-73 | each pixel in rows `[y_cord, min(32, n))` and columns `[x_cord, min(64, 8))` becomes old XOR its sprite bit from `memory[index + (y - y_cord)]`; every other pixel is unchanged; every visited pixel and sprite row is in bounds |
| `Semantics.DrawFrame` | cpu.py:56-73 | a draw leaves VF at 0 or 1 and changes only the display and VF: memory, PC, index, stack, timers and V0-VE are unchanged |
| `Semantics.BlitTwice` | cpu.py:64-73 | drawing the same sprite twice at the same place restores the display |
| `Semantics.CollidesIffCleared` | cpu.py:62-71 | the collision test holds exactly when the draw turns some pixel from 1 to 0 |
| `Semantics.DrawFlagMeansPixelCleared` | cpu.py:62-71 | after DXYN, VF is 1 exactly when some pixel went from 1 to 0, and otherwise 0 |
| `Semantics.DrawTwiceRestores` | cpu.py:56-73 | executing the same DXYN twice (X, Y not F) restores the display, and the second VF is 1 exactly when the first draw turned some pixel on |
| `Semantics.SetThenAddUsesSecondByte` | cpu.py:44-51 | from any state, 6005 then 7003 leaves V0 at 0 |
| `Cpu.CPU.constructor` | cpu.py:2-13 | 4096 zero cells, a 32×64 zero display, PC 0x200, index 0, empty stack, timers 0, sixteen zero registers |
| `Cpu.CPU.Fetch` | cpu.py:18-21 | given `PC + 1 < 4096`, returns `memory[PC]*256 + memory[PC+1]` and sets PC to old PC + 2; nothing else changes |
| `Cpu.CPU.ClearScreen` | cpu.py:35-37 | the display is replaced by a fresh all-zero 32×64 one; no other field changes |
| `Cpu.CPU.ReturnFromSubroutine` | cpu.py:38-40 | given a non-empty stack, PC becomes its last element and the stack loses exactly that element |
| `Cpu.CPU.DrawSprite` | cpu.py:55-73 | the nested loops leave the display equal to `Blit` of the old display, and the registers equal to the old ones with VF set by the collision test; memory is not written |
| `Cpu.CPU.DrawSpriteRows` | cpu.py:59-73 | the row loop leaves the display equal to `Blit` of the display it started from, and VF equal to the collision test on that display; V0-VE are unchanged; its invariant keeps `sprite_memory_pos` at `index + (y - y_cord)`, starting at the index register and stepping once per row |
| `Cpu.CPU.DrawSpriteRow` | cpu.py:65-72 | the column loop for one row extends the drawn, row-major prefix of the display to the end of that row, and VF records a hit anywhere in that prefix; V0-VE are unchanged |
| `Cpu.CPU.DecodeAndExecute` | cpu.py:23-73 | the object afterwards is `Execute` of the object before and the decoded opcode; memory and register arrays keep their identity |
| `Loader.WriteAt` | main.py:26-30 | after loading, `memory[start + i] = rom[i]` for every `i < |rom|`, and every cell outside `[start, start + |rom|)` is unchanged |
| `Loader.WriteAtReadBack` | main.py:26-30 | the written stretch reads back as the ROM, and the cells before and after it are the old ones |
| `Loader.LoadRom` | main.py:26-30 | given `PC + |rom| <= 4096`, memory becomes `WriteAt(old memory, PC, rom)`, `read_index` ends at `PC + |rom|`, and the CPU object, its registers and its display are unchanged |
| `Loader.Boot` | main.py:24-30 | a new CPU with the ROM at 0x200, zero cells elsewhere, and all other fields as the constructor set them |
| `Loader.RunSetThenAdd` | cpu.py:44-51 | loading `60 05 70 03` and then running fetch and decode_and_execute twice leaves PC at 0x204 and V0 at 0 |

## Left out

- The SDL window, event loop and refresh (main.py:5-17): user interface and host I/O.
- The argument check, usage message and exit calls (main.py:19-22, 38): command-line plumbing.
- Opening and reading the ROM file (main.py:27-28): the ROM is a parameter, the sequence of its bytes.
- The fetch/execute driver loop (main.py:32-36): it is commented out.
- `CPU.dump_display` (cpu.py:75-79): console printing only.
- emu.py: an empty draft whose `fetch`, `decode` and `execute` do nothing.
- Font data, timer countdown, keypad, and the other CHIP-8 opcodes: the code has none of them. The two timers are fields that only the constructor sets.
- Python exceptions are preconditions, not modelled outcomes. These cases raise `IndexError` in the code:
  - `Fetch` needs `PC + 1 < 4096`;
  - 00EE needs a non-empty stack;
  - DXYN needs every sprite row inside memory (`Semantics.Enabled`);
  - the loader needs `PC + |rom| <= 4096`.
- Memory cells are modelled as byte values. In the code, a cell that the loader writes holds a one-byte `bytes` object and every other cell holds the integer 0. So in the code a fetch that adds an unwritten cell to a written one raises `TypeError` (for `int + bytes`). A fetch of two unwritten cells returns the integer 0, and it is `instruction.hex()` in `decode_and_execute` (cpu.py:24) that then raises `AttributeError`. Examples are an odd-length ROM, or fetching past the ROM. The model reads such cells as 0.
- The sprite-bit expression at cpu.py:65 raises in Python. The model uses the bit interpretation described above.
- PC, the index register and stack entries are natural numbers. Python's negative list indices are not modelled. Nothing in the code pushes onto the stack, so the stack is empty in every real run.
- `Semantics.DrawTwiceRestores`: requires that X and Y differ from F. When the draw's coordinate register is VF, the first draw's write to VF moves the second draw, and the display need not be restored.
