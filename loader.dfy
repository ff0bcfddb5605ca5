/** The start-up code of main.py: build a CPU and copy the ROM, one byte per
    memory cell, from the program counter (0x200) upwards. The ROM file is
    given as the sequence of its bytes. */
module Loader {
  import opened Words
  import opened Semantics
  import opened Cpu

  /** Memory with `rom` written from address `start` on. */
  function WriteAt(mem: seq<Byte>, start: nat, rom: seq<Byte>): (r: seq<Byte>)
    requires start + |rom| <= |mem|
    ensures |r| == |mem|
    ensures forall a :: start <= a < start + |rom| ==> r[a] == rom[a - start]
    ensures forall a :: 0 <= a < |mem| && !(start <= a < start + |rom|) ==> r[a] == mem[a]
  {
    mem[..start] + rom + mem[start + |rom|..]
  }

  /** Reading back the written stretch gives the ROM, and the cells around it
      are those of the old memory. */
  lemma WriteAtReadBack(mem: seq<Byte>, start: nat, rom: seq<Byte>)
    requires start + |rom| <= |mem|
    ensures WriteAt(mem, start, rom)[start..start + |rom|] == rom
    ensures WriteAt(mem, start, rom)[..start] == mem[..start]
    ensures WriteAt(mem, start, rom)[start + |rom|..] == mem[start + |rom|..]
  {
  }

  /** The loop `while (byte := rom.read(1))`: writes `memory[read_index]` and
      advances `read_index`, which starts as a copy of the program counter.
      Only memory changes. */
  method LoadRom(cpu: CPU, rom: seq<Byte>) returns (readIndex: nat)
    requires cpu.Valid() && cpu.programCounter + |rom| <= MemorySize
    modifies cpu.memory
    ensures readIndex == cpu.programCounter + |rom|
    ensures cpu.memory[..] == WriteAt(old(cpu.memory[..]), cpu.programCounter, rom)
    ensures unchanged(cpu) && unchanged(cpu.registers) && unchanged(cpu.display)
  {
    ghost var m0 := cpu.memory[..];
    var start := cpu.programCounter;
    readIndex := start;
    var next := 0;
    while next < |rom|
      invariant 0 <= next <= |rom| && readIndex == start + next
      invariant forall a :: start <= a < readIndex ==> cpu.memory[a] == rom[a - start]
      invariant forall a :: 0 <= a < MemorySize && !(start <= a < readIndex) ==> cpu.memory[a] == m0[a]
    {
      cpu.memory[readIndex] := rom[next];
      readIndex := readIndex + 1;
      next := next + 1;
    }
    ghost var loaded := WriteAt(m0, start, rom);
    assert forall a :: 0 <= a < MemorySize ==> cpu.memory[a] == loaded[a];
    assert cpu.memory[..] == loaded;
  }

  /** main.py up to the end of the copy loop: a fresh CPU holding the ROM at
      0x200, zeros elsewhere in memory, and the constructor's other fields. */
  method Boot(rom: seq<Byte>) returns (cpu: CPU, readIndex: nat)
    requires |rom| <= MemorySize - ProgramStart
    ensures cpu.Valid() && fresh(cpu) && fresh(cpu.memory) && fresh(cpu.display) && fresh(cpu.registers)
    ensures readIndex == ProgramStart + |rom|
    ensures forall a :: ProgramStart <= a < ProgramStart + |rom| ==> cpu.memory[a] == rom[a - ProgramStart]
    ensures forall a :: 0 <= a < MemorySize && !(ProgramStart <= a < ProgramStart + |rom|) ==> cpu.memory[a] == 0
    ensures forall y, x :: 0 <= y < DisplayHeight && 0 <= x < DisplayWidth ==> cpu.display[y, x] == 0
    ensures cpu.programCounter == ProgramStart && cpu.indexRegister == 0 && cpu.stack == []
    ensures cpu.delayTimer == 0 && cpu.soundTimer == 0
    ensures forall i :: 0 <= i < RegisterCount ==> cpu.registers[i] == 0
  {
    cpu := new CPU();
    readIndex := LoadRom(cpu, rom);
  }

  /** Loads the program 6005 7003 and runs fetch and decode_and_execute on
      it twice: PC ends at 0x204 and V0 at 0, not at 8, since both
      instructions use the second byte (0x00) instead of the low byte. */
  method RunSetThenAdd() returns (v0: Byte, pc: nat)
    ensures v0 == 0 && pc == 0x204
  {
    var rom := [0x60, 0x05, 0x70, 0x03];
    var cpu, _ := Boot(rom);
    assert cpu.memory[0x200] == 0x60 && cpu.memory[0x201] == 0x05;
    assert cpu.memory[0x202] == 0x70 && cpu.memory[0x203] == 0x03;
    ghost var booted := cpu.memory[..];
    var instruction := cpu.Fetch();
    assert instruction == 0x6005;
    assert Decode(instruction) == SetRegister(0, 0);
    cpu.DecodeAndExecute(instruction);
    assert cpu.memory[..] == booted;
    instruction := cpu.Fetch();
    assert instruction == 0x7003;
    assert Decode(instruction) == AddToRegister(0, 0);
    cpu.DecodeAndExecute(instruction);
    v0, pc := cpu.registers[0], cpu.programCounter;
  }
}
