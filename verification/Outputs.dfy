/** What a program puts out: exactly the bytes that its write calls name (rvgo/fast/vm.go). */
module Outputs {
  import opened Words
  import opened Bytes
  import opened FlatMemory
  import opened Yul64
  import opened Cpu
  import opened Reference
  import opened Hints
  import opened MemoryRange
  import opened Fields
  import opened Instructions
  import opened SystemCalls
  import F = FastVm
  import FastRuns

  /** The instruction is a call of write to stdout, to stderr or to the hint descriptor. */
  ghost predicate WriteCall(c: Cpu, m: Flat) {
    Calls(c, m) && c.registers[17] == 64 && c.registers[10] in {1, 2, 4}
  }

  lemma SysCallOutput(c: Cpu)
    ensures var a := SysCall(Native, c);
      if c.registers[17] == 64 && c.registers[10] in {1, 2, 4} then
        a.Some? && a.value.Output? && a.value.fd == c.registers[10] && a.value.addr == c.registers[11] && a.value.count == c.registers[12]
      else a.Some? ==> !a.value.Output?
  {
    hide Return, Advance, SysMmap, SysFcntl;
  }

  lemma DecodeOutput(c: Cpu, i: u64)
    requires i < TWO32 && !(OpcodeOf(i) == 0x73 && Funct3Of(i) == 0 && i < 0x10_0000)
    ensures Decode(Native, c, i).Some? ==> !Decode(Native, c, i).value.Output?
  {
    hide Decode, Put, Result, ImmI, ImmS, ImmB, ImmU, ImmJ, Instructions.Taken, KnownAtomic, SysCall;
    var opcode := OpcodeOf(i);
    if opcode == 0x03 {
      DecodesLoad(c, i);
    } else if opcode == 0x23 {
      DecodesStore(c, i);
    } else if opcode == 0x63 {
      DecodesBranch(c, i);
    } else if opcode == 0x6F {
      DecodesJal(c, i);
    } else if opcode == 0x67 {
      DecodesJalr(c, i);
    } else if opcode in {0x13, 0x1B, 0x33, 0x3B} {
      DecodesAlu(c, i);
    } else if opcode in {0x37, 0x17} {
      DecodesUpper(c, i);
    } else if opcode == 0x2F {
      DecodesAtomic(c, i);
    } else if opcode == 0x73 {
      DecodesSystem(c, i);
    } else {
      DecodesOther(c, i);
    }
  }

  lemma PendingOutput(c: Cpu, m: Flat)
    ensures var a := F.Pending(c, m);
      if WriteCall(c, m) then
        a.Some? && a.value.Output? && a.value.fd == c.registers[10] && a.value.addr == c.registers[11] && a.value.count == c.registers[12]
      else a.Some? ==> !a.value.Output?
  {
    hide Decode, WordAt, Instruction, SysCall;
    WordIs(m, c.pc);
    var i, started := WordAt(m, c.pc), c.(step := Wrap(c.step + 1));
    assert Started(c) == started;
    SysCallOutput(started);
    if OpcodeOf(i) == 0x73 && Funct3Of(i) == 0 && i < 0x10_0000 {
      DecodesSystem(started, i);
    } else {
      DecodeOutput(started, i);
    }
  }

  /** A write call to stdout or stderr puts out the A2 bytes at A1, and one to the hint descriptor appends
      them to the hint buffer; it fails exactly if the range runs around the address space or the
      hints panic. */
  lemma WritesPutOut(K: Hash, preimages: Bytes32 -> seq<byte>, t: FastRuns.Progress)
    requires WriteCall(t.cpu, t.mem)
    ensures var fd, addr, count := t.cpu.registers[10], t.cpu.registers[11], t.cpu.registers[12];
      var data := ReadBytes(t.mem, addr, count);
      var u := FastRuns.Next(K, preimages, t);
      && (u.Some? <==> (count == 0 || Readable(addr, count)) && (fd == 4 ==> ProcessHints(t.lastHint + data).Some?))
      && (u.Some? && fd != 4 ==>
            u.value.output == t.output + [(fd, data)] && u.value.hints == t.hints && u.value.lastHint == t.lastHint)
      && (u.Some? && fd == 4 ==>
            var r := ProcessHints(t.lastHint + data).value;
            u.value.output == t.output && u.value.hints == t.hints + r.0 && u.value.lastHint == r.1)
  {
    hide Calls, ReadBytes, ProcessHints, Step, F.Pending, Readable;
    PendingOutput(t.cpu, t.mem);
    WritesOut(K, F.PartOf(preimages), t.cpu, t.mem);
  }

  /** Nothing else puts anything out. */
  lemma OnlyWritesPutOut(K: Hash, preimages: Bytes32 -> seq<byte>, t: FastRuns.Progress)
    requires FastRuns.Next(K, preimages, t).Some? && !WriteCall(t.cpu, t.mem)
    ensures var u := FastRuns.Next(K, preimages, t).value; u.output == t.output && u.hints == t.hints && u.lastHint == t.lastHint
  {
    hide Calls, Step, F.Pending;
    PendingOutput(t.cpu, t.mem);
  }
}
