/** What ECALL, EBREAK and the CSR instructions do, call by call, and where the exit code of a
    program comes from (rvgo/fast/vm.go). */
module SystemCalls {
  import opened Words
  import opened Bytes
  import opened FlatMemory
  import opened Yul64
  import opened Cpu
  import opened WordBytes
  import opened Reference
  import opened Fields
  import opened Instructions
  import Evm
  import Fast = FastYul64

  // ----- instructions of opcode 0x73 -----

  lemma DecodesSystem(c: Cpu, i: u64)
    requires i < TWO32 && OpcodeOf(i) == 0x73
    ensures Funct3Of(i) != 0 ==>
      Decode(Native, c, i) == Some(Done(c.(pc := Wrap(c.pc + 4), registers := Put(c.registers, RdOf(i), 0))))
    ensures Funct3Of(i) == 0 && i >= 0x10_0000 ==> Decode(Native, c, i) == Some(Done(c.(pc := Wrap(c.pc + 4))))
    ensures Funct3Of(i) == 0 && i < 0x10_0000 ==> Decode(Native, c, i) == SysCall(Native, c)
  {
    hide Decode, OpcodeOf, ParseRd, ParseFunct3, SysCall, SetRegister, Put, Add64, Shr64;
    assert Decode(Native, c, i) == DecodeSystem(Native, c, i) by {
      Dispatch(c, i);
    }
    RegistersParsed(i);
    Powers();
    FieldIs(i, 20, 0x10_0000, 2);
    SumIsWrap(c.pc, 4, 0);
    SetIs(c, RdOf(i), 0);
  }

  /** CSR instructions read 0, and EBREAK does nothing. */
  lemma NoCalls(K: Hash, oracle: Oracle, c: Cpu, m: Flat)
    requires Fetches(c) && OpcodeOf(WordAt(m, c.pc)) == 0x73
    ensures var i := WordAt(m, c.pc);
      && (Funct3Of(i) != 0 ==> Leads(K, oracle, c, m, Next(c, Wrap(c.pc + 4), Put(c.registers, RdOf(i), 0)), m))
      && (Funct3Of(i) == 0 && i >= 0x10_0000 ==> Leads(K, oracle, c, m, Next(c, Wrap(c.pc + 4), c.registers), m))
  {
    hide Leads, Decode, WordAt, Step, Put;
    StepOf(K, oracle, c, m);
    DecodesSystem(c.(step := Wrap(c.step + 1)), WordAt(m, c.pc));
  }

  /** The instruction is an ECALL. */
  ghost predicate Calls(c: Cpu, m: Flat) {
    var i := WordAt(m, c.pc);
    Fetches(c) && OpcodeOf(i) == 0x73 && Funct3Of(i) == 0 && i < 0x10_0000
  }

  /** The call has returned with a result in A0 and an error number in A1. */
  function Answered(c: Cpu, result: u64, errCode: u64): Cpu {
    Next(c, Wrap(c.pc + 4), c.registers[10 := result][11 := errCode])
  }

  lemma ReturnIs(c: Cpu, v: u64, e: u64)
    ensures Return(Native, c, v, e) == c.(pc := Wrap(c.pc + 4), registers := c.registers[10 := v][11 := e])
  {
    SumIsWrap(c.pc, 4, 0);
  }

  lemma CallOf(K: Hash, oracle: Oracle, c: Cpu, m: Flat)
    requires Calls(c, m)
    ensures var a := SysCall(Native, c.(step := Wrap(c.step + 1)));
      if a.None? then Step(K, oracle, c, m).None?
      else
        && WellFormed(a.value)
        && var o := Perform(K, oracle, m, a.value);
           if o.None? then Step(K, oracle, c, m).None? else Leads(K, oracle, c, m, o.value.cpu, o.value.mem)
    ensures forall v: u64, e: u64 :: Return(Native, c.(step := Wrap(c.step + 1)), v, e) == Answered(c, v, e)
  {
    hide Leads, Decode, WordAt, Step, SysCall, Perform, WellFormed, Return;
    StepOf(K, oracle, c, m);
    DecodesSystem(c.(step := Wrap(c.step + 1)), WordAt(m, c.pc));
    forall v: u64, e: u64 ensures Return(Native, c.(step := Wrap(c.step + 1)), v, e) == Answered(c, v, e) {
      ReturnIs(c.(step := Wrap(c.step + 1)), v, e);
    }
  }

  // ----- the calls, by the number in A7, with arguments in A0 to A4 -----

  /** exit and exit_group: the program has ended, with the low byte of A0. */
  lemma Exits(K: Hash, oracle: Oracle, c: Cpu, m: Flat)
    requires Calls(c, m) && c.registers[17] in {93, 94}
    ensures Leads(K, oracle, c, m, Next(c, Wrap(c.pc + 4), c.registers).(exited := true, exitCode := c.registers[10] % 256), m)
  {
    hide Leads, Calls, Step, Add64, Return, Answered;
    CallOf(K, oracle, c, m);
    SumIsWrap(c.pc, 4, 0);
  }

  /** brk: the break is at 1 GiB. */
  lemma AnswersBreak(K: Hash, oracle: Oracle, c: Cpu, m: Flat)
    requires Calls(c, m) && c.registers[17] == 214
    ensures Leads(K, oracle, c, m, Answered(c, 0x4000_0000, 0), m)
  {
    hide Leads, Calls, Step, Return, Answered, Fast.Shl64, Pow2;
    CallOf(K, oracle, c, m);
    Fast.PowBelow(30);
    PowAdd(25, 5);
    Powers();
  }

  /** mmap: anonymous mappings only. A hint is granted; without one the heap grows by whole pages. */
  lemma MapsMemory(K: Hash, oracle: Oracle, c: Cpu, m: Flat)
    requires Calls(c, m) && c.registers[17] == 222
    ensures var addr, length, flags, fd := c.registers[10], c.registers[11], c.registers[13], c.registers[14];
      if flags / 32 % 2 == 0 || fd != TWO64 - 1 then Leads(K, oracle, c, m, Answered(c, TWO64 - 1, 0x4D), m)
      else if addr != 0 then Leads(K, oracle, c, m, Answered(c, addr, 0), m)
      else Leads(K, oracle, c, m, Answered(c, c.heap, 0).(heap := Wrap(c.heap + (length as int + 4095) / 4096 * 4096)), m)
  {
    hide Leads, Calls, Step, Add64, Sub64, And64, Return, Answered;
    CallOf(K, oracle, c, m);
    FlagIs(c.registers[13]);
    PaddedIs(c.heap, c.registers[11]);
    forall v: u64, h: u64 ensures Return(Native, c.(step := Wrap(c.step + 1), heap := h), v, 0) == Answered(c, v, 0).(heap := h) {
      HeapAnswered(c, v, h);
    }
  }

  lemma HeapAnswered(c: Cpu, v: u64, h: u64)
    ensures Return(Native, c.(step := Wrap(c.step + 1), heap := h), v, 0) == Answered(c, v, 0).(heap := h)
  {
    ReturnIs(c.(step := Wrap(c.step + 1), heap := h), v, 0);
  }

  lemma FlagIs(flags: u64)
    ensures And64(Native, flags, 0x20) == 0 <==> flags / 32 % 2 == 0
  {
    hide Fast.And64, Pow2;
    Powers();
    Fast.TopBit(flags, 5);
    DivDiv(flags, 32, 2);
  }

  /** Rounding up to whole pages. */
  lemma PaddedIs(heap: u64, length: u64)
    ensures var align := And64(Native, length, 4095);
      var padded := if align != 0 then Add64(Native, length, Sub64(Native, 4096, align)) else length;
      Add64(Native, heap, padded) == Wrap(heap + (length + 4095) / 4096 * 4096)
  {
    hide Add64, Sub64, Fast.And64;
    AndLow(length);
    PageRest(length % 4096);
    RoundedUp(length);
    var r := length % 4096;
    if r != 0 {
      SumIsWrap(length, 4096 - r, 0);
      SumIsWrap(heap, 0, length + (4096 - r));
    } else {
      SumIsWrap(heap, length, 0);
    }
  }

  lemma PageRest(r: u64)
    requires r < 4096
    ensures Sub64(Native, 4096, r) == 4096 - r
  {
  }

  lemma RoundedUp(length: u64)
    ensures var r := length % 4096; (length + 4095) / 4096 * 4096 == length + if r == 0 then 0 else 4096 - r
  {
    var q, r := length / 4096, length % 4096;
    if r == 0 {
      DivUnique(length + 4095, 4096, q, 4095);
    } else {
      DivUnique(length + 4095, 4096, q + 1, r - 1);
    }
  }

  lemma AndLow(x: u64)
    ensures Fast.And64(x, 4095) == x % 4096
  {
    AndOnes(x, 12);
    ShrIsDiv(x, 12);
    Powers();
  }

  /** read from anything but the preimage oracle: nothing from stdin, all of a hint acknowledgement. */
  lemma ReadsInput(K: Hash, oracle: Oracle, c: Cpu, m: Flat)
    requires Calls(c, m) && c.registers[17] == 63 && c.registers[10] != 5
    ensures var fd, count := c.registers[10], c.registers[12];
      Leads(K, oracle, c, m,
            if fd == 0 then Answered(c, 0, 0) else if fd == 3 then Answered(c, count, 0) else Answered(c, TWO64 - 1, 0x4D), m)
  {
    hide Leads, Calls, Step, Return, Answered;
    CallOf(K, oracle, c, m);
  }

  /** The result takes the place of the 0 that was there first. */
  lemma AnsweredTwice(c: Cpu, v: u64)
    ensures Answered(c, v, 0) == Answered(c, 0, 0).(registers := Answered(c, 0, 0).registers[10 := v])
  {
    assert c.registers[10 := v][11 := 0] == c.registers[10 := 0][11 := 0][10 := v];
  }

  function Least(x: nat, y: nat, z: nat): nat {
    if x <= y && x <= z then x else if y <= z then y else z
  }

  /** read from the preimage oracle: the next bytes go to the buffer, at most as many as asked for, as
      there are to the end of the leaf, and as the oracle gives; the offset moves on by them. */
  lemma ReadsPreimage(K: Hash, oracle: Oracle, c: Cpu, m: Flat)
    requires Calls(c, m) && c.registers[17] == 63 && c.registers[10] == 5
    ensures var addr, count := c.registers[11], c.registers[12];
      match oracle(c.preimageKey, c.preimageOffset)
      case None => Step(K, oracle, c, m).None?
      case Some(part) =>
        var n := Least(count, 32 - addr % 32, part.len);
        n <= 32 && Leads(K, oracle, c, m, Answered(c, n, 0).(preimageOffset := Wrap(c.preimageOffset + n)),
                         WriteBytes(m, addr, part.dat[..n]))
  {
    hide Leads, Calls, Step, Return, WriteBytes, ReadCount;
    CallOf(K, oracle, c, m);
    var addr, count := c.registers[11], c.registers[12];
    assert SysCall(Native, c.(step := Wrap(c.step + 1))) == Some(PreimageRead(addr, count, Answered(c, 0, 0)));
    var part := oracle(c.preimageKey, c.preimageOffset);
    if part.Some? {
      ReadCountIs(addr, count, part.value.len);
      WritesNothing(m, addr, part.value.dat);
      SmallResidue(c.preimageOffset, TWO64);
      AnsweredTwice(c, Least(count, 32 - addr % 32, part.value.len));
    }
  }

  lemma ReadCountIs(addr: u64, count: u64, len: byte)
    ensures ReadCount(Native, addr, count, len) == Least(count, 32 - addr % 32, len)
  {
  }

  lemma WritesNothing(m: Flat, addr: u64, data: seq<byte>)
    ensures WriteBytes(m, addr, data[..0]) == m
  {
    assert forall x :: 0 <= x < TWO64 ==> WriteBytes(m, addr, data[..0])[x] == m[x];
  }

  /** write to anything but the preimage key: all of it, to stdout, to stderr or as hints. */
  lemma WritesOut(K: Hash, oracle: Oracle, c: Cpu, m: Flat)
    requires Calls(c, m) && c.registers[17] == 64 && c.registers[10] != 6
    ensures var fd, count := c.registers[10], c.registers[12];
      Leads(K, oracle, c, m, if fd in {1, 2, 4} then Answered(c, count, 0) else Answered(c, TWO64 - 1, 0x4D), m)
  {
    hide Leads, Calls, Step, Return, Answered;
    CallOf(K, oracle, c, m);
  }

  /** write to the preimage key: the bytes move in from behind, at most to the end of the leaf, and
      reading restarts. */
  lemma WritesKey(K: Hash, oracle: Oracle, c: Cpu, m: Flat)
    requires Calls(c, m) && c.registers[17] == 64 && c.registers[10] == 6
    ensures var addr, count := c.registers[11], c.registers[12];
      var n := Least(count, 32 - addr % 32, 32);
      Leads(K, oracle, c, m,
            Answered(c, n, 0).(preimageKey := c.preimageKey[n..] + ReadBytes(m, addr, n), preimageOffset := 0), m)
  {
    hide Leads, Calls, Step, Return, ReadBytes, ClampToLeaf;
    CallOf(K, oracle, c, m);
    var addr, count := c.registers[11], c.registers[12];
    assert SysCall(Native, c.(step := Wrap(c.step + 1))) == Some(KeyWrite(addr, count, Answered(c, 0, 0)));
    AnsweredTwice(c, Least(count, 32 - addr % 32, 32));
  }

  /** fcntl: descriptors 0 to 6 are open, those for output are write-only. */
  lemma DescribesFile(K: Hash, oracle: Oracle, c: Cpu, m: Flat)
    requires Calls(c, m) && c.registers[17] == 25
    ensures var fd, cmd := c.registers[10], c.registers[11];
      Leads(K, oracle, c, m,
            if cmd !in {1, 3} then Answered(c, TWO64 - 1, 0x16)
            else if fd > 6 then Answered(c, TWO64 - 1, 0x4D)
            else Answered(c, if cmd == 3 && fd in {1, 2, 4, 6} then 1 else 0, 0), m)
  {
    hide Leads, Calls, Step, Return, Answered;
    CallOf(K, oracle, c, m);
  }

  /** clock_gettime: 1337 seconds and 42 nanoseconds; getrlimit of open files: 1024 and 1024. */
  lemma Tells(K: Hash, oracle: Oracle, c: Cpu, m: Flat)
    requires Calls(c, m)
    ensures c.registers[17] == 113 ==>
      Leads(K, oracle, c, m, Answered(c, 0, 0), WriteBytes(m, c.registers[11], ToLE(1337, 8) + ToLE(42, 8)))
    ensures c.registers[17] == 163 && c.registers[10] == 7 ==>
      Leads(K, oracle, c, m, Answered(c, 0, 0), WriteBytes(m, c.registers[11], ToLE(1024, 8) + ToLE(1024, 8)))
    ensures c.registers[17] == 163 && c.registers[10] != 7 ==> Step(K, oracle, c, m).None?
  {
    hide Leads, Calls, Step, Return, Answered, WriteBytes, ToLE, Evm.Or, Evm.Shl, Writes;
    CallOf(K, oracle, c, m);
    TwoNumbers(1337, 42);
    TwoNumbers(1024, 1024);
  }

  /** Two 64-bit numbers in one word. */
  lemma TwoNumbers(lo: u64, hi: u64)
    ensures ToLE(Evm.Or(lo, Evm.Shl(64, hi)), 16) == ToLE(lo, 8) + ToLE(hi, 8)
  {
    hide ToLE, Pow2, Shl, Shr, Low, Or;
    PowValues();
    ShlIsMul(hi, 64);
    OrDisjoint(hi, lo, 64);
    SmallResidue(hi * TWO64, TWO256);
    var x := Shl(hi, 64) + lo;
    DigitsUnique(x, 64, hi, lo);
    TakeLimb(x, 16);
    ToLELow(x, 8);
  }

  /** openat finds no file, clone makes no thread; prlimit64, futex and nanosleep fail; every other call
      is ignored. */
  lemma OtherCalls(K: Hash, oracle: Oracle, c: Cpu, m: Flat)
    requires Calls(c, m)
    ensures var number := c.registers[17];
      && (number == 56 ==> Leads(K, oracle, c, m, Answered(c, TWO64 - 1, 0xD), m))
      && (number == 220 ==> Leads(K, oracle, c, m, Answered(c, 1, 0), m))
      && (number in {261, 422, 101} ==> Step(K, oracle, c, m).None?)
      && (number !in {93, 94, 214, 222, 63, 64, 25, 56, 113, 220, 163, 261, 422, 101} ==>
            Leads(K, oracle, c, m, Answered(c, 0, 0), m))
  {
    hide Leads, Calls, Step, Return, Answered;
    CallOf(K, oracle, c, m);
  }
}
