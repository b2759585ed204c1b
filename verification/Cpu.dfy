/** The registers of the VM and the instruction switch (rvgo/fast/vm.go, rvgo/slow/vm.go,
    and parse.go of both packages). The switch reads and writes registers; what it wants
    from memory or from the preimage oracle is returned as an action. */
module Cpu {
  import opened Words
  import opened Bytes
  import opened Yul64
  import Evm

  datatype Option<T> = None | Some(value: T)

  const ZERO_REGISTERS: seq<u64> := [
    0, 0, 0, 0, 0, 0, 0, 0, 0, 0, 0, 0, 0, 0, 0, 0,
    0, 0, 0, 0, 0, 0, 0, 0, 0, 0, 0, 0, 0, 0, 0, 0]

  type Registers = s: seq<u64> | |s| == 32 witness ZERO_REGISTERS

  /** The VM state apart from memory. */
  datatype Cpu = Cpu(
    preimageKey: Bytes32, preimageOffset: u64, pc: u64, exitCode: byte, exited: bool, step: u64,
    heap: u64, loadReservation: u64, registers: Registers)

  /** What remains to be done when the switch is through. Every action but AtomicAt carries the
      registers as they are afterwards, except for the value that is still to come. */
  datatype Action =
    | Done(next: Cpu)
    | LoadTo(rd: nat, addr: u64, size: nat, signed: bool, next: Cpu)
    | StoreAt(addr: u64, size: nat, value: u256, next: Cpu)
    | AtomicAt(op: u64, rd: nat, addr: u64, size: nat, operand: u64, next: Cpu)
    | KeyWrite(addr: u64, count: u64, next: Cpu)
    | PreimageRead(addr: u64, count: u64, next: Cpu)
    | Output(fd: u64, addr: u64, count: u64, next: Cpu)

  function GetRegister(c: Cpu, reg: nat): u64
    requires reg < 32
  {
    c.registers[reg]
  }

  /** Register 0 stays 0. */
  function SetRegister(c: Cpu, reg: nat, v: u64): Cpu
    requires reg < 32
  {
    if reg == 0 then c else c.(registers := c.registers[reg := v])
  }

  // ----- parsing -----

  /** Fields of the instruction word; masking keeps them small. */
  function Field(w: Arith, instr: u64, shift: u64, mask: u64): (r: u64)
    ensures r <= mask
  {
    AndBound(Shr64(w, shift, instr), mask);
    And64(w, Shr64(w, shift, instr), mask)
  }

  function ParseImmTypeI(w: Arith, instr: u64): u64 {
    SignExtend64(w, Shr64(w, 20, instr), 11)
  }

  function ParseImmTypeS(w: Arith, instr: u64): u64 {
    SignExtend64(w, Or64(w, Shl64(w, 5, Shr64(w, 25, instr)), Field(w, instr, 7, 0x1F)), 11)
  }

  function ParseImmTypeB(w: Arith, instr: u64): u64 {
    SignExtend64(w,
      Or64(w,
        Or64(w, Shl64(w, 1, Field(w, instr, 8, 0xF)), Shl64(w, 5, Field(w, instr, 25, 0x3F))),
        Or64(w, Shl64(w, 11, Field(w, instr, 7, 1)), Shl64(w, 12, Shr64(w, 31, instr)))),
      12)
  }

  function ParseImmTypeU(w: Arith, instr: u64): u64 {
    SignExtend64(w, Shr64(w, 12, instr), 19)
  }

  function ParseImmTypeJ(w: Arith, instr: u64): u64 {
    SignExtend64(w,
      Or64(w,
        Or64(w, Field(w, instr, 21, 0x3FF), Shl64(w, 10, Field(w, instr, 20, 1))),
        Or64(w, Shl64(w, 11, Field(w, instr, 12, 0xFF)), Shl64(w, 19, Shr64(w, 31, instr)))),
      19)
  }

  function ParseOpcode(w: Arith, instr: u64): u64 {
    And64(w, instr, 0x7F)
  }

  function ParseRd(w: Arith, instr: u64): (r: u64)
    ensures r < 32
  {
    Field(w, instr, 7, 0x1F)
  }

  function ParseFunct3(w: Arith, instr: u64): (r: u64)
    ensures r < 8
  {
    Field(w, instr, 12, 0x7)
  }

  function ParseRs1(w: Arith, instr: u64): (r: u64)
    ensures r < 32
  {
    Field(w, instr, 15, 0x1F)
  }

  function ParseRs2(w: Arith, instr: u64): (r: u64)
    ensures r < 32
  {
    Field(w, instr, 20, 0x1F)
  }

  function ParseFunct7(w: Arith, instr: u64): u64 {
    Shr64(w, 25, instr)
  }

  // ----- arithmetic and logic; None is a revert -----

  /** What opcode 0x13 puts into rd. */
  function AluImm(w: Arith, funct3: u64, x: u64, imm: u64): Option<u64> {
    if funct3 == 0 then Some(Add64(w, x, imm))
    else if funct3 == 1 then Some(Shl64(w, And64(w, imm, 0x3F), x))
    else if funct3 == 2 then Some(Slt64(w, x, imm))
    else if funct3 == 3 then Some(Lt64(w, x, imm))
    else if funct3 == 4 then Some(Xor64(w, x, imm))
    else if funct3 == 5 then
      var kind := Shr64(w, 6, imm);
      if kind == 0x00 then Some(Shr64(w, And64(w, imm, 0x3F), x))
      else if kind == 0x10 then Some(Sar64(w, And64(w, imm, 0x3F), x))
      else None
    else if funct3 == 6 then Some(Or64(w, x, imm))
    else if funct3 == 7 then Some(And64(w, x, imm))
    else None
  }

  /** Opcode 0x1B: the same on low words. */
  function AluImm32(w: Arith, funct3: u64, x: u64, imm: u64): Option<u64> {
    if funct3 == 0 then Some(Mask32Signed64(w, Add64(w, x, imm)))
    else if funct3 == 1 then
      if And64(w, imm, 0x20) != 0 then None
      else Some(Mask32Signed64(w, Shl64(w, And64(w, imm, 0x1F), x)))
    else if funct3 == 5 then
      if And64(w, imm, 0x20) != 0 then None
      else
        var shamt := And64(w, imm, 0x1F);
        var low := And64(w, x, U32Mask(w));
        var kind := Shr64(w, 5, imm);
        if kind == 0x00 then Some(SignExtend64(w, Shr64(w, shamt, low), 31))
        else if kind == 0x20 then Some(SignExtend64(w, Shr64(w, shamt, low), Sub64(w, 31, shamt)))
        else None
    else None
  }

  /** The M extension on 64-bit operands. */
  function MulDiv(w: Arith, funct3: u64, x: u64, y: u64): Option<u64> {
    if funct3 == 0 then Some(Mul64(w, x, y))
    else if funct3 == 1 then
      Some(U256ToU64(w, Evm.Shr(64, Evm.Mul(SignExtend64To256(w, x), SignExtend64To256(w, y)))))
    else if funct3 == 2 then Some(U256ToU64(w, Evm.Shr(64, Evm.Mul(SignExtend64To256(w, x), y))))
    else if funct3 == 3 then Some(U256ToU64(w, Evm.Shr(64, Evm.Mul(x, y))))
    else if funct3 == 4 then Some(if y == 0 then U64Mask(w) else SDiv64(w, x, y))
    else if funct3 == 5 then Some(if y == 0 then U64Mask(w) else Div64(w, x, y))
    else if funct3 == 6 then Some(if y == 0 then x else SMod64(w, x, y))
    else if funct3 == 7 then Some(if y == 0 then x else Mod64(w, x, y))
    else None
  }

  /** Opcode 0x33, with two registers. */
  function AluReg(w: Arith, funct3: u64, funct7: u64, x: u64, y: u64): Option<u64> {
    if funct7 == 1 then MulDiv(w, funct3, x, y)
    else if funct3 == 0 then
      if funct7 == 0x00 then Some(Add64(w, x, y))
      else if funct7 == 0x20 then Some(Sub64(w, x, y))
      else None
    else if funct3 == 1 then Some(Shl64(w, And64(w, y, 0x3F), x))
    else if funct3 == 2 then Some(Slt64(w, x, y))
    else if funct3 == 3 then Some(Lt64(w, x, y))
    else if funct3 == 4 then Some(Xor64(w, x, y))
    else if funct3 == 5 then
      if funct7 == 0x00 then Some(Shr64(w, And64(w, y, 0x3F), x))
      else if funct7 == 0x20 then Some(Sar64(w, And64(w, y, 0x3F), x))
      else None
    else if funct3 == 6 then Some(Or64(w, x, y))
    else if funct3 == 7 then Some(And64(w, x, y))
    else None
  }

  /** The M extension on 32-bit operands; the source has cut y to 32 bits before. */
  function MulDiv32(w: Arith, funct3: u64, x: u64, y: u64): Option<u64> {
    var x32, y32 := And64(w, x, U32Mask(w)), And64(w, y, U32Mask(w));
    if funct3 == 0 then Some(Mask32Signed64(w, Mul64(w, x32, y32)))
    else if funct3 == 4 then
      Some(if y == 0 then U64Mask(w)
           else Mask32Signed64(w, SDiv64(w, Mask32Signed64(w, x), Mask32Signed64(w, y))))
    else if funct3 == 5 then Some(if y == 0 then U64Mask(w) else Mask32Signed64(w, Div64(w, x32, y32)))
    else if funct3 == 6 then
      Some(if y == 0 then Mask32Signed64(w, x)
           else Mask32Signed64(w, SMod64(w, Mask32Signed64(w, x), Mask32Signed64(w, y))))
    else if funct3 == 7 then
      Some(if y == 0 then Mask32Signed64(w, x) else Mask32Signed64(w, Mod64(w, x32, y32)))
    else None
  }

  /** Opcode 0x3B: the same on low words. */
  function AluReg32(w: Arith, funct3: u64, funct7: u64, x: u64, rs2Value: u64): Option<u64> {
    var y := And64(w, rs2Value, U32Mask(w));
    if funct7 == 1 then MulDiv32(w, funct3, x, y)
    else if funct3 == 0 then
      var x32, y32 := And64(w, x, U32Mask(w)), And64(w, y, U32Mask(w));
      if funct7 == 0x00 then Some(Mask32Signed64(w, Add64(w, x32, y32)))
      else if funct7 == 0x20 then Some(Mask32Signed64(w, Sub64(w, x32, y32)))
      else None
    else if funct3 == 1 then Some(Mask32Signed64(w, Shl64(w, And64(w, y, 0x1F), x)))
    else if funct3 == 5 then
      var shamt := And64(w, y, 0x1F);
      var low := And64(w, x, U32Mask(w));
      if funct7 == 0x00 then Some(SignExtend64(w, Shr64(w, shamt, low), 31))
      else if funct7 == 0x20 then Some(SignExtend64(w, Shr64(w, shamt, low), Sub64(w, 31, shamt)))
      else None
    else None
  }

  /** 0x63: whether a branch is taken. Two of the eight codes are no branch at all. */
  function BranchHit(w: Arith, funct3: u64, x: u64, y: u64): u64 {
    if funct3 == 0 then Eq64(w, x, y)
    else if funct3 == 1 then And64(w, Not64(w, Eq64(w, x, y)), 1)
    else if funct3 == 4 then Slt64(w, x, y)
    else if funct3 == 5 then And64(w, Not64(w, Slt64(w, x, y)), 1)
    else if funct3 == 6 then Lt64(w, x, y)
    else if funct3 == 7 then And64(w, Not64(w, Lt64(w, x, y)), 1)
    else 0
  }

  predicate KnownAtomic(op: u64) {
    op in {0x0, 0x1, 0x4, 0x8, 0xc, 0x10, 0x14, 0x18, 0x1c}
  }

  /** 0x2F: what an atomic operation writes over v. */
  function AtomicValue(w: Arith, op: u64, v: u64, value: u64): u64
    requires KnownAtomic(op)
  {
    if op == 0x0 then Add64(w, v, value)
    else if op == 0x1 then value
    else if op == 0x4 then Xor64(w, v, value)
    else if op == 0x8 then Or64(w, v, value)
    else if op == 0xc then And64(w, v, value)
    else if op == 0x10 then (if Slt64(w, value, v) != 0 then value else v)
    else if op == 0x14 then (if Sgt64(w, value, v) != 0 then value else v)
    else if op == 0x18 then (if Lt64(w, value, v) != 0 then value else v)
    else (if Gt64(w, value, v) != 0 then value else v)
  }

  // ----- the switch -----

  function Advance(w: Arith, c: Cpu): Cpu {
    c.(pc := Add64(w, c.pc, 4))
  }

  function WriteBack(w: Arith, c: Cpu, rd: u64, v: Option<u64>): Option<Action>
    requires rd < 32
  {
    match v
    case None => None
    case Some(x) => Some(Done(Advance(w, SetRegister(c, rd, x))))
  }

  /** 1, 2, 4, ... bytes */
  function AccessSize(w: Arith, code: u64): u64 {
    Shl64(w, code, 1)
  }

  function DecodeLoad(w: Arith, c: Cpu, instr: u64): Option<Action> {
    var funct3 := ParseFunct3(w, instr);
    if Eq64(w, funct3, 7) != 0 then None
    else
      var signed := And64(w, funct3, 4) == 0;
      var size := AccessSize(w, And64(w, funct3, 3));
      var addr := Add64(w, GetRegister(c, ParseRs1(w, instr)), SignExtend64(w, ParseImmTypeI(w, instr), 11));
      if size > 8 then None
      else Some(LoadTo(ParseRd(w, instr), addr, size, signed, Advance(w, c)))
  }

  function DecodeStore(w: Arith, c: Cpu, instr: u64): Option<Action> {
    var size := AccessSize(w, ParseFunct3(w, instr));
    var value := GetRegister(c, ParseRs2(w, instr));
    var addr := Add64(w, GetRegister(c, ParseRs1(w, instr)), SignExtend64(w, ParseImmTypeS(w, instr), 11));
    if size > 8 then None else Some(StoreAt(addr, size, value, Advance(w, c)))
  }

  function Jump(w: Arith, c: Cpu, pc: u64): Option<Action> {
    if And64(w, pc, 3) != 0 then None else Some(Done(c.(pc := pc)))
  }

  function DecodeBranch(w: Arith, c: Cpu, instr: u64): Option<Action> {
    var x, y := GetRegister(c, ParseRs1(w, instr)), GetRegister(c, ParseRs2(w, instr));
    var offset := if BranchHit(w, ParseFunct3(w, instr), x, y) == 0 then 4 else ParseImmTypeB(w, instr);
    Jump(w, c, Add64(w, c.pc, offset))
  }

  function DecodeJal(w: Arith, c: Cpu, instr: u64): Option<Action> {
    var linked := SetRegister(c, ParseRd(w, instr), Add64(w, c.pc, 4));
    Jump(w, linked, Add64(w, c.pc, SignExtend64(w, Shl64(w, 1, ParseImmTypeJ(w, instr)), 20)))
  }

  /** The target is computed from rs1 as it was before rd was written. */
  function DecodeJalr(w: Arith, c: Cpu, instr: u64): Option<Action> {
    var linked := SetRegister(c, ParseRd(w, instr), Add64(w, c.pc, 4));
    var target := Add64(w, GetRegister(c, ParseRs1(w, instr)), SignExtend64(w, ParseImmTypeI(w, instr), 11));
    Jump(w, linked, And64(w, target, Xor64(w, U64Mask(w), 1)))
  }

  function DecodeUpper(w: Arith, c: Cpu, instr: u64): Option<Action> {
    var shifted := Shl64(w, 12, ParseImmTypeU(w, instr));
    var v := if ParseOpcode(w, instr) == 0x37 then shifted else Add64(w, c.pc, SignExtend64(w, shifted, 31));
    WriteBack(w, c, ParseRd(w, instr), Some(v))
  }

  function DecodeAlu(w: Arith, c: Cpu, instr: u64): Option<Action> {
    var opcode, funct3, funct7 := ParseOpcode(w, instr), ParseFunct3(w, instr), ParseFunct7(w, instr);
    var x, y := GetRegister(c, ParseRs1(w, instr)), GetRegister(c, ParseRs2(w, instr));
    var v :=
      if opcode == 0x13 then AluImm(w, funct3, x, ParseImmTypeI(w, instr))
      else if opcode == 0x1B then AluImm32(w, funct3, x, ParseImmTypeI(w, instr))
      else if opcode == 0x33 then AluReg(w, funct3, funct7, x, y)
      else AluReg32(w, funct3, funct7, x, y);
    WriteBack(w, c, ParseRd(w, instr), v)
  }

  function DecodeAtomic(w: Arith, c: Cpu, instr: u64): Option<Action> {
    var size := AccessSize(w, ParseFunct3(w, instr));
    var addr := GetRegister(c, ParseRs1(w, instr));
    var rd, y := ParseRd(w, instr), GetRegister(c, ParseRs2(w, instr));
    if Lt64(w, size, 4) != 0 || Gt64(w, size, 8) != 0 || Mod64(w, addr, size) != 0 then None
    else
      var op := Shr64(w, 2, ParseFunct7(w, instr));
      if op == 0x2 then Some(LoadTo(rd, addr, size, true, Advance(w, c.(loadReservation := addr)))) // LR
      else if op == 0x3 then // SC
        var released := c.(loadReservation := 0);
        if Eq64(w, addr, c.loadReservation) != 0
        then Some(StoreAt(addr, size, y, Advance(w, SetRegister(released, rd, 0))))
        else Some(Done(Advance(w, SetRegister(released, rd, 1))))
      else if KnownAtomic(op) then
        var operand := if Eq64(w, size, 4) != 0 then Mask32Signed64(w, y) else y;
        Some(AtomicAt(op, rd, addr, size, operand, Advance(w, c)))
      else None
  }

  // ----- system calls -----

  const SYS_EXIT: int := 93
  const SYS_EXIT_GROUP: int := 94
  const SYS_BRK: int := 214
  const SYS_MMAP: int := 222
  const SYS_READ: int := 63
  const SYS_WRITE: int := 64
  const SYS_FCNTL: int := 25
  const SYS_OPENAT: int := 56
  const SYS_CLOCK_GETTIME: int := 113
  const SYS_CLONE: int := 220
  const SYS_GETRLIMIT: int := 163
  const SYS_PRLIMIT64: int := 261
  const SYS_FUTEX: int := 422
  const SYS_NANOSLEEP: int := 101

  const FD_STDOUT: int := 1
  const FD_STDERR: int := 2
  const FD_HINT_READ: int := 3
  const FD_HINT_WRITE: int := 4
  const FD_PREIMAGE_READ: int := 5
  const FD_PREIMAGE_WRITE: int := 6

  const EBADF: int := 0x4d

  /** A system call returns its result in A0 and an error number in A1. */
  function Return(w: Arith, c: Cpu, result: u64, errCode: u64): Cpu {
    Advance(w, SetRegister(SetRegister(c, 10, result), 11, errCode))
  }

  function SysMmap(w: Arith, c: Cpu): Cpu {
    var addr, length := GetRegister(c, 10), GetRegister(c, 11);
    var flags, fd := GetRegister(c, 13), GetRegister(c, 14);
    if And64(w, flags, 0x20) == 0 || fd != U64Mask(w) then Return(w, c, U64Mask(w), EBADF)
    else if addr != 0 then Return(w, c, addr, 0)
    else
      var align := And64(w, length, 4095);
      var padded := if align != 0 then Add64(w, length, Sub64(w, 4096, align)) else length;
      Return(w, c.(heap := Add64(w, c.heap, padded)), c.heap, 0)
  }

  function SysRead(w: Arith, c: Cpu): Action {
    var fd, addr, count := GetRegister(c, 10), GetRegister(c, 11), GetRegister(c, 12);
    if fd == 0 then Done(Return(w, c, 0, 0))
    else if fd == FD_HINT_READ then Done(Return(w, c, count, 0))
    else if fd == FD_PREIMAGE_READ then PreimageRead(addr, count, Return(w, c, 0, 0))
    else Done(Return(w, c, U64Mask(w), EBADF))
  }

  function SysWrite(w: Arith, c: Cpu): Action {
    var fd, addr, count := GetRegister(c, 10), GetRegister(c, 11), GetRegister(c, 12);
    if fd == FD_STDOUT || fd == FD_STDERR || fd == FD_HINT_WRITE then Output(fd, addr, count, Return(w, c, count, 0))
    else if fd == FD_PREIMAGE_WRITE then KeyWrite(addr, count, Return(w, c, 0, 0))
    else Done(Return(w, c, U64Mask(w), EBADF))
  }

  function SysFcntl(w: Arith, c: Cpu): Cpu {
    var fd, cmd := GetRegister(c, 10), GetRegister(c, 11);
    if cmd != 1 && cmd != 3 then Return(w, c, U64Mask(w), 0x16)
    else if fd > 6 then Return(w, c, U64Mask(w), EBADF)
    else if cmd == 3 && (fd == 1 || fd == 2 || fd == 4 || fd == 6) then Return(w, c, 1, 0)
    else Return(w, c, 0, 0)
  }

  function SysCall(w: Arith, c: Cpu): Option<Action> {
    var a7, a0, a1 := GetRegister(c, 17), GetRegister(c, 10), GetRegister(c, 11);
    if a7 == SYS_EXIT || a7 == SYS_EXIT_GROUP then
      Some(Done(Advance(w, c.(exitCode := a0 % 256, exited := true))))
    else if a7 == SYS_BRK then Some(Done(Return(w, c, Shl64(w, 30, 1), 0)))
    else if a7 == SYS_MMAP then Some(Done(SysMmap(w, c)))
    else if a7 == SYS_READ then Some(SysRead(w, c))
    else if a7 == SYS_WRITE then Some(SysWrite(w, c))
    else if a7 == SYS_FCNTL then Some(Done(SysFcntl(w, c)))
    else if a7 == SYS_OPENAT then Some(Done(Return(w, c, U64Mask(w), 0xd)))
    else if a7 == SYS_CLOCK_GETTIME then
      Some(StoreAt(a1, 16, Evm.Or(1337, Evm.Shl(64, 42)), Return(w, c, 0, 0)))
    else if a7 == SYS_CLONE then Some(Done(Return(w, c, 1, 0)))
    else if a7 == SYS_GETRLIMIT then
      if a0 == 7 then Some(StoreAt(a1, 16, Evm.Or(1024, Evm.Shl(64, 1024)), Return(w, c, 0, 0))) else None
    else if a7 == SYS_PRLIMIT64 || a7 == SYS_FUTEX || a7 == SYS_NANOSLEEP then None
    else Some(Done(Return(w, c, 0, 0)))
  }

  function DecodeSystem(w: Arith, c: Cpu, instr: u64): Option<Action> {
    if ParseFunct3(w, instr) != 0 then WriteBack(w, c, ParseRd(w, instr), Some(0)) // CSR accesses read 0
    else if Shr64(w, 20, instr) == 0 then SysCall(w, c)
    else Some(Done(Advance(w, c))) // EBREAK
  }

  function Decode(w: Arith, c: Cpu, instr: u64): Option<Action> {
    var opcode := ParseOpcode(w, instr);
    if opcode == 0x03 then DecodeLoad(w, c, instr)
    else if opcode == 0x23 then DecodeStore(w, c, instr)
    else if opcode == 0x63 then DecodeBranch(w, c, instr)
    else if opcode in {0x13, 0x1B, 0x33, 0x3B} then DecodeAlu(w, c, instr)
    else if opcode in {0x37, 0x17} then DecodeUpper(w, c, instr)
    else if opcode == 0x6F then DecodeJal(w, c, instr)
    else if opcode == 0x67 then DecodeJalr(w, c, instr)
    else if opcode == 0x73 then DecodeSystem(w, c, instr)
    else if opcode == 0x2F then DecodeAtomic(w, c, instr)
    else if opcode in {0x0F, 0x07, 0x27, 0x53} then Some(Done(Advance(w, c))) // fences, and floats left out
    else None
  }
}
