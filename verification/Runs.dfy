/** What every run of the VM keeps: alignment and register 0, the step counter, the load
    reservation, the preimage key, and the stream of preimage data. */
module Runs {
  import opened Words
  import opened Bytes
  import opened FlatMemory
  import opened Yul64
  import opened Cpu
  import opened WordBytes
  import opened Reference
  import OneStep
  import F = FastVm

  // ----- one instruction -----

  /** What the switch leaves alone, and what it keeps. */
  ghost predicate Kept(c: Cpu, next: Cpu) {
    && (c.pc % 4 == 0 ==> next.pc % 4 == 0)
    && (c.registers[0] == 0 ==> next.registers[0] == 0)
    && next.step == c.step && next.preimageKey == c.preimageKey && next.preimageOffset == c.preimageOffset
  }

  lemma AdvanceKeeps(c: Cpu)
    ensures Kept(c, Advance(Native, c)) && Advance(Native, c).loadReservation == c.loadReservation
  {
    var pc := Advance(Native, c).pc;
    assert pc == c.pc + 4 || pc == c.pc + 4 - TWO64;
  }

  lemma JumpKeeps(c: Cpu, pc: u64)
    ensures var a := Jump(Native, c, pc); a.Some? ==> Kept(c, a.value.next) && a.value.next.loadReservation == c.loadReservation
  {
    AndOnes(pc, 2);
    ShrIsDiv(pc, 2);
    assert Pow2(2) == 4;
  }

  lemma SetKeeps(c: Cpu, rd: nat, v: u64)
    requires rd < 32
    ensures Kept(c, SetRegister(c, rd, v)) && SetRegister(c, rd, v).pc == c.pc
    ensures SetRegister(c, rd, v).loadReservation == c.loadReservation
  {
  }

  lemma KeptTwice(a: Cpu, b: Cpu, c: Cpu)
    requires Kept(a, b) && Kept(b, c)
    ensures Kept(a, c)
  {
  }

  lemma ReturnKeeps(c: Cpu, v: u64, e: u64)
    ensures Kept(c, Return(Native, c, v, e)) && Return(Native, c, v, e).loadReservation == c.loadReservation
  {
    hide Kept, Advance, SetRegister;
    var c1 := SetRegister(c, 10, v);
    var c2 := SetRegister(c1, 11, e);
    SetKeeps(c, 10, v);
    SetKeeps(c1, 11, e);
    AdvanceKeeps(c2);
    KeptTwice(c, c1, c2);
    KeptTwice(c, c2, Advance(Native, c2));
  }

  lemma HeapKeeps(c: Cpu, h: u64, v: u64)
    ensures Kept(c, Return(Native, c.(heap := h), v, 0))
    ensures Return(Native, c.(heap := h), v, 0).loadReservation == c.loadReservation
  {
    hide Return;
    ReturnKeeps(c.(heap := h), v, 0);
  }

  lemma ExitKeeps(c: Cpu, code: byte)
    ensures Kept(c, Advance(Native, c.(exitCode := code, exited := true)))
    ensures Advance(Native, c.(exitCode := code, exited := true)).loadReservation == c.loadReservation
  {
    AdvanceKeeps(c.(exitCode := code, exited := true));
  }

  lemma SysCallKeeps(c: Cpu)
    ensures var a := SysCall(Native, c);
      a.Some? ==> Kept(c, a.value.next) && a.value.next.loadReservation == c.loadReservation
  {
    hide Kept, Return, Advance;
    ExitKeeps(c, GetRegister(c, 10) % 256);
    forall v: u64, e: u64 ensures Kept(c, Return(Native, c, v, e)) && Return(Native, c, v, e).loadReservation == c.loadReservation {
      ReturnKeeps(c, v, e);
    }
    forall h: u64, v: u64
      ensures Kept(c, Return(Native, c.(heap := h), v, 0)) && Return(Native, c.(heap := h), v, 0).loadReservation == c.loadReservation
    {
      HeapKeeps(c, h, v);
    }
  }

  lemma WriteBackKeeps(c: Cpu, rd: nat, v: Option<u64>)
    requires rd < 32
    ensures var a := WriteBack(Native, c, rd, v);
      a.Some? ==> a.value.Done? && Kept(c, a.value.next) && a.value.next.loadReservation == c.loadReservation
  {
    hide Kept, SetRegister, Advance;
    if v.Some? {
      SetKeeps(c, rd, v.value);
      AdvanceKeeps(SetRegister(c, rd, v.value));
      KeptTwice(c, SetRegister(c, rd, v.value), Advance(Native, SetRegister(c, rd, v.value)));
    }
  }

  // ----- load-reserved and store-conditional -----

  datatype Link = LoadReserved(addr: u64) | StoreConditional(addr: u64) | NoLink

  /** Whether an instruction is an LR or an SC, and to which address. */
  function LinkOf(c: Cpu, instr: u64): Link {
    var op := Shr64(Native, 2, ParseFunct7(Native, instr));
    var addr := GetRegister(c, ParseRs1(Native, instr));
    if ParseOpcode(Native, instr) != 0x2F then NoLink
    else if op == 0x2 then LoadReserved(addr)
    else if op == 0x3 then StoreConditional(addr)
    else NoLink
  }

  /** The reservation after an instruction. */
  function Reserved(link: Link, before: u64): u64 {
    match link
    case LoadReserved(addr) => addr
    case StoreConditional(_) => 0
    case NoLink => before
  }

  /** What an SC asks for: the store exactly if the reservation is for its address. */
  predicate Conditional(a: Action, addr: u64, reservation: u64) {
    if addr == reservation then a.StoreAt? && a.addr == addr else a.Done?
  }

  lemma AtomicKeeps(c: Cpu, instr: u64)
    requires ParseOpcode(Native, instr) == 0x2F
    ensures var a := DecodeAtomic(Native, c, instr); a.Some? ==>
      Kept(c, a.value.next) && a.value.next.loadReservation == Reserved(LinkOf(c, instr), c.loadReservation)
    ensures var a := DecodeAtomic(Native, c, instr);
      a.Some? && LinkOf(c, instr).StoreConditional? ==> Conditional(a.value, LinkOf(c, instr).addr, c.loadReservation)
  {
    hide Kept, Advance, SetRegister, ParseFunct7, ParseFunct3, ParseRs1, ParseRs2, ParseRd, ParseOpcode, AccessSize, KnownAtomic;
    var addr, rd := GetRegister(c, ParseRs1(Native, instr)), ParseRd(Native, instr);
    AdvanceKeeps(c);
    ReservationKeeps(c, addr);
    ReservationKeeps(c, 0);
    var released := c.(loadReservation := 0);
    SetKeeps(released, rd, 0);
    SetKeeps(released, rd, 1);
    AdvanceKeeps(SetRegister(released, rd, 0));
    AdvanceKeeps(SetRegister(released, rd, 1));
    KeptTwice(c, released, SetRegister(released, rd, 0));
    KeptTwice(c, released, SetRegister(released, rd, 1));
    KeptTwice(c, SetRegister(released, rd, 0), Advance(Native, SetRegister(released, rd, 0)));
    KeptTwice(c, SetRegister(released, rd, 1), Advance(Native, SetRegister(released, rd, 1)));
    AdvanceKeeps(c.(loadReservation := addr));
    KeptTwice(c, c.(loadReservation := addr), Advance(Native, c.(loadReservation := addr)));
  }

  lemma ReservationKeeps(c: Cpu, addr: u64)
    ensures Kept(c, c.(loadReservation := addr))
  {
  }

  lemma JumpsKeep(c: Cpu, instr: u64)
    ensures var a := DecodeBranch(Native, c, instr); a.Some? ==> Kept(c, a.value.next) && a.value.next.loadReservation == c.loadReservation
    ensures var a := DecodeJal(Native, c, instr); a.Some? ==> Kept(c, a.value.next) && a.value.next.loadReservation == c.loadReservation
    ensures var a := DecodeJalr(Native, c, instr); a.Some? ==> Kept(c, a.value.next) && a.value.next.loadReservation == c.loadReservation
  {
    hide Kept, Jump, SetRegister, BranchHit, ParseRd, ParseRs1, ParseRs2, ParseFunct3, ParseImmTypeB, ParseImmTypeJ, ParseImmTypeI;
    hide Add64, And64, Shl64, SignExtend64, Xor64;
    var linked := SetRegister(c, ParseRd(Native, instr), Add64(Native, c.pc, 4));
    SetKeeps(c, ParseRd(Native, instr), Add64(Native, c.pc, 4));
    forall pc: u64 | Jump(Native, c, pc).Some?
      ensures Kept(c, Jump(Native, c, pc).value.next) && Jump(Native, c, pc).value.next.loadReservation == c.loadReservation
    {
      JumpKeeps(c, pc);
    }
    forall pc: u64 | Jump(Native, linked, pc).Some?
      ensures Kept(c, Jump(Native, linked, pc).value.next)
        && Jump(Native, linked, pc).value.next.loadReservation == c.loadReservation
    {
      JumpKeeps(linked, pc);
      KeptTwice(c, linked, Jump(Native, linked, pc).value.next);
    }
  }

  lemma PlainKeeps(c: Cpu, instr: u64)
    ensures var a := DecodeLoad(Native, c, instr); a.Some? ==> Kept(c, a.value.next) && a.value.next.loadReservation == c.loadReservation
    ensures var a := DecodeStore(Native, c, instr); a.Some? ==> Kept(c, a.value.next) && a.value.next.loadReservation == c.loadReservation
    ensures var a := DecodeSystem(Native, c, instr); a.Some? ==> Kept(c, a.value.next) && a.value.next.loadReservation == c.loadReservation
    ensures var a := DecodeAlu(Native, c, instr); a.Some? ==> Kept(c, a.value.next) && a.value.next.loadReservation == c.loadReservation
    ensures var a := DecodeUpper(Native, c, instr); a.Some? ==> Kept(c, a.value.next) && a.value.next.loadReservation == c.loadReservation
  {
    hide Kept, Advance, WriteBack, SysCall, AluImm, AluImm32, AluReg, AluReg32, AccessSize, ParseRd, ParseRs1, ParseRs2, ParseFunct3;
    hide ParseFunct7, ParseOpcode, ParseImmTypeI, ParseImmTypeS, ParseImmTypeU, Add64, And64, Shl64, Shr64, SignExtend64, Eq64;
    AdvanceKeeps(c);
    SysCallKeeps(c);
    forall v: Option<u64> ensures var a := WriteBack(Native, c, ParseRd(Native, instr), v);
      a.Some? ==> Kept(c, a.value.next) && a.value.next.loadReservation == c.loadReservation
    {
      WriteBackKeeps(c, ParseRd(Native, instr), v);
    }
  }

  /** Every instruction keeps alignment and register 0, counts nothing, and leaves preimage key and
      offset to the two preimage system calls; the reservation changes by LR and SC only. */
  lemma DecodeKeeps(c: Cpu, instr: u64)
    ensures var a := Decode(Native, c, instr); a.Some? ==>
      Kept(c, a.value.next) && a.value.next.loadReservation == Reserved(LinkOf(c, instr), c.loadReservation)
  {
    hide Kept, Advance, DecodeLoad, DecodeStore, DecodeBranch, DecodeAlu, DecodeUpper, DecodeJal, DecodeJalr, DecodeSystem, DecodeAtomic;
    AdvanceKeeps(c);
    PlainKeeps(c, instr);
    JumpsKeep(c, instr);
    if ParseOpcode(Native, instr) == 0x2F {
      AtomicKeeps(c, instr);
    }
  }

  lemma ConditionalStore(c: Cpu, instr: u64)
    ensures var a := Decode(Native, c, instr);
      a.Some? && LinkOf(c, instr).StoreConditional? ==> Conditional(a.value, LinkOf(c, instr).addr, c.loadReservation)
  {
    hide DecodeAtomic, Conditional;
    if ParseOpcode(Native, instr) == 0x2F {
      AtomicKeeps(c, instr);
    }
  }

  // ----- one step -----

  /** What the values that come in later change: a register other than 0, and what belongs to the
      preimage system calls. */
  lemma PerformKeeps(K: Hash, oracle: Oracle, m: Flat, a: Action)
    requires WellFormed(a) && Perform(K, oracle, m, a).Some?
    ensures var o := Perform(K, oracle, m, a).value.cpu;
      && o.pc == a.next.pc && o.step == a.next.step && o.loadReservation == a.next.loadReservation
      && o.exited == a.next.exited && o.registers[0] == a.next.registers[0]
    ensures !a.KeyWrite? ==> Perform(K, oracle, m, a).value.cpu.preimageKey == a.next.preimageKey
    ensures !a.KeyWrite? && !a.PreimageRead? ==> Perform(K, oracle, m, a).value.cpu.preimageOffset == a.next.preimageOffset
  {
    hide ReadBytes, WriteBytes, LoadValue, AtomicValue, ClampToLeaf, ReadCount, Reads, Writes, ToLE;
  }

  /** The instruction word of a VM that is still running. */
  ghost function LinkAt(c: Cpu, m: Flat): Link {
    if c.exited then NoLink else LinkOf(Started(c), Instruction(m, c.pc))
  }

  lemma PendingOf(K: Hash, oracle: Oracle, c: Cpu, m: Flat)
    requires Step(K, oracle, c, m).Some? && !c.exited
    ensures F.Pending(c, m).Some? && WellFormed(F.Pending(c, m).value)
    ensures Decode(Native, Started(c), Instruction(m, c.pc)) == F.Pending(c, m)
    ensures Perform(K, oracle, m, F.Pending(c, m).value).Some?
    ensures Step(K, oracle, c, m).value.cpu == Perform(K, oracle, m, F.Pending(c, m).value).value.cpu
    ensures Step(K, oracle, c, m).value.mem == Perform(K, oracle, m, F.Pending(c, m).value).value.mem
  {
    hide Decode, Perform, WellFormed, Instruction;
    DecodeWellFormed(Started(c), Instruction(m, c.pc));
  }

  /** One step: an exited VM is a fixpoint and proves nothing; otherwise the step is counted, and
      alignment and register 0 are kept. From an aligned pc the fetch never needs a second leaf. */
  lemma StepKeeps(K: Hash, oracle: Oracle, c: Cpu, m: Flat)
    requires Step(K, oracle, c, m).Some?
    ensures c.exited ==> Step(K, oracle, c, m).value == Outcome(c, m, [])
    ensures c.pc % 4 == 0 ==> !TwoSided(c.pc, 4)
    ensures !c.exited ==> var o := Step(K, oracle, c, m).value.cpu;
      && o.step == Wrap(c.step + 1)
      && (c.pc % 4 == 0 ==> o.pc % 4 == 0) && (c.registers[0] == 0 ==> o.registers[0] == 0)
      && o.loadReservation == Reserved(LinkAt(c, m), c.loadReservation)
  {
    hide Step, Perform, Decode, Instruction, WellFormed, LinkOf, F.Pending;
    if c.exited {
      OneStep.StaysExited(K, oracle, c, m);
    } else {
      PendingOf(K, oracle, c, m);
      DecodeKeeps(Started(c), Instruction(m, c.pc));
      PerformKeeps(K, oracle, m, F.Pending(c, m).value);
    }
    FourInLeaf(c.pc);
  }

  lemma FourInLeaf(pc: u64)
    ensures pc % 4 == 0 ==> !TwoSided(pc, 4)
  {
    assert pc % 32 % 4 == pc % 4;
  }

  // ----- whole runs -----

  /** How many of n steps execute an instruction. */
  ghost function Executed(K: Hash, oracle: Oracle, c: Cpu, m: Flat, n: nat): nat
    decreases n
  {
    if n == 0 then 0
    else
      match Step(K, oracle, c, m)
      case None => 0
      case Some(o) => (if c.exited then 0 else 1) + Executed(K, oracle, o.cpu, o.mem, n - 1)
  }

  /** Run invariants: after any number of steps the pc is aligned, register 0 is 0, and the step
      counter has counted exactly the instructions executed. */
  lemma {:induction false} RunKeeps(K: Hash, oracle: Oracle, c: Cpu, m: Flat, n: nat)
    requires OneStep.Run(K, oracle, c, m, n).Some? && c.pc % 4 == 0 && c.registers[0] == 0
    ensures var end := OneStep.Run(K, oracle, c, m, n).value.0;
      end.pc % 4 == 0 && end.registers[0] == 0 && end.step == Wrap(c.step + Executed(K, oracle, c, m, n))
    decreases n
  {
    hide *;
    if n == 0 {
      RunOfNone(K, oracle, c, m);
      CountOn(c.step, 0);
    } else {
      var o := RunUnfolds(K, oracle, c, m, n);
      ExecutedUnfolds(K, oracle, c, m, n, o);
      StepKeeps(K, oracle, c, m);
      RunKeeps(K, oracle, o.cpu, o.mem, n - 1);
      CountOn(c.step, Executed(K, oracle, o.cpu, o.mem, n - 1));
    }
  }

  lemma RunUnfolds(K: Hash, oracle: Oracle, c: Cpu, m: Flat, n: nat) returns (o: Outcome)
    requires n > 0 && OneStep.Run(K, oracle, c, m, n).Some?
    ensures Step(K, oracle, c, m) == Some(o)
    ensures OneStep.Run(K, oracle, o.cpu, o.mem, n - 1) == OneStep.Run(K, oracle, c, m, n)
  {
    hide Step;
    o := Step(K, oracle, c, m).value;
  }

  lemma ExecutedUnfolds(K: Hash, oracle: Oracle, c: Cpu, m: Flat, n: nat, o: Outcome)
    requires n > 0 && Step(K, oracle, c, m) == Some(o)
    ensures Executed(K, oracle, c, m, n) == (if c.exited then 0 else 1) + Executed(K, oracle, o.cpu, o.mem, n - 1)
  {
    hide Step;
  }

  lemma CountOn(step: u64, k: nat)
    ensures Wrap(Wrap(step + 1) + k) == Wrap(step + (1 + k)) && Wrap(step + 0) == step
  {
    if step + 1 == TWO64 {
      ModAddMul(k, 1, TWO64);
    }
  }

  lemma RunOfNone(K: Hash, oracle: Oracle, c: Cpu, m: Flat)
    ensures OneStep.Run(K, oracle, c, m, 0) == Some((c, m)) && Executed(K, oracle, c, m, 0) == 0
  {
  }

  /** An exited VM stays as it is. */
  lemma {:induction false} RunExited(K: Hash, oracle: Oracle, c: Cpu, m: Flat, n: nat)
    requires c.exited
    ensures OneStep.Run(K, oracle, c, m, n) == Some((c, m))
    decreases n
  {
    if n > 0 {
      OneStep.StaysExited(K, oracle, c, m);
      hide Step;
      RunExited(K, oracle, c, m, n - 1);
    }
  }

  /** The address of the latest LR, if no SC came after it. */
  ghost function Latest(K: Hash, oracle: Oracle, c: Cpu, m: Flat, n: nat, before: Option<u64>): Option<u64>
    decreases n
  {
    if n == 0 then before
    else
      match Step(K, oracle, c, m)
      case None => before
      case Some(o) => Latest(K, oracle, o.cpu, o.mem, n - 1, Later(LinkAt(c, m), before))
  }

  function ReservationOf(latest: Option<u64>): u64 {
    if latest.Some? then latest.value else 0
  }

  function Later(link: Link, before: Option<u64>): Option<u64> {
    match link
    case LoadReserved(addr) => Some(addr)
    case StoreConditional(_) => None
    case NoLink => before
  }

  lemma LatestUnfolds(K: Hash, oracle: Oracle, c: Cpu, m: Flat, n: nat, before: Option<u64>, o: Outcome)
    requires n > 0 && Step(K, oracle, c, m) == Some(o)
    ensures Latest(K, oracle, c, m, n, before) == Latest(K, oracle, o.cpu, o.mem, n - 1, Later(LinkAt(c, m), before))
  {
    hide Step, LinkAt;
  }

  lemma LatestOfNone(K: Hash, oracle: Oracle, c: Cpu, m: Flat, before: Option<u64>)
    ensures Latest(K, oracle, c, m, 0, before) == before
  {
  }

  lemma LaterReserved(link: Link, before: Option<u64>)
    ensures Reserved(link, ReservationOf(before)) == ReservationOf(Later(link, before))
    ensures ReservationOf(None) == 0
  {
  }

  lemma {:induction false} ReservationIs(K: Hash, oracle: Oracle, c: Cpu, m: Flat, n: nat, before: Option<u64>)
    requires OneStep.Run(K, oracle, c, m, n).Some? && c.loadReservation == ReservationOf(before)
    ensures OneStep.Run(K, oracle, c, m, n).value.0.loadReservation == ReservationOf(Latest(K, oracle, c, m, n, before))
    decreases n
  {
    hide *;
    if n == 0 {
      RunOfNone(K, oracle, c, m);
      LatestOfNone(K, oracle, c, m, before);
    } else {
      var o := RunUnfolds(K, oracle, c, m, n);
      StepKeeps(K, oracle, c, m);
      LatestUnfolds(K, oracle, c, m, n, before, o);
      LaterReserved(LinkAt(c, m), before);
      ExitedLink(K, oracle, c, m);
      ReservationIs(K, oracle, o.cpu, o.mem, n - 1, Later(LinkAt(c, m), before));
    }
  }

  lemma ExitedLink(K: Hash, oracle: Oracle, c: Cpu, m: Flat)
    ensures c.exited ==> LinkAt(c, m) == NoLink && forall r :: Reserved(LinkAt(c, m), r) == r
  {
    hide LinkOf;
  }

  /** Load-reserved and store-conditional, in a run that starts without a reservation. An SC should
      store exactly if the latest LR or SC before it was an LR to its address. It does so if and only
      if its address is not 0 or an LR is what came last: a reservation for address 0 is no
      different from none. */
  lemma StoreConditionalMeets(K: Hash, oracle: Oracle, c: Cpu, m: Flat, n: nat)
    requires OneStep.Run(K, oracle, c, m, n).Some? && c.loadReservation == 0
    ensures var (c', m') := OneStep.Run(K, oracle, c, m, n).value; var link := LinkAt(c', m');
      var latest := Latest(K, oracle, c, m, n, None);
      link.StoreConditional? && F.Pending(c', m').Some? ==>
        ((F.Pending(c', m').value.StoreAt? <==> latest == Some(link.addr)) <==> link.addr != 0 || latest.Some?)
  {
    hide Step, LinkOf, Decode, OneStep.Run, Latest;
    ReservationIs(K, oracle, c, m, n, None);
    var (c', m') := OneStep.Run(K, oracle, c, m, n).value;
    ConditionalStore(Started(c'), Instruction(m', c'.pc));
  }

  /** To a nonzero address an SC stores exactly if it should. */
  lemma StoresIfReserved(K: Hash, oracle: Oracle, c: Cpu, m: Flat, n: nat)
    requires OneStep.Run(K, oracle, c, m, n).Some? && c.loadReservation == 0
    ensures var (c', m') := OneStep.Run(K, oracle, c, m, n).value; var link := LinkAt(c', m');
      link.StoreConditional? && link.addr != 0 && F.Pending(c', m').Some? ==>
        (F.Pending(c', m').value.StoreAt? <==> Latest(K, oracle, c, m, n, None) == Some(link.addr))
  {
    hide *;
    StoreConditionalMeets(K, oracle, c, m, n);
  }

  /** The failing case: to address 0 an SC stores although no LR came before it, or none since the last SC. */
  lemma ZeroNeedsNoReservation(K: Hash, oracle: Oracle, c: Cpu, m: Flat, n: nat)
    requires OneStep.Run(K, oracle, c, m, n).Some? && c.loadReservation == 0 && Latest(K, oracle, c, m, n, None).None?
    ensures var (c', m') := OneStep.Run(K, oracle, c, m, n).value;
      LinkAt(c', m') == StoreConditional(0) && F.Pending(c', m').Some? ==> F.Pending(c', m').value.StoreAt?
  {
    hide *;
    StoreConditionalMeets(K, oracle, c, m, n);
  }

  // ----- the preimage key -----

  function Last32(s: seq<byte>): Bytes32
    requires |s| >= 32
  {
    s[|s| - 32..]
  }

  /** The bytes that the key writes among n steps accept. */
  ghost function Accepted(K: Hash, oracle: Oracle, c: Cpu, m: Flat, n: nat): seq<byte>
    decreases n
  {
    if n == 0 then []
    else
      match Step(K, oracle, c, m)
      case None => []
      case Some(o) => AcceptedAt(c, m) + Accepted(K, oracle, o.cpu, o.mem, n - 1)
  }

  ghost function AcceptedAt(c: Cpu, m: Flat): (s: seq<byte>)
    ensures |s| <= 32
  {
    var a := F.Pending(c, m);
    if a.Some? && a.value.KeyWrite? then ReadBytes(m, a.value.addr, ClampToLeaf(Native, a.value.addr, a.value.count)) else []
  }

  lemma StepKey(K: Hash, oracle: Oracle, c: Cpu, m: Flat)
    requires Step(K, oracle, c, m).Some?
    ensures var data := AcceptedAt(c, m); Step(K, oracle, c, m).value.cpu.preimageKey == c.preimageKey[|data|..] + data
  {
    if c.exited {
      OneStep.StaysExited(K, oracle, c, m);
    } else {
      hide Step, Decode, Instruction, WellFormed, F.Pending, ReadBytes, ClampToLeaf;
      PendingOf(K, oracle, c, m);
      DecodeKeeps(Started(c), Instruction(m, c.pc));
      PerformKeeps(K, oracle, m, F.Pending(c, m).value);
      if F.Pending(c, m).value.KeyWrite? {
        KeyPerformed(K, oracle, m, F.Pending(c, m).value);
      }
    }
  }

  lemma KeyPerformed(K: Hash, oracle: Oracle, m: Flat, a: Action)
    requires a.KeyWrite?
    ensures var data := ReadBytes(m, a.addr, ClampToLeaf(Native, a.addr, a.count));
      && Perform(K, oracle, m, a).Some?
      && Perform(K, oracle, m, a).value.cpu.preimageKey == a.next.preimageKey[|data|..] + data
      && Perform(K, oracle, m, a).value.cpu.preimageOffset == 0
  {
    hide ReadBytes, ClampToLeaf;
  }

  lemma ShiftTwice(k: Bytes32, a: seq<byte>, b: seq<byte>)
    requires |a| <= 32
    ensures Last32(Last32(k + a) + b) == Last32(k + (a + b)) && Last32(k + a) == k[|a|..] + a && Last32(k + []) == k
  {
  }

  /** The key is a shift register: after any run it is the last 32 bytes of the first key and of all
      that was accepted since, however the writes were cut and aligned. */
  lemma {:induction false} KeyShifts(K: Hash, oracle: Oracle, c: Cpu, m: Flat, n: nat)
    requires OneStep.Run(K, oracle, c, m, n).Some?
    ensures OneStep.Run(K, oracle, c, m, n).value.0.preimageKey == Last32(c.preimageKey + Accepted(K, oracle, c, m, n))
    decreases n
  {
    hide *;
    if n == 0 {
      RunOfNone(K, oracle, c, m);
      AcceptedOfNone(K, oracle, c, m);
      ShiftTwice(c.preimageKey, [], []);
    } else {
      var o := RunUnfolds(K, oracle, c, m, n);
      AcceptedUnfolds(K, oracle, c, m, n, o);
      StepKey(K, oracle, c, m);
      KeyShifts(K, oracle, o.cpu, o.mem, n - 1);
      ShiftTwice(c.preimageKey, AcceptedAt(c, m), Accepted(K, oracle, o.cpu, o.mem, n - 1));
    }
  }

  lemma AcceptedOfNone(K: Hash, oracle: Oracle, c: Cpu, m: Flat)
    ensures Accepted(K, oracle, c, m, 0) == []
  {
  }

  lemma AcceptedUnfolds(K: Hash, oracle: Oracle, c: Cpu, m: Flat, n: nat, o: Outcome)
    requires n > 0 && Step(K, oracle, c, m) == Some(o)
    ensures Accepted(K, oracle, c, m, n) == AcceptedAt(c, m) + Accepted(K, oracle, o.cpu, o.mem, n - 1)
  {
    hide Step, AcceptedAt;
  }

  // ----- the preimage stream -----

  /** What one PreimageRead finds at its place in the prefixed preimage. */
  lemma ChunkIsSlice(pre: seq<byte>, offset: nat, addr: u64, count: u64)
    requires offset < |pre|
    ensures F.PartAt(pre, offset).Some? && F.PartAt(pre, offset).value.len > 0
    ensures var part := F.PartAt(pre, offset).value; var n := ReadCount(Native, addr, count, part.len);
      offset + n <= |pre| && part.dat[..n] == pre[offset..offset + n]
  {
    hide Zeros;
    var k := if |pre| - offset < 32 then |pre| - offset else 32;
    var part := F.PartAt(pre, offset).value;
    assert part.dat[..k] == pre[offset..offset + k];
    var n := ReadCount(Native, addr, count, part.len);
    assert part.dat[..n] == part.dat[..k][..n];
  }

  /** What the program finds in its buffer after a preimage read. */
  ghost function GotAt(K: Hash, preimages: Bytes32 -> seq<byte>, c: Cpu, m: Flat): seq<byte>
    requires Step(K, F.PartOf(preimages), c, m).Some?
  {
    var a := F.Pending(c, m);
    if a.Some? && a.value.PreimageRead? then
      var o := Step(K, F.PartOf(preimages), c, m).value;
      ReadBytes(o.mem, a.value.addr, o.cpu.registers[10])
    else []
  }

  ghost function Got(K: Hash, preimages: Bytes32 -> seq<byte>, c: Cpu, m: Flat, n: nat): seq<byte>
    decreases n
  {
    if n == 0 then []
    else
      match Step(K, F.PartOf(preimages), c, m)
      case None => []
      case Some(o) => GotAt(K, preimages, c, m) + Got(K, preimages, o.cpu, o.mem, n - 1)
  }

  ghost predicate NoKeyWrite(K: Hash, oracle: Oracle, c: Cpu, m: Flat, n: nat)
    decreases n
  {
    n > 0 ==>
      match Step(K, oracle, c, m)
      case None => true
      case Some(o) =>
        var a := F.Pending(c, m);
        !(a.Some? && a.value.KeyWrite?) && NoKeyWrite(K, oracle, o.cpu, o.mem, n - 1)
  }

  lemma ReadPerformed(K: Hash, preimages: Bytes32 -> seq<byte>, m: Flat, a: Action)
    requires a.PreimageRead? && Perform(K, F.PartOf(preimages), m, a).Some?
    ensures var pre := F.Prefixed(preimages(a.next.preimageKey)); var off := a.next.preimageOffset;
      var o := Perform(K, F.PartOf(preimages), m, a).value; var n := o.cpu.registers[10];
      && off + n <= |pre| && n <= 32 && o.mem == WriteBytes(m, a.addr, pre[off..off + n])
      && o.cpu.preimageOffset == Wrap(off + n) && o.cpu.preimageKey == a.next.preimageKey
  {
    hide F.Prefixed, WriteBytes, ReadCount, F.PartAt;
    var pre := F.Prefixed(preimages(a.next.preimageKey));
    PartOutside(pre, a.next.preimageOffset);
    ChunkIsSlice(pre, a.next.preimageOffset, a.addr, a.count);
  }

  lemma PartOutside(pre: seq<byte>, offset: nat)
    ensures F.PartAt(pre, offset).Some? <==> offset < |pre|
  {
  }

  lemma StreamStep(K: Hash, preimages: Bytes32 -> seq<byte>, c: Cpu, m: Flat)
    requires Step(K, F.PartOf(preimages), c, m).Some?
    requires F.Pending(c, m).Some? ==> !F.Pending(c, m).value.KeyWrite?
    requires |F.Prefixed(preimages(c.preimageKey))| < TWO64 && c.preimageOffset <= |F.Prefixed(preimages(c.preimageKey))|
    ensures var pre := F.Prefixed(preimages(c.preimageKey)); var o := Step(K, F.PartOf(preimages), c, m).value;
      var got := GotAt(K, preimages, c, m); var off := c.preimageOffset;
      && o.cpu.preimageKey == c.preimageKey && o.cpu.preimageOffset == off + |got| <= |pre|
      && got == pre[off..off + |got|]
      && (F.Pending(c, m).Some? && F.Pending(c, m).value.PreimageRead? ==>
            o.mem == WriteBytes(m, F.Pending(c, m).value.addr, got) && o.cpu.registers[10] == |got|)
  {
    hide *;
    if c.exited {
      OneStep.StaysExited(K, F.PartOf(preimages), c, m);
      ExitedPends(c, m);
      GotNothing(K, preimages, c, m);
    } else {
      PendingOf(K, F.PartOf(preimages), c, m);
      DecodeKeeps(Started(c), Instruction(m, c.pc));
      KeptPreimage(c, F.Pending(c, m).value.next);
      PerformKeeps(K, F.PartOf(preimages), m, F.Pending(c, m).value);
      GotNothing(K, preimages, c, m);
      if F.Pending(c, m).value.PreimageRead? {
        StreamRead(K, preimages, c, m);
      }
    }
  }

  lemma KeptPreimage(c: Cpu, next: Cpu)
    requires Kept(Started(c), next)
    ensures next.preimageKey == c.preimageKey && next.preimageOffset == c.preimageOffset
  {
  }

  lemma GotNothing(K: Hash, preimages: Bytes32 -> seq<byte>, c: Cpu, m: Flat)
    requires Step(K, F.PartOf(preimages), c, m).Some?
    ensures !(F.Pending(c, m).Some? && F.Pending(c, m).value.PreimageRead?) ==> GotAt(K, preimages, c, m) == []
  {
    hide Step, F.Pending, ReadBytes;
  }

  lemma StreamRead(K: Hash, preimages: Bytes32 -> seq<byte>, c: Cpu, m: Flat)
    requires Step(K, F.PartOf(preimages), c, m).Some? && F.Pending(c, m).Some?
    requires var a := F.Pending(c, m).value;
      && a.PreimageRead? && a.next.preimageKey == c.preimageKey && a.next.preimageOffset == c.preimageOffset
      && Perform(K, F.PartOf(preimages), m, a).Some?
      && Step(K, F.PartOf(preimages), c, m).value.cpu == Perform(K, F.PartOf(preimages), m, a).value.cpu
      && Step(K, F.PartOf(preimages), c, m).value.mem == Perform(K, F.PartOf(preimages), m, a).value.mem
    requires |F.Prefixed(preimages(c.preimageKey))| < TWO64
    ensures var pre := F.Prefixed(preimages(c.preimageKey)); var o := Step(K, F.PartOf(preimages), c, m).value;
      var got := GotAt(K, preimages, c, m); var off := c.preimageOffset;
      && o.cpu.preimageKey == c.preimageKey && o.cpu.preimageOffset == off + |got| <= |pre| && got == pre[off..off + |got|]
      && o.mem == WriteBytes(m, F.Pending(c, m).value.addr, got) && o.cpu.registers[10] == |got|
  {
    hide Step, Perform, F.Pending, ReadBytes, WriteBytes, F.Prefixed;
    var a, pre, off := F.Pending(c, m).value, F.Prefixed(preimages(c.preimageKey)), c.preimageOffset;
    ReadPerformed(K, preimages, m, a);
    var n := Step(K, F.PartOf(preimages), c, m).value.cpu.registers[10];
    ReadWrite(m, a.addr, pre[off..off + n]);
  }

  lemma ExitedPends(c: Cpu, m: Flat)
    ensures c.exited ==> F.Pending(c, m) == None
  {
  }

  /** The preimage stream: in a run without key writes, whatever else the program does, and however
      its buffers are aligned and sized, what its preimage reads deliver is one consecutive piece of
      the length-prefixed preimage, from the first offset to the last. */
  lemma {:induction false} StreamIsConsecutive(K: Hash, preimages: Bytes32 -> seq<byte>, c: Cpu, m: Flat, n: nat)
    requires OneStep.Run(K, F.PartOf(preimages), c, m, n).Some? && NoKeyWrite(K, F.PartOf(preimages), c, m, n)
    requires |F.Prefixed(preimages(c.preimageKey))| < TWO64 && c.preimageOffset <= |F.Prefixed(preimages(c.preimageKey))|
    ensures var end := OneStep.Run(K, F.PartOf(preimages), c, m, n).value.0;
      && end.preimageKey == c.preimageKey
      && c.preimageOffset <= end.preimageOffset <= |F.Prefixed(preimages(c.preimageKey))|
      && Got(K, preimages, c, m, n) == F.Prefixed(preimages(c.preimageKey))[c.preimageOffset..end.preimageOffset]
    decreases n
  {
    hide *;
    if n == 0 {
      RunOfNone(K, F.PartOf(preimages), c, m);
      GotOfNone(K, preimages, c, m);
    } else {
      var o := RunUnfolds(K, F.PartOf(preimages), c, m, n);
      StreamUnfolds(K, preimages, c, m, n, o);
      StreamStep(K, preimages, c, m);
      StreamIsConsecutive(K, preimages, o.cpu, o.mem, n - 1);
    }
  }

  lemma GotOfNone(K: Hash, preimages: Bytes32 -> seq<byte>, c: Cpu, m: Flat)
    ensures Got(K, preimages, c, m, 0) == []
  {
  }

  lemma StreamUnfolds(K: Hash, preimages: Bytes32 -> seq<byte>, c: Cpu, m: Flat, n: nat, o: Outcome)
    requires n > 0 && Step(K, F.PartOf(preimages), c, m) == Some(o)
    requires NoKeyWrite(K, F.PartOf(preimages), c, m, n)
    ensures F.Pending(c, m).Some? ==> !F.Pending(c, m).value.KeyWrite?
    ensures NoKeyWrite(K, F.PartOf(preimages), o.cpu, o.mem, n - 1)
    ensures Got(K, preimages, c, m, n) == GotAt(K, preimages, c, m) + Got(K, preimages, o.cpu, o.mem, n - 1)
  {
    hide Step, GotAt, F.Pending;
  }
}
