/** One VM step over the reference memory: what both implementations must do. It also says
    which Merkle branches the step needs, in the order in which it needs them. */
module Reference {
  import opened Words
  import opened Bytes
  import opened FlatMemory
  import opened Yul64
  import opened Cpu
  import opened WordBytes
  import Evm

  /** What the preimage oracle answers: up to 32 bytes, left-aligned. */
  datatype Chunk = Chunk(dat: Bytes32, len: byte)

  type Oracle = (Bytes32, u64) -> Option<Chunk>

  datatype Outcome = Outcome(cpu: Cpu, mem: Flat, proofs: seq<seq<Bytes32>>)

  // ----- loads and stores -----

  /** Whether an access goes on in the next leaf. */
  predicate TwoSided(addr: u64, size: nat) {
    addr % 32 + size > 32
  }

  function RightLeaf(addr: u64): u64 {
    AddrAdd(addr - addr % 32, 32)
  }

  lemma RightIsElsewhere(addr: u64)
    ensures RightLeaf(addr) / 32 != addr / 32 && RightLeaf(addr) != addr - addr % 32
    ensures RightLeaf(addr) % 32 == 0
  {
  }

  lemma TwoSidedIs(addr: u64, size: nat)
    ensures TwoSided(addr, size) <==> addr % 32 + size > 32
  {
  }

  lemma SumIs(w: Arith, x: u64, y: u64)
    ensures Add64(w, x, y) == AddrAdd(x, y) && Sub64(w, x, y) == AddrSub(x, y)
  {
  }

  /** Where byte k of an access lies. */
  lemma NextByte(addr: u64, k: nat)
    requires addr % 32 + k < 64
    ensures addr % 32 + k < 32 ==> AddrAdd(addr, k) / 32 == addr / 32 && AddrAdd(addr, k) % 32 == addr % 32 + k
    ensures addr % 32 + k >= 32 ==>
      AddrAdd(addr, k) / 32 == RightLeaf(addr) / 32 && AddrAdd(addr, k) % 32 == addr % 32 + k - 32
  {
  }

  lemma Aligned(addr: u64)
    ensures (addr - addr % 32) % 32 == 0 && (addr - addr % 32) / 32 == addr / 32
    ensures RightLeaf(addr) % 32 == 0
  {
  }

  lemma LeafTimes(x: int)
    ensures x - x % 32 == 32 * (x / 32)
  {
  }

  /** The leaf of the last byte of an access, as both VMs compute it. */
  lemma LastLeaf(w: Arith, addr: u64, size: nat)
    requires 1 <= size <= 32
    ensures LeafStart(w, Add64(w, addr, Sub64(w, size, 1))) == if TwoSided(addr, size) then RightLeaf(addr) else addr - addr % 32
    ensures RightLeaf(addr) != addr - addr % 32
  {
    hide *;
    OneLess(size);
    SumIs(w, size, 1);
    SumIs(w, addr, size - 1);
    NextByte(addr, size - 1);
    RightIsElsewhere(addr);
    TwoSidedIs(addr, size);
    LeafTimes(AddrAdd(addr, size - 1));
    LeafTimes(addr);
    LeafTimes(RightLeaf(addr));
  }

  lemma OneLess(size: nat)
    requires 1 <= size <= 32
    ensures size < TWO64 && AddrSub(size, 1) == size - 1
  {
  }

  /** A little-endian integer, sign-extended to 64 bits on demand. */
  function LoadValue(s: seq<byte>, signed: bool): u64
    requires 1 <= |s| <= 8
  {
    var v := FromLE(s);
    Wrap(if signed && v >= Pow2(8 * |s| - 1) then v - Pow2(8 * |s|) else v)
  }

  ghost function Reads(K: Hash, m: Flat, addr: u64, size: nat): seq<seq<Bytes32>> {
    [ProofOf(K, m, addr / 32)] + if TwoSided(addr, size) then [ProofOf(K, m, RightLeaf(addr) / 32)] else []
  }

  /** The second branch of a store is one of the memory that the first half has changed. */
  ghost function Writes(K: Hash, m: Flat, addr: u64, data: seq<byte>): seq<seq<Bytes32>>
    requires |data| <= 32
  {
    [ProofOf(K, m, addr / 32)]
    + if TwoSided(addr, |data|) then [ProofOf(K, WriteBytes(m, addr, data[..32 - addr % 32]), RightLeaf(addr) / 32)] else []
  }

  // ----- actions -----

  predicate WellFormed(a: Action) {
    match a
    case LoadTo(rd, addr, size, signed, next) => rd < 32 && size in {1, 2, 4, 8}
    case StoreAt(addr, size, value, next) => 1 <= size <= 32
    case AtomicAt(op, rd, addr, size, operand, next) =>
      KnownAtomic(op) && rd < 32 && size in {4, 8} && !TwoSided(addr, size)
    case _ => true
  }

  ghost function Perform(K: Hash, oracle: Oracle, m: Flat, a: Action): Option<Outcome>
    requires WellFormed(a)
  {
    match a
    case Done(next) => Some(Outcome(next, m, []))
    case Output(_, _, _, next) => Some(Outcome(next, m, []))
    case LoadTo(rd, addr, size, signed, next) =>
      var v := LoadValue(ReadBytes(m, addr, size), signed);
      Some(Outcome(SetRegister(next, rd, v), m, Reads(K, m, addr, size)))
    case StoreAt(addr, size, value, next) =>
      var data := ToLE(value, size);
      Some(Outcome(next, WriteBytes(m, addr, data), Writes(K, m, addr, data)))
    case AtomicAt(op, rd, addr, size, operand, next) =>
      var v := LoadValue(ReadBytes(m, addr, size), true);
      var data := ToLE(AtomicValue(Native, op, v, operand), size);
      Some(Outcome(SetRegister(next, rd, v), WriteBytes(m, addr, data), Reads(K, m, addr, size)))
    case KeyWrite(addr, count, next) =>
      var n := ClampToLeaf(Native, addr, count);
      Some(Outcome(KeyWritten(next, ReadBytes(m, addr, n)), m, [ProofOf(K, m, addr / 32)]))
    case PreimageRead(addr, count, next) =>
      match oracle(next.preimageKey, next.preimageOffset)
      case None => None
      case Some(c) =>
        if c.len == 0 then Some(Outcome(SetRegister(next, 10, 0), m, [])) // end of the preimage
        else
          var n := ReadCount(Native, addr, count, c.len);
          Some(Outcome(PreimageTaken(next, n), WriteBytes(m, addr, c.dat[..n]), [ProofOf(K, m, addr / 32)]))
  }

  /** The preimage key keeps its last 32 bytes; the next read starts from offset 0. */
  function KeyShifted(c: Cpu, data: seq<byte>): Cpu
    requires |data| <= 32
  {
    c.(preimageKey := c.preimageKey[|data|..] + data, preimageOffset := 0)
  }

  function KeyWritten(c: Cpu, data: seq<byte>): Cpu
    requires |data| <= 32
  {
    SetRegister(KeyShifted(c, data), 10, |data|)
  }

  function PreimageTaken(c: Cpu, n: u64): Cpu {
    SetRegister(c.(preimageOffset := Wrap(c.preimageOffset + n)), 10, n)
  }

  /** A read stops at the end of the leaf and at the end of the data. */
  function ReadCount(w: Arith, addr: u64, count: u64, len: byte): (n: u64)
    ensures n <= 32 - addr % 32 && n <= count && n <= len
  {
    var clamped := ClampToLeaf(w, addr, count);
    if Gt64(w, clamped, len) != 0 then len else clamped
  }

  /** The step is counted before the instruction is fetched. */
  function Started(c: Cpu): Cpu {
    c.(step := Add64(Native, c.step, 1))
  }

  ghost function Instruction(m: Flat, pc: u64): u64 {
    LoadValue(ReadBytes(m, pc, 4), false)
  }

  ghost function Step(K: Hash, oracle: Oracle, c: Cpu, m: Flat): Option<Outcome> {
    if c.exited then Some(Outcome(c, m, []))
    else if TwoSided(c.pc, 4) then None
    else
      match Decode(Native, Started(c), Instruction(m, c.pc))
      case None => None
      case Some(a) =>
        DecodeWellFormed(Started(c), Instruction(m, c.pc));
        match Perform(K, oracle, m, a)
        case None => None
        case Some(o) => Some(o.(proofs := [ProofOf(K, m, c.pc / 32)] + o.proofs))
  }

  lemma SizeIs(code: u64)
    ensures code == 0 ==> AccessSize(Native, code) == 1
    ensures code == 1 ==> AccessSize(Native, code) == 2
    ensures code == 2 ==> AccessSize(Native, code) == 4
    ensures code == 3 ==> AccessSize(Native, code) == 8
    ensures 4 <= code < 64 ==> AccessSize(Native, code) > 8
  {
    hide Shl, Pow2;
    ShlZeroOne(code);
    SmallPowers();
    PowValues();
    if 4 <= code < 64 {
      PowMonotone(4, code);
      PowMonotone(code, 63);
    }
  }

  lemma SmallPowers()
    ensures Pow2(0) == 1 && Pow2(1) == 2 && Pow2(2) == 4 && Pow2(3) == 8 && Pow2(4) == 16
  {
  }

  lemma ThreeBits(x: u64)
    requires x < 8
    ensures And64(Native, x, 3) == x % 4
  {
    AndOnes(x, 2);
    ShrIsDiv(x, 2);
    assert Pow2(2) == 4;
  }

  lemma AlignedInLeaf(addr: u64, size: nat)
    requires (size == 4 || size == 8) && addr % size == 0
    ensures !TwoSided(addr, size)
  {
  }

  lemma LoadWellFormed(c: Cpu, instr: u64)
    ensures var a := DecodeLoad(Native, c, instr); a.Some? ==> WellFormed(a.value)
  {
    hide ParseFunct3, ParseRd, ParseRs1, ParseImmTypeI, AccessSize;
    var f := ParseFunct3(Native, instr);
    ThreeBits(f);
    SizeIs(And64(Native, f, 3));
  }

  lemma StoreWellFormed(c: Cpu, instr: u64)
    ensures var a := DecodeStore(Native, c, instr); a.Some? ==> WellFormed(a.value)
  {
    hide ParseFunct3, ParseRs1, ParseRs2, ParseImmTypeS, AccessSize;
    SizeIs(ParseFunct3(Native, instr));
  }

  lemma AtomicWellFormed(c: Cpu, instr: u64)
    ensures var a := DecodeAtomic(Native, c, instr); a.Some? ==> WellFormed(a.value)
  {
    hide ParseFunct3, ParseRd, ParseRs1, ParseRs2, ParseFunct7, AccessSize, KnownAtomic;
    var size := AccessSize(Native, ParseFunct3(Native, instr));
    var addr := GetRegister(c, ParseRs1(Native, instr));
    SizeIs(ParseFunct3(Native, instr));
    if (size == 4 || size == 8) && addr % size == 0 {
      AlignedInLeaf(addr, size);
    }
  }

  lemma SystemWellFormed(c: Cpu, instr: u64)
    ensures var a := DecodeSystem(Native, c, instr); a.Some? ==> WellFormed(a.value)
  {
    hide ParseFunct3, ParseRd, SysMmap, SysFcntl, Evm.Or, Evm.Shl;
  }

  /** The switch only asks for loads of 1, 2, 4 or 8 bytes, for stores of up to 16, and for
      atomic operations that stay within one leaf. */
  lemma DecodeWellFormed(c: Cpu, instr: u64)
    ensures Decode(Native, c, instr).Some? ==> WellFormed(Decode(Native, c, instr).value)
  {
    hide DecodeLoad, DecodeStore, DecodeAtomic, DecodeSystem, ParseOpcode, AluImm, AluImm32, AluReg, AluReg32;
    LoadWellFormed(c, instr);
    StoreWellFormed(c, instr);
    AtomicWellFormed(c, instr);
    SystemWellFormed(c, instr);
  }
}
