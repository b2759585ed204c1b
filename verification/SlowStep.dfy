/** The slow step as a function of the state, the proof bytes and the preimage oracle
    (rvgo/slow/vm.go). Memory is known by its root only; what is read of it comes from the
    calldata and must fold to that root. None is a revert. */
module SlowStep {
  import opened Words
  import opened Bytes
  import opened FlatMemory
  import opened Yul64
  import opened Cpu
  import opened WordBytes
  import opened Reference
  import D = DecodeAgrees

  // ----- Merkle branches in calldata -----

  /** calldataload from the start of the proofs on: zeros follow the end of the calldata,
      but an offset beyond the end fails. */
  function CalldataLoad(proof: seq<byte>, offset: nat): Option<Bytes32> {
    if offset > |proof| then None else Some(PaddedWord(proof, offset))
  }

  function PaddedWord(proof: seq<byte>, offset: nat): Bytes32
    requires offset <= |proof|
  {
    if offset + 32 <= |proof| then proof[offset..offset + 32]
    else proof[offset..] + Zeros(offset + 32 - |proof|)
  }

  function ProofOffset(idx: nat): nat {
    idx * 60 * 32
  }

  /** All 60 words of branch idx can be loaded. */
  predicate HasBranch(proof: seq<byte>, idx: nat) {
    ProofOffset(idx) + 59 * 32 <= |proof|
  }

  function BranchWord(proof: seq<byte>, idx: nat, j: nat): Bytes32
    requires HasBranch(proof, idx) && j < 60
  {
    PaddedWord(proof, ProofOffset(idx) + 32 * j)
  }

  function Siblings59(proof: seq<byte>, idx: nat): (s: seq<Bytes32>)
    requires HasBranch(proof, idx)
    ensures |s| == 59
  {
    seq(59, j requires 0 <= j < 59 => BranchWord(proof, idx, j + 1))
  }

  /** getMemoryB32: the leaf of branch idx, if the branch folds to the root. */
  function GetMemoryB32(K: Hash, root: Bytes32, proof: seq<byte>, addr: u64, idx: nat): Option<Bytes32> {
    if addr % 32 != 0 || !HasBranch(proof, idx) then None
    else
      var leaf := BranchWord(proof, idx, 0);
      if Fold(K, leaf, addr / 32, Siblings59(proof, idx)) == root then Some(leaf) else None
  }

  /** setMemoryB32: the root with another leaf at the same place; the branch is not verified again. */
  function SetMemoryB32(K: Hash, proof: seq<byte>, addr: u64, v: Bytes32, idx: nat): Option<Bytes32> {
    if addr % 32 != 0 || !HasBranch(proof, idx) then None
    else Some(Fold(K, v, addr / 32, Siblings59(proof, idx)))
  }

  /** The strings that verifying branch idx hashes. */
  function BranchInputs(K: Hash, proof: seq<byte>, addr: u64, idx: nat): set<seq<byte>> {
    if HasBranch(proof, idx) then FoldInputs(K, BranchWord(proof, idx, 0), addr / 32, Siblings59(proof, idx)) else {}
  }

  function SideInputs(K: Hash, proof: seq<byte>, addr: u64, size: nat, idxL: nat, idxR: nat): set<seq<byte>> {
    BranchInputs(K, proof, addr - addr % 32, idxL)
    + if TwoSided(addr, size) then BranchInputs(K, proof, RightLeaf(addr), idxR) else {}
  }

  // ----- loads and stores -----

  function LoadMem(K: Hash, root: Bytes32, proof: seq<byte>, addr: u64, size: nat, signed: bool,
                   idxL: nat, idxR: nat): Option<u64>
    requires 1 <= size <= 8
  {
    var a := addr % 32;
    match GetMemoryB32(K, root, proof, addr - a, idxL)
    case None => None
    case Some(left) =>
      if !TwoSided(addr, size) then Some(LoadValue(left[a..a + size], signed))
      else if idxR == 0xff then None // no second branch is allowed for
      else
        match GetMemoryB32(K, root, proof, RightLeaf(addr), idxR)
        case None => None
        case Some(right) => Some(LoadValue((left + right)[a..a + size], signed))
  }

  /** Reads a leaf, replaces some of its bytes, and folds it back in. */
  function PatchLeaf(K: Hash, root: Bytes32, proof: seq<byte>, addr: u64, at: nat, data: seq<byte>, idx: nat): Option<Bytes32>
    requires at + |data| <= 32
  {
    match GetMemoryB32(K, root, proof, addr, idx)
    case None => None
    case Some(leaf) => SetMemoryB32(K, proof, addr, Patched(leaf, at, data), idx)
  }

  /** storeMemUnaligned: the right half is verified against the root after the left half. */
  function StoreMem(K: Hash, root: Bytes32, proof: seq<byte>, addr: u64, data: seq<byte>, idxL: nat, idxR: nat): Option<Bytes32>
    requires |data| <= 32
  {
    var a := addr % 32;
    if !TwoSided(addr, |data|) then PatchLeaf(K, root, proof, addr - a, a, data, idxL)
    else
      match PatchLeaf(K, root, proof, addr - a, a, data[..32 - a], idxL)
      case None => None
      case Some(root1) =>
        if idxR == 0xff then None else PatchLeaf(K, root1, proof, RightLeaf(addr), 0, data[32 - a..], idxR)
  }

  // ----- the step -----

  /** The strings in hashed are those hashed while verifying branches. */
  datatype SlowOutcome = SlowOutcome(cpu: Cpu, root: Bytes32, hashed: set<seq<byte>>)

  /** The second branch of the store would stand under index 3; it is never needed. */
  function PerformAtomic(K: Hash, proof: seq<byte>, root: Bytes32, op: u64, rd: nat, addr: u64, size: nat, operand: u64,
                         next: Cpu): Option<SlowOutcome>
    requires KnownAtomic(op) && rd < 32 && 1 <= size <= 8
  {
    match LoadMem(K, root, proof, addr, size, true, 1, 2)
    case None => None
    case Some(v) =>
      match StoreMem(K, root, proof, addr, ToLE(AtomicValue(Wide, op, v, operand), size), 1, 3)
      case None => None
      case Some(root') => Some(SlowOutcome(SetRegister(next, rd, v), root', SideInputs(K, proof, addr, size, 1, 2)))
  }

  function PerformKeyWrite(K: Hash, proof: seq<byte>, root: Bytes32, addr: u64, count: u64, next: Cpu): Option<SlowOutcome> {
    var at := Alignment(Wide, addr);
    var n := ClampToLeaf(Wide, addr, count);
    match GetMemoryB32(K, root, proof, addr - at, 1)
    case None => None
    case Some(leaf) =>
      var key := AppendToKey(Wide, next.preimageKey, leaf, at, n);
      Some(SlowOutcome(SetRegister(next.(preimageKey := key, preimageOffset := 0), 10, n), root,
                       BranchInputs(K, proof, addr - at, 1)))
  }

  function PerformPreimageRead(K: Hash, proof: seq<byte>, root: Bytes32, addr: u64, count: u64, next: Cpu, c: Chunk): Option<SlowOutcome> {
    var at := Alignment(Wide, addr);
    var n := ReadCount(Wide, addr, count, c.len);
    match GetMemoryB32(K, root, proof, addr - at, 1)
    case None => None
    case Some(leaf) =>
      match SetMemoryB32(K, proof, addr - at, MergePreimage(Wide, leaf, c.dat, at, n), 1)
      case None => None
      case Some(root') =>
        Some(SlowOutcome(SetRegister(next.(preimageOffset := Add64(Wide, next.preimageOffset, n)), 10, n), root',
                         BranchInputs(K, proof, addr - at, 1)))
  }

  function Perform(K: Hash, oracle: Oracle, proof: seq<byte>, root: Bytes32, a: Action): Option<SlowOutcome>
    requires WellFormed(a)
  {
    match a
    case Done(next) => Some(SlowOutcome(next, root, {}))
    case Output(_, _, _, next) => Some(SlowOutcome(next, root, {}))
    case LoadTo(rd, addr, size, signed, next) =>
      (match LoadMem(K, root, proof, addr, size, signed, 1, 2)
       case None => None
       case Some(v) => Some(SlowOutcome(SetRegister(next, rd, v), root, SideInputs(K, proof, addr, size, 1, 2))))
    case StoreAt(addr, size, value, next) =>
      (match StoreMem(K, root, proof, addr, ToLE(value, size), 1, 2)
       case None => None
       case Some(root') => Some(SlowOutcome(next, root', SideInputs(K, proof, addr, size, 1, 2))))
    case AtomicAt(op, rd, addr, size, operand, next) => PerformAtomic(K, proof, root, op, rd, addr, size, operand, next)
    case KeyWrite(addr, count, next) => PerformKeyWrite(K, proof, root, addr, count, next)
    case PreimageRead(addr, count, next) =>
      match oracle(next.preimageKey, next.preimageOffset)
      case None => None
      case Some(c) =>
        if c.len == 0 then Some(SlowOutcome(SetRegister(next, 10, 0), root, {})) // end of the preimage
        else PerformPreimageRead(K, proof, root, addr, count, next, c)
  }

  function Step(K: Hash, oracle: Oracle, proof: seq<byte>, c: Cpu, root: Bytes32): Option<SlowOutcome> {
    if c.exited then Some(SlowOutcome(c, root, {}))
    else
      var started := c.(step := Add64(Wide, c.step, 1));
      match LoadMem(K, root, proof, c.pc, 4, false, 0, 0xff)
      case None => None
      case Some(instr) =>
        match Decode(Wide, started, instr)
        case None => None
        case Some(a) =>
          SwitchWellFormed(started, instr);
          match Perform(K, oracle, proof, root, a)
          case None => None
          case Some(o) => Some(o.(hashed := BranchInputs(K, proof, c.pc - c.pc % 32, 0) + o.hashed))
  }

  lemma SwitchWellFormed(c: Cpu, instr: u64)
    ensures Decode(Wide, c, instr).Some? ==> WellFormed(Decode(Wide, c, instr).value)
  {
    D.DecodeAgrees(c, instr);
    DecodeWellFormed(c, instr);
  }
}
