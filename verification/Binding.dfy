/** The slow step cannot be talked into another result: proofs that it accepts agree in
    everything it uses. Stated relative to the strings that were hashed, on which the hash
    must not collide. */
module Binding {
  import opened Words
  import opened Bytes
  import opened FlatMemory
  import opened Yul64
  import opened Cpu
  import opened WordBytes
  import opened Reference
  import opened SlowStep
  import Sim = Simulation
  import R = Reference
  import S = SlowStep

  lemma FewerStrings(K: Hash, fewer: set<seq<byte>>, strings: set<seq<byte>>)
    requires CollisionFree(K, strings) && fewer <= strings
    ensures CollisionFree(K, fewer)
  {
  }

  /** Accepted branches for one leaf under one root are the same branch. */
  lemma BranchesAgree(K: Hash, root: Bytes32, p1: seq<byte>, p2: seq<byte>, addr: u64, idx: nat, strings: set<seq<byte>>)
    requires CollisionFree(K, strings) && BranchInputs(K, p1, addr, idx) <= strings && BranchInputs(K, p2, addr, idx) <= strings
    requires GetMemoryB32(K, root, p1, addr, idx).Some? && GetMemoryB32(K, root, p2, addr, idx).Some?
    ensures GetMemoryB32(K, root, p1, addr, idx) == GetMemoryB32(K, root, p2, addr, idx)
    ensures forall v :: SetMemoryB32(K, p1, addr, v, idx) == SetMemoryB32(K, p2, addr, v, idx)
  {
    hide Fold, FoldInputs, CollisionFree, HasBranch, BranchWord, Siblings59;
    FoldInjective(K, BranchWord(p1, idx, 0), Siblings59(p1, idx), BranchWord(p2, idx, 0), Siblings59(p2, idx), addr / 32, strings);
  }

  lemma LoadsAgree(K: Hash, root: Bytes32, p1: seq<byte>, p2: seq<byte>, addr: u64, size: nat, signed: bool,
                   idxL: nat, idxR: nat, strings: set<seq<byte>>)
    requires 1 <= size <= 8 && CollisionFree(K, strings)
    requires SideInputs(K, p1, addr, size, idxL, idxR) <= strings && SideInputs(K, p2, addr, size, idxL, idxR) <= strings
    requires LoadMem(K, root, p1, addr, size, signed, idxL, idxR).Some? && LoadMem(K, root, p2, addr, size, signed, idxL, idxR).Some?
    ensures LoadMem(K, root, p1, addr, size, signed, idxL, idxR) == LoadMem(K, root, p2, addr, size, signed, idxL, idxR)
  {
    hide CollisionFree, BranchInputs, GetMemoryB32, LoadValue, RightLeaf;
    BranchesAgree(K, root, p1, p2, addr - addr % 32, idxL, strings);
    if TwoSided(addr, size) {
      BranchesAgree(K, root, p1, p2, RightLeaf(addr), idxR, strings);
    }
  }

  lemma PatchesAgree(K: Hash, root: Bytes32, p1: seq<byte>, p2: seq<byte>, addr: u64, at: nat, data: seq<byte>, idx: nat,
                     strings: set<seq<byte>>)
    requires at + |data| <= 32 && CollisionFree(K, strings)
    requires BranchInputs(K, p1, addr, idx) <= strings && BranchInputs(K, p2, addr, idx) <= strings
    requires PatchLeaf(K, root, p1, addr, at, data, idx).Some? && PatchLeaf(K, root, p2, addr, at, data, idx).Some?
    ensures PatchLeaf(K, root, p1, addr, at, data, idx) == PatchLeaf(K, root, p2, addr, at, data, idx)
  {
    hide CollisionFree, BranchInputs, GetMemoryB32, SetMemoryB32;
    BranchesAgree(K, root, p1, p2, addr, idx, strings);
  }

  lemma StoresAgree(K: Hash, root: Bytes32, p1: seq<byte>, p2: seq<byte>, addr: u64, data: seq<byte>,
                    idxL: nat, idxR: nat, strings: set<seq<byte>>)
    requires |data| <= 32 && CollisionFree(K, strings)
    requires SideInputs(K, p1, addr, |data|, idxL, idxR) <= strings && SideInputs(K, p2, addr, |data|, idxL, idxR) <= strings
    requires StoreMem(K, root, p1, addr, data, idxL, idxR).Some? && StoreMem(K, root, p2, addr, data, idxL, idxR).Some?
    ensures StoreMem(K, root, p1, addr, data, idxL, idxR) == StoreMem(K, root, p2, addr, data, idxL, idxR)
  {
    hide CollisionFree, BranchInputs, PatchLeaf, RightLeaf;
    var a := addr % 32;
    if TwoSided(addr, |data|) {
      PatchesAgree(K, root, p1, p2, addr - a, a, data[..32 - a], idxL, strings);
      var root1 := PatchLeaf(K, root, p1, addr - a, a, data[..32 - a], idxL).value;
      PatchesAgree(K, root1, p1, p2, RightLeaf(addr), 0, data[32 - a..], idxR, strings);
    } else {
      PatchesAgree(K, root, p1, p2, addr - a, a, data, idxL, strings);
    }
  }

  lemma PerformsAgree(K: Hash, oracle: Oracle, p1: seq<byte>, p2: seq<byte>, root: Bytes32, a: Action, strings: set<seq<byte>>)
    requires WellFormed(a) && CollisionFree(K, strings)
    requires var r := S.Perform(K, oracle, p1, root, a); r.Some? && r.value.hashed <= strings
    requires var r := S.Perform(K, oracle, p2, root, a); r.Some? && r.value.hashed <= strings
    ensures var r1, r2 := S.Perform(K, oracle, p1, root, a).value, S.Perform(K, oracle, p2, root, a).value;
      r1.cpu == r2.cpu && r1.root == r2.root
  {
    hide CollisionFree, BranchInputs, GetMemoryB32, SetMemoryB32, LoadMem, StoreMem, SideInputs, AtomicValue, ToLE;
    hide AppendToKey, MergePreimage, ClampToLeaf, Alignment;
    match a
    case Done(_) =>
    case Output(_, _, _, _) =>
    case LoadTo(rd, addr, size, signed, next) =>
      LoadsAgree(K, root, p1, p2, addr, size, signed, 1, 2, strings);
    case StoreAt(addr, size, value, next) =>
      StoresAgree(K, root, p1, p2, addr, ToLE(value, size), 1, 2, strings);
    case AtomicAt(op, rd, addr, size, operand, next) =>
      LoadsAgree(K, root, p1, p2, addr, size, true, 1, 2, strings);
      var v := LoadMem(K, root, p1, addr, size, true, 1, 2).value;
      OneSideInputs(K, p1, addr, size);
      OneSideInputs(K, p2, addr, size);
      StoresAgree(K, root, p1, p2, addr, ToLE(AtomicValue(Wide, op, v, operand), size), 1, 3, strings);
    case KeyWrite(addr, count, next) =>
      BranchesAgree(K, root, p1, p2, addr - addr % 32, 1, strings);
    case PreimageRead(addr, count, next) =>
      if oracle(next.preimageKey, next.preimageOffset).value.len != 0 {
        BranchesAgree(K, root, p1, p2, addr - addr % 32, 1, strings);
      }
  }

  lemma OneSideInputs(K: Hash, p: seq<byte>, addr: u64, size: nat)
    requires !TwoSided(addr, size)
    ensures SideInputs(K, p, addr, size, 1, 3) == SideInputs(K, p, addr, size, 1, 2)
  {
  }

  /** What a step that succeeds has done. */
  lemma StepParts(K: Hash, oracle: Oracle, c: Cpu, root: Bytes32, p: seq<byte>) returns (instr: u64)
    requires S.Step(K, oracle, p, c, root).Some? && !c.exited
    ensures !TwoSided(c.pc, 4) && LoadMem(K, root, p, c.pc, 4, false, 0, 0xff) == Some(instr)
    ensures Decode(Wide, WideStarted(c), instr).Some? && WellFormed(Decode(Wide, WideStarted(c), instr).value)
    ensures var r := S.Perform(K, oracle, p, root, Decode(Wide, WideStarted(c), instr).value);
      var o := S.Step(K, oracle, p, c, root).value;
      r.Some? && o.cpu == r.value.cpu && o.root == r.value.root && r.value.hashed <= o.hashed
    ensures SideInputs(K, p, c.pc, 4, 0, 0xff) <= S.Step(K, oracle, p, c, root).value.hashed
  {
    hide BranchInputs, LoadMem, S.Perform, Decode, WellFormed;
    FetchInputs(K, p, c.pc);
    FetchOneSided(K, root, p, c.pc);
    instr := LoadMem(K, root, p, c.pc, 4, false, 0, 0xff).value;
    SwitchWellFormed(WideStarted(c), instr);
  }

  function WideStarted(c: Cpu): Cpu {
    c.(step := Add64(Wide, c.step, 1))
  }

  /** Binding: two proofs that one slow step accepts, for any state and oracle, give one result. */
  lemma StepsAgree(K: Hash, oracle: Oracle, c: Cpu, root: Bytes32, p1: seq<byte>, p2: seq<byte>)
    requires S.Step(K, oracle, p1, c, root).Some? && S.Step(K, oracle, p2, c, root).Some?
    requires CollisionFree(K, S.Step(K, oracle, p1, c, root).value.hashed + S.Step(K, oracle, p2, c, root).value.hashed)
    ensures S.Step(K, oracle, p1, c, root).value.cpu == S.Step(K, oracle, p2, c, root).value.cpu
    ensures S.Step(K, oracle, p1, c, root).value.root == S.Step(K, oracle, p2, c, root).value.root
  {
    hide CollisionFree, BranchInputs, LoadMem, S.Perform, Decode, WellFormed, SideInputs;
    if !c.exited {
      var strings := S.Step(K, oracle, p1, c, root).value.hashed + S.Step(K, oracle, p2, c, root).value.hashed;
      var instr := StepParts(K, oracle, c, root, p1);
      var _ := StepParts(K, oracle, c, root, p2);
      LoadsAgree(K, root, p1, p2, c.pc, 4, false, 0, 0xff, strings);
      PerformsAgree(K, oracle, p1, p2, root, Decode(Wide, WideStarted(c), instr).value, strings);
    }
  }

  lemma FetchInputs(K: Hash, p: seq<byte>, pc: u64)
    ensures !TwoSided(pc, 4) ==> SideInputs(K, p, pc, 4, 0, 0xff) == BranchInputs(K, p, pc - pc % 32, 0)
  {
  }

  lemma FetchOneSided(K: Hash, root: Bytes32, p: seq<byte>, pc: u64)
    ensures LoadMem(K, root, p, pc, 4, false, 0, 0xff).Some? ==> !TwoSided(pc, 4)
  {
  }

  // ----- soundness against the memory behind the root -----

  /** What is hashed along the true branch of leaf i. */
  ghost function TrueInputs(K: Hash, m: Flat, i: nat): set<seq<byte>> {
    FoldInputs(K, Leaf(m, i), i, ProofOf(K, m, i)[1..])
  }

  /** Whatever branch is accepted for a leaf of the memory, it gives the true leaf. */
  lemma LeafIsTrue(K: Hash, m: Flat, proof: seq<byte>, addr: u64, idx: nat, strings: set<seq<byte>>)
    requires CollisionFree(K, strings) && BranchInputs(K, proof, addr, idx) <= strings && TrueInputs(K, m, addr / 32) <= strings
    requires GetMemoryB32(K, Root(K, m), proof, addr, idx).Some?
    ensures GetMemoryB32(K, Root(K, m), proof, addr, idx) == Some(Leaf(m, addr / 32))
  {
    hide Fold, FoldInputs, CollisionFree, HasBranch, BranchWord, Siblings59, Root, Leaf, Siblings;
    Sim.LeafIndex(addr);
    ProofFolds(K, m, addr / 32);
    FoldInjective(K, BranchWord(proof, idx, 0), Siblings59(proof, idx), Leaf(m, addr / 32), ProofOf(K, m, addr / 32)[1..],
                  addr / 32, strings);
  }

  lemma FetchIsTrue(K: Hash, m: Flat, proof: seq<byte>, pc: u64, strings: set<seq<byte>>)
    requires CollisionFree(K, strings) && BranchInputs(K, proof, pc - pc % 32, 0) <= strings && TrueInputs(K, m, pc / 32) <= strings
    requires LoadMem(K, Root(K, m), proof, pc, 4, false, 0, 0xff).Some?
    ensures !TwoSided(pc, 4) && LoadMem(K, Root(K, m), proof, pc, 4, false, 0, 0xff) == Some(Instruction(m, pc))
  {
    hide CollisionFree, BranchInputs, GetMemoryB32, LoadValue, Root, Leaf, ReadBytes, TrueInputs;
    Aligned(pc);
    Sim.LeafRead(m, pc, 4);
    LeafIsTrue(K, m, proof, pc - pc % 32, 0, strings);
  }

  lemma OracleAnswered(K: Hash, oracle: Oracle, m: Flat, proof: seq<byte>, a: Action)
    requires WellFormed(a) && S.Perform(K, oracle, proof, Root(K, m), a).Some?
    ensures R.Perform(K, oracle, m, a).Some?
  {
    hide LoadMem, StoreMem, GetMemoryB32, SetMemoryB32, Root, ReadBytes, WriteBytes, ToLE, LoadValue, AtomicValue;
  }

  /** A slow step that succeeds on the root of a memory is a step of the reference VM. */
  lemma SlowStepIsStep(K: Hash, oracle: Oracle, c: Cpu, m: Flat, proof: seq<byte>, strings: set<seq<byte>>)
    requires var s := S.Step(K, oracle, proof, c, Root(K, m)); s.Some? && s.value.hashed + TrueInputs(K, m, c.pc / 32) <= strings
    requires CollisionFree(K, strings)
    ensures R.Step(K, oracle, c, m).Some?
  {
    hide CollisionFree, BranchInputs, LoadMem, S.Perform, R.Perform, Decode, WellFormed, Root, LoadValue, ReadBytes, TrueInputs;
    if !c.exited {
      FetchIsTrue(K, m, proof, c.pc, strings);
      var instr := Instruction(m, c.pc);
      Sim.D.DecodeAgrees(Started(c), instr);
      DecodeWellFormed(Started(c), instr);
      OracleAnswered(K, oracle, m, proof, Decode(Native, Started(c), instr).value);
    }
  }

  /** Soundness: whatever proof the slow step accepts on the root of a memory, it ends where the
      reference step on that memory ends. strings must hold what is hashed here and along the true
      branches. */
  lemma Sound(K: Hash, oracle: Oracle, c: Cpu, m: Flat, proof: seq<byte>, strings: set<seq<byte>>)
    requires S.Step(K, oracle, proof, c, Root(K, m)).Some? && CollisionFree(K, strings)
    requires S.Step(K, oracle, proof, c, Root(K, m)).value.hashed + TrueInputs(K, m, c.pc / 32) <= strings
    requires R.Step(K, oracle, c, m).Some? ==>
      var r := S.Step(K, oracle, Sim.Flatten(R.Step(K, oracle, c, m).value.proofs) + [], c, Root(K, m));
      r.Some? ==> r.value.hashed <= strings
    ensures R.Step(K, oracle, c, m).Some?
    ensures Sim.Matches(K, S.Step(K, oracle, proof, c, Root(K, m)), R.Step(K, oracle, c, m).value)
  {
    hide CollisionFree, S.Step, R.Step, Root, TrueInputs, Sim.Flatten;
    SlowStepIsStep(K, oracle, c, m, proof, strings);
    var o := R.Step(K, oracle, c, m).value;
    Sim.StepFollows(K, oracle, c, m, []);
    var honest := Sim.Flatten(o.proofs) + [];
    FewerStrings(K, S.Step(K, oracle, proof, c, Root(K, m)).value.hashed + S.Step(K, oracle, honest, c, Root(K, m)).value.hashed, strings);
    StepsAgree(K, oracle, c, Root(K, m), proof, honest);
  }
}
