/** The slow step follows the reference step: given the branches of the reference memory, it
    reads the same bytes, and folds every write into the root of the changed memory. */
module Simulation {
  import opened Words
  import opened Bytes
  import opened FlatMemory
  import opened Yul64
  import opened Cpu
  import opened WordBytes
  import opened Reference
  import D = DecodeAgrees
  import S = SlowStep

  // ----- branches as calldata -----

  /** The witness holds its branches one after the other. */
  function Concat(words: seq<Bytes32>): (s: seq<byte>)
    ensures |s| == 32 * |words|
  {
    if |words| == 0 then [] else words[0] + Concat(words[1..])
  }

  function Flatten(ps: seq<seq<Bytes32>>): seq<byte> {
    if |ps| == 0 then [] else Concat(ps[0]) + Flatten(ps[1..])
  }

  ghost predicate Branches(ps: seq<seq<Bytes32>>) {
    forall i :: 0 <= i < |ps| ==> |ps[i]| == 60
  }

  /** The calldata provides the branches ps, from index 0 on. */
  ghost predicate Carries(proof: seq<byte>, ps: seq<seq<Bytes32>>) {
    && Branches(ps)
    && (forall i: nat :: i < |ps| ==> S.HasBranch(proof, i))
    && (forall i: nat, j: nat :: i < |ps| && j < 60 ==> S.BranchWord(proof, i, j) == ps[i][j])
  }

  lemma {:induction false} ConcatAt(words: seq<Bytes32>, j: nat)
    requires j < |words|
    ensures Concat(words)[32 * j..32 * j + 32] == words[j]
    decreases j
  {
    if j == 0 {
    } else {
      ConcatAt(words[1..], j - 1);
      assert Concat(words)[32 * j..32 * j + 32] == Concat(words[1..])[32 * (j - 1)..32 * (j - 1) + 32];
    }
  }

  lemma {:induction false} FlattenLength(ps: seq<seq<Bytes32>>)
    requires Branches(ps)
    ensures |Flatten(ps)| == 1920 * |ps|
  {
    if |ps| > 0 {
      FlattenLength(ps[1..]);
    }
  }

  lemma {:induction false} FlattenAt(ps: seq<seq<Bytes32>>, i: nat, j: nat)
    requires Branches(ps) && i < |ps| && j < 60
    ensures |Flatten(ps)| == 1920 * |ps|
    ensures Flatten(ps)[1920 * i + 32 * j..1920 * i + 32 * j + 32] == ps[i][j]
    decreases i
  {
    FlattenLength(ps);
    var k := 32 * j;
    if i == 0 {
      ConcatAt(ps[0], j);
      assert Flatten(ps)[k..k + 32] == Concat(ps[0])[k..k + 32];
    } else {
      FlattenAt(ps[1..], i - 1, j);
      var o := 1920 * (i - 1) + k;
      assert Flatten(ps)[1920 + o..1920 + o + 32] == Flatten(ps[1..])[o..o + 32];
    }
  }

  /** Whatever follows the branches in the calldata does not matter. */
  lemma FlattenCarries(ps: seq<seq<Bytes32>>, tail: seq<byte>)
    requires Branches(ps)
    ensures Carries(Flatten(ps) + tail, ps)
  {
    var proof := Flatten(ps) + tail;
    FlattenLength(ps);
    forall i: nat, j: nat | i < |ps| && j < 60 ensures S.HasBranch(proof, i) && S.BranchWord(proof, i, j) == ps[i][j] {
      FlattenAt(ps, i, j);
      var o := 1920 * i + 32 * j;
      assert S.ProofOffset(i) == 1920 * i;
      assert proof[o..o + 32] == Flatten(ps)[o..o + 32];
    }
    forall i: nat | i < |ps| ensures S.HasBranch(proof, i) {
      assert S.ProofOffset(i) == 1920 * i;
    }
  }

  // ----- one leaf -----

  lemma LeafIndex(addr: u64)
    ensures addr / 32 < LEAVES
  {
  }

  lemma BranchIs(proof: seq<byte>, ps: seq<seq<Bytes32>>, idx: nat)
    requires Carries(proof, ps) && idx < |ps|
    ensures S.HasBranch(proof, idx) && S.BranchWord(proof, idx, 0) == ps[idx][0]
    ensures S.Siblings59(proof, idx) == ps[idx][1..]
  {
    forall j: nat | j < 59 ensures S.Siblings59(proof, idx)[j] == ps[idx][j + 1] {
      assert S.BranchWord(proof, idx, j + 1) == ps[idx][j + 1];
    }
  }

  /** Completeness: the branch of the memory is accepted, and gives its leaf. */
  lemma GetsLeaf(K: Hash, m: Flat, proof: seq<byte>, ps: seq<seq<Bytes32>>, addr: u64, idx: nat)
    requires Carries(proof, ps) && idx < |ps| && addr % 32 == 0 && ps[idx] == ProofOf(K, m, addr / 32)
    ensures S.GetMemoryB32(K, Root(K, m), proof, addr, idx) == Some(Leaf(m, addr / 32))
  {
    hide Fold, Root, Siblings, S.HasBranch, S.BranchWord, S.Siblings59, Carries;
    LeafIndex(addr);
    BranchIs(proof, ps, idx);
    ProofFolds(K, m, addr / 32);
  }

  /** Update: folding a new leaf through the same branch gives the root of the new memory. */
  lemma SetsLeaf(K: Hash, m: Flat, m': Flat, proof: seq<byte>, ps: seq<seq<Bytes32>>, addr: u64, idx: nat)
    requires Carries(proof, ps) && idx < |ps| && addr % 32 == 0 && ps[idx] == ProofOf(K, m, addr / 32)
    requires forall j: nat :: j != addr / 32 ==> Leaf(m, j) == Leaf(m', j)
    ensures S.SetMemoryB32(K, proof, addr, Leaf(m', addr / 32), idx) == Some(Root(K, m'))
  {
    hide Fold, Root, Siblings, S.HasBranch, S.BranchWord, S.Siblings59, Carries;
    LeafIndex(addr);
    BranchIs(proof, ps, idx);
    UpdateFolds(K, m, m', addr / 32);
  }

  // ----- bytes within leaves -----

  lemma LeafByte(m: Flat, x: u64)
    ensures Leaf(m, x / 32)[x % 32] == m[x]
  {
    LeafIndex(x);
    assert 32 * (x / 32) + x % 32 == x;
  }

  lemma LeafRead(m: Flat, addr: u64, n: nat)
    requires n <= 32
    ensures var a := addr % 32;
      ReadBytes(m, addr, n) == if TwoSided(addr, n) then (Leaf(m, addr / 32) + Leaf(m, RightLeaf(addr) / 32))[a..a + n]
                               else Leaf(m, addr / 32)[a..a + n]
  {
    hide Leaf, RightLeaf;
    forall k | 0 <= k < n ensures ReadBytes(m, addr, n)[k]
                               == (Leaf(m, addr / 32) + Leaf(m, RightLeaf(addr) / 32))[addr % 32 + k] {
      NextByte(addr, k);
      LeafByte(m, AddrAdd(addr, k));
    }
  }

  /** A write inside one leaf patches that leaf and no other. */
  lemma LeafWrite(m: Flat, addr: u64, data: seq<byte>)
    requires !TwoSided(addr, |data|)
    ensures var m' := WriteBytes(m, addr, data);
      && Leaf(m', addr / 32) == Patched(Leaf(m, addr / 32), addr % 32, data)
      && forall j: nat :: j != addr / 32 ==> Leaf(m, j) == Leaf(m', j)
  {
    hide Leaf, WriteBytes;
    var m', l, a := WriteBytes(m, addr, data), addr / 32, addr % 32;
    LeafIndex(addr);
    LeafSplit(addr);
    forall i | 0 <= i < 32 ensures Leaf(m', l)[i] == Patched(Leaf(m, l), a, data)[i] {
      LeafBytes(m', l, i);
      LeafBytes(m, l, i);
      WrittenByte(m, addr, data, 32 * l + i);
      if i < a {
        assert AddrSub(32 * l + i, addr) >= |data|;
      } else {
        assert AddrSub(32 * l + i, addr) == i - a;
      }
    }
    assert Leaf(m', l) == Patched(Leaf(m, l), a, data);
    forall j: nat | j != l ensures Leaf(m, j) == Leaf(m', j) {
      OtherLeaf(m, addr, data, j);
    }
  }

  lemma LeafSplit(addr: u64)
    ensures addr == 32 * (addr / 32) + addr % 32
  {
  }

  lemma LeafBytes(m: Flat, l: nat, i: nat)
    requires l < LEAVES && i < 32
    ensures 32 * l + i < TWO64 && Leaf(m, l)[i] == m[32 * l + i]
  {
  }

  lemma WrittenByte(m: Flat, addr: u64, data: seq<byte>, x: u64)
    requires |data| < TWO64
    ensures WriteBytes(m, addr, data)[x] == if AddrSub(x, addr) < |data| then data[AddrSub(x, addr)] else m[x]
  {
  }

  /** A write inside one leaf does not reach another one. */
  lemma OtherLeaf(m: Flat, addr: u64, data: seq<byte>, j: nat)
    requires !TwoSided(addr, |data|) && j != addr / 32
    ensures Leaf(m, j) == Leaf(WriteBytes(m, addr, data), j)
  {
    hide WriteBytes;
    var m' := WriteBytes(m, addr, data);
    if j < LEAVES {
      LeafSplit(addr);
      forall i | 0 <= i < 32 ensures Leaf(m, j)[i] == Leaf(m', j)[i] {
        hide Leaf;
        LeafBytes(m, j, i);
        LeafBytes(m', j, i);
        WrittenByte(m, addr, data, 32 * j + i);
        assert AddrSub(32 * j + i, addr) >= |data|;
      }
    }
  }

  // ----- loads and stores -----

  /** Load refinement: the slow load gives the little-endian value of the memory. */
  lemma LoadFollows(K: Hash, m: Flat, proof: seq<byte>, ps: seq<seq<Bytes32>>, addr: u64, size: nat, signed: bool,
                    idxL: nat, idxR: nat)
    requires Carries(proof, ps) && 1 <= size <= 8 && idxL < |ps| && ps[idxL] == ProofOf(K, m, addr / 32)
    requires TwoSided(addr, size) ==> idxR < |ps| && idxR != 0xff && ps[idxR] == ProofOf(K, m, RightLeaf(addr) / 32)
    ensures S.LoadMem(K, Root(K, m), proof, addr, size, signed, idxL, idxR) == Some(LoadValue(ReadBytes(m, addr, size), signed))
  {
    hide Leaf, Root, LoadValue, ReadBytes, Carries, RightLeaf, S.GetMemoryB32, ProofOf;
    Aligned(addr);
    GetsLeaf(K, m, proof, ps, addr - addr % 32, idxL);
    if TwoSided(addr, size) {
      GetsLeaf(K, m, proof, ps, RightLeaf(addr), idxR);
    }
    LeafRead(m, addr, size);
  }

  lemma PatchFollows(K: Hash, m: Flat, proof: seq<byte>, ps: seq<seq<Bytes32>>, addr: u64, data: seq<byte>, idx: nat)
    requires Carries(proof, ps) && idx < |ps| && !TwoSided(addr, |data|) && ps[idx] == ProofOf(K, m, addr / 32)
    ensures S.PatchLeaf(K, Root(K, m), proof, addr - addr % 32, addr % 32, data, idx) == Some(Root(K, WriteBytes(m, addr, data)))
  {
    hide Leaf, Root, WriteBytes, Carries, S.GetMemoryB32, S.SetMemoryB32, ProofOf;
    Aligned(addr);
    GetsLeaf(K, m, proof, ps, addr - addr % 32, idx);
    LeafWrite(m, addr, data);
    SetsLeaf(K, m, WriteBytes(m, addr, data), proof, ps, addr - addr % 32, idx);
  }

  /** Store refinement: two successive root updates give the root of the memory with exactly
      these bytes changed. */
  lemma StoreFollows(K: Hash, m: Flat, proof: seq<byte>, ps: seq<seq<Bytes32>>, addr: u64, data: seq<byte>,
                     idxL: nat, idxR: nat)
    requires Carries(proof, ps) && |data| <= 32 && idxL < |ps| && ps[idxL] == Writes(K, m, addr, data)[0]
    requires TwoSided(addr, |data|) ==> idxR < |ps| && idxR != 0xff && ps[idxR] == Writes(K, m, addr, data)[1]
    ensures S.StoreMem(K, Root(K, m), proof, addr, data, idxL, idxR) == Some(Root(K, WriteBytes(m, addr, data)))
  {
    hide Leaf, Root, WriteBytes, Carries, S.PatchLeaf, ProofOf, RightLeaf;
    Aligned(addr);
    if TwoSided(addr, |data|) {
      var n := 32 - addr % 32;
      var r := RightLeaf(addr);
      PatchFollows(K, m, proof, ps, addr, data[..n], idxL);
      PatchFollows(K, WriteBytes(m, addr, data[..n]), proof, ps, r, data[n..], idxR);
      RightIsNext(addr, n);
      WriteTwice(m, addr, data[..n], data[n..]);
      assert data[..n] + data[n..] == data;
    } else {
      PatchFollows(K, m, proof, ps, addr, data, idxL);
    }
  }

  lemma RightIsNext(addr: u64, n: nat)
    requires n == 32 - addr % 32
    ensures AddrAdd(addr, n) == RightLeaf(addr)
  {
  }

  // ----- the step -----

  /** The slow outcome matches the reference outcome. */
  ghost predicate Matches(K: Hash, s: Option<S.SlowOutcome>, o: Outcome) {
    s.Some? && s.value.cpu == o.cpu && s.value.root == Root(K, o.mem)
  }

  lemma AtomicFollows(K: Hash, oracle: Oracle, m: Flat, a: Action, proof: seq<byte>, ps: seq<seq<Bytes32>>)
    requires WellFormed(a) && a.AtomicAt? && Carries(proof, ps) && |ps| > 1 && ps[1] == ProofOf(K, m, a.addr / 32)
    ensures Matches(K, S.Perform(K, oracle, proof, Root(K, m), a), Perform(K, oracle, m, a).value)
  {
    hide Leaf, Root, WriteBytes, ReadBytes, Carries, ProofOf, S.LoadMem, S.StoreMem, LoadValue, AtomicValue, S.SideInputs;
    var v := LoadValue(ReadBytes(m, a.addr, a.size), true);
    LoadFollows(K, m, proof, ps, a.addr, a.size, true, 1, 2);
    D.AtomicValueAgrees(a.op, v, a.operand);
    StoreFollows(K, m, proof, ps, a.addr, ToLE(AtomicValue(Native, a.op, v, a.operand), a.size), 1, 3);
  }

  lemma KeyFollows(K: Hash, oracle: Oracle, m: Flat, a: Action, proof: seq<byte>, ps: seq<seq<Bytes32>>)
    requires a.KeyWrite? && Carries(proof, ps) && |ps| > 1 && ps[1] == ProofOf(K, m, a.addr / 32)
    ensures Matches(K, S.Perform(K, oracle, proof, Root(K, m), a), Perform(K, oracle, m, a).value)
  {
    hide Leaf, Root, ReadBytes, Carries, ProofOf, S.GetMemoryB32, AppendToKey, Alignment, ClampToLeaf;
    Aligned(a.addr);
    var n := ClampToLeaf(Native, a.addr, a.count);
    GetsLeaf(K, m, proof, ps, a.addr - a.addr % 32, 1);
    LeafRead(m, a.addr, n);
    AppendToKeyShifts(Wide, a.next.preimageKey, Leaf(m, a.addr / 32), a.addr % 32, n);
  }

  lemma PreimageFollows(K: Hash, oracle: Oracle, m: Flat, a: Action, proof: seq<byte>, ps: seq<seq<Bytes32>>)
    requires a.PreimageRead? && Carries(proof, ps) && |ps| > 1 && ps[1] == ProofOf(K, m, a.addr / 32)
    requires var c := oracle(a.next.preimageKey, a.next.preimageOffset); c.Some? && c.value.len != 0
    ensures Matches(K, S.Perform(K, oracle, proof, Root(K, m), a), Perform(K, oracle, m, a).value)
  {
    hide Leaf, Root, WriteBytes, Carries, ProofOf, S.GetMemoryB32, S.SetMemoryB32, MergePreimage, Alignment, ClampToLeaf;
    Aligned(a.addr);
    var c := oracle(a.next.preimageKey, a.next.preimageOffset).value;
    var n := ReadCount(Native, a.addr, a.count, c.len);
    var start := a.addr - a.addr % 32;
    GetsLeaf(K, m, proof, ps, start, 1);
    MergePreimagePatches(Wide, Leaf(m, a.addr / 32), c.dat, a.addr % 32, n);
    LeafWrite(m, a.addr, c.dat[..n]);
    SetsLeaf(K, m, WriteBytes(m, a.addr, c.dat[..n]), proof, ps, start, 1);
  }

  lemma PerformFollows(K: Hash, oracle: Oracle, m: Flat, a: Action, proof: seq<byte>, fetch: seq<Bytes32>)
    requires WellFormed(a) && Perform(K, oracle, m, a).Some?
    requires Carries(proof, [fetch] + Perform(K, oracle, m, a).value.proofs)
    ensures Matches(K, S.Perform(K, oracle, proof, Root(K, m), a), Perform(K, oracle, m, a).value)
  {
    hide Leaf, Root, WriteBytes, ReadBytes, Carries, ProofOf, S.LoadMem, S.StoreMem, LoadValue, S.SideInputs, AppendToKey;
    hide MergePreimage, ClampToLeaf, S.GetMemoryB32, S.SetMemoryB32, AtomicValue;
    var ps := [fetch] + Perform(K, oracle, m, a).value.proofs;
    match a
    case Done(_) =>
    case Output(_, _, _, _) =>
    case LoadTo(rd, addr, size, signed, next) =>
      LoadFollows(K, m, proof, ps, addr, size, signed, 1, 2);
    case StoreAt(addr, size, value, next) =>
      StoreFollows(K, m, proof, ps, addr, ToLE(value, size), 1, 2);
    case AtomicAt(_, _, _, _, _, _) =>
      AtomicFollows(K, oracle, m, a, proof, ps);
    case KeyWrite(_, _, _) =>
      KeyFollows(K, oracle, m, a, proof, ps);
    case PreimageRead(_, _, next) =>
      if oracle(next.preimageKey, next.preimageOffset).value.len != 0 {
        PreimageFollows(K, oracle, m, a, proof, ps);
      }
  }

  lemma {:induction false} ProofsAreBranches(K: Hash, oracle: Oracle, c: Cpu, m: Flat)
    requires Step(K, oracle, c, m).Some?
    ensures Branches(Step(K, oracle, c, m).value.proofs)
    ensures |Step(K, oracle, c, m).value.proofs| <= 3
    ensures !c.exited ==> |Step(K, oracle, c, m).value.proofs| >= 1
  {
    hide Decode, ReadBytes, WriteBytes, Siblings, Leaf, LoadValue, AtomicValue, ClampToLeaf, SetRegister;
  }

  /** Simulation of one step: whenever the reference step succeeds, the slow step accepts its
      branches, followed by anything, and ends in the same registers and in the root of the
      reference memory. */
  lemma StepFollows(K: Hash, oracle: Oracle, c: Cpu, m: Flat, tail: seq<byte>)
    requires Step(K, oracle, c, m).Some?
    ensures var o := Step(K, oracle, c, m).value;
      Matches(K, S.Step(K, oracle, Flatten(o.proofs) + tail, c, Root(K, m)), o)
  {
    hide Leaf, Root, ReadBytes, Carries, ProofOf, S.LoadMem, LoadValue, Decode, Perform, S.Perform, Flatten, WellFormed;
    if !c.exited {
      var o := Step(K, oracle, c, m).value;
      var proof := Flatten(o.proofs) + tail;
      ProofsAreBranches(K, oracle, c, m);
      FlattenCarries(o.proofs, tail);
      LoadFollows(K, m, proof, o.proofs, c.pc, 4, false, 0, 0xff);
      var instr := Instruction(m, c.pc);
      D.DecodeAgrees(Started(c), instr);
      DecodeWellFormed(Started(c), instr);
      PerformFollows(K, oracle, m, Decode(Native, Started(c), instr).value, proof, o.proofs[0]);
    }
  }
}
