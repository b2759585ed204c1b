/** The reference steps whose branches the fast VM records against the slow VM, step by step and
    along runs, and the two preimage oracles against each other (rvgo/test/vm_go_test.go). */
module OneStep {
  import opened Words
  import opened Bytes
  import opened FlatMemory
  import opened Cpu
  import opened WordBytes
  import opened FastVm
  import R = Reference
  import S = SlowStep
  import W = Witness
  import Sim = Simulation
  import Slow = SlowVm

  // ----- two oracles for the same preimages -----

  /** The oracle of the slow VM answers everything that the fast VM can read in the same way. */
  ghost predicate Extends(oracle: R.Oracle, preimages: Bytes32 -> seq<byte>) {
    forall key, offset :: PartOf(preimages)(key, offset).Some? ==> oracle(key, offset) == PartOf(preimages)(key, offset)
  }

  /** ReadPreimagePart: first what is left of the length prefix, then data; nothing at the end. */
  function ReadPreimagePart(v: seq<byte>, offset: nat): Option<R.Chunk>
    requires |v| < TWO64 - 8
  {
    if offset == |v| + 8 then Some(R.Chunk(ZERO32, 0)) // end of the preimage
    else if offset > |v| + 8 then None
    else
      var prefix := if offset < 8 then ToBE(|v|, 8)[offset..] else [];
      var from := if offset < 8 then 0 else offset - 8;
      var room := 32 - |prefix|;
      var data := if |v| - from < room then v[from..] else v[from..from + room];
      var dat: Bytes32 := prefix + data + Zeros(room - |data|);
      Some(R.Chunk(dat, |prefix| + |data|))
  }

  /** Inside the length prefix: the rest of it, and then data from the start. */
  lemma PrefixPart(p: seq<byte>, h: seq<byte>, v: seq<byte>, offset: nat, n: nat)
    requires p == h + v && |h| == 8 && offset < 8 && n == (if |p| - offset < 32 then |p| - offset else 32)
    ensures var room := 32 - (8 - offset);
      p[offset..offset + n] == h[offset..] + (if |v| < room then v else v[..room])
  {
  }

  lemma DataPart(p: seq<byte>, h: seq<byte>, v: seq<byte>, offset: nat, n: nat)
    requires p == h + v && |h| == 8 && 8 <= offset < |p| && n == (if |p| - offset < 32 then |p| - offset else 32)
    ensures p[offset..offset + n] == (if |v| - (offset - 8) < 32 then v[offset - 8..] else v[offset - 8..offset - 8 + 32])
  {
  }

  /** The two oracles answer differently at exactly one offset, the end of the preimage: there the
      slow one gives an empty part, and the fast one panics. */
  lemma PartsAgree(v: seq<byte>, offset: nat)
    requires |v| < TWO64 - 8
    ensures ReadPreimagePart(v, offset) == PartAt(Prefixed(v), offset) <==> offset != |v| + 8
    ensures ReadPreimagePart(v, |v| + 8) == Some(R.Chunk(ZERO32, 0)) && PartAt(Prefixed(v), |v| + 8) == None
    ensures PartAt(Prefixed(v), offset).Some? <==> offset < |v| + 8
  {
    hide ToBE, Zeros;
    var p, h := Prefixed(v), ToBE(|v|, 8);
    SmallLength(|v|);
    if offset < |p| {
      var n := if |p| - offset < 32 then |p| - offset else 32;
      if offset < 8 {
        PrefixPart(p, h, v, offset, n);
      } else {
        DataPart(p, h, v, offset, n);
        NothingBefore(p[offset..offset + n]);
      }
    }
  }

  lemma NothingBefore(s: seq<byte>)
    ensures [] + s == s
  {
  }

  lemma SmallLength(n: nat)
    requires n < TWO64
    ensures n % TWO64 == n
  {
  }

  /** The slow VM's oracle for these preimages. */
  ghost predicate Serves(oracle: R.Oracle, preimages: Bytes32 -> seq<byte>) {
    && (forall key :: |preimages(key)| < TWO64 - 8)
    && (forall key, offset: u64 :: oracle(key, offset) == ReadPreimagePart(preimages(key), offset))
  }

  /** It answers everything that the fast VM can read in the same way. */
  lemma PartsExtend(oracle: R.Oracle, preimages: Bytes32 -> seq<byte>)
    requires Serves(oracle, preimages)
    ensures Extends(oracle, preimages)
  {
    hide PartAt, ReadPreimagePart, Prefixed;
    forall key: Bytes32, offset: u64 | PartOf(preimages)(key, offset).Some?
      ensures oracle(key, offset) == PartOf(preimages)(key, offset) {
      PartsAgree(preimages(key), offset);
    }
  }

  /** The state bytes of a VM with these registers and this memory. */
  ghost function StateOf(K: Hash, c: Cpu, m: Flat): (state: seq<byte>)
    ensures |state| == W.STATE_SIZE
  {
    W.WitnessLength(Root(K, m), c);
    W.Encode(Root(K, m), c)
  }

  lemma MoreAnswers(K: Hash, preimages: Bytes32 -> seq<byte>, oracle: R.Oracle, c: Cpu, m: Flat)
    requires Extends(oracle, preimages) && R.Step(K, PartOf(preimages), c, m).Some?
    ensures R.Step(K, oracle, c, m) == R.Step(K, PartOf(preimages), c, m)
  {
    hide Decode, R.LoadValue, R.WellFormed, ReadBytes, WriteBytes, R.Reads, R.Writes, AtomicValue, ToLE, PartOf;
    if !c.exited && !R.TwoSided(c.pc, 4) {
      R.DecodeWellFormed(R.Started(c), R.Instruction(m, c.pc));
    }
  }

  /** The next instruction reads a preimage of which everything has been read. */
  ghost predicate AtEnd(preimages: Bytes32 -> seq<byte>, c: Cpu, m: Flat) {
    var a := Pending(c, m);
    a.Some? && a.value.PreimageRead? && a.value.next.preimageOffset == |preimages(a.value.next.preimageKey)| + 8
  }

  /** The oracles make a difference to a step exactly at the end of a preimage; there the step of
      the slow VM reads nothing, and says so in register 10. */
  lemma StepsDiffer(K: Hash, preimages: Bytes32 -> seq<byte>, oracle: R.Oracle, c: Cpu, m: Flat)
    requires Serves(oracle, preimages)
    ensures R.Step(K, oracle, c, m) != R.Step(K, PartOf(preimages), c, m) <==> AtEnd(preimages, c, m)
    ensures AtEnd(preimages, c, m) ==>
      && R.Step(K, PartOf(preimages), c, m).None?
      && R.Step(K, oracle, c, m) == Some(R.Outcome(SetRegister(Pending(c, m).value.next, 10, 0), m, [ProofOf(K, m, c.pc / 32)]))
  {
    hide Decode, R.LoadValue, R.WellFormed, ReadBytes, WriteBytes, R.Reads, R.Writes, AtomicValue, ToLE, PartAt, Prefixed,
      ReadPreimagePart, ProofOf, SetRegister;
    if !c.exited && !R.TwoSided(c.pc, 4) {
      R.DecodeWellFormed(R.Started(c), R.Instruction(m, c.pc));
      var a := Pending(c, m);
      if a.Some? && a.value.PreimageRead? {
        var key, offset := a.value.next.preimageKey, a.value.next.preimageOffset;
        PartsAgree(preimages(key), offset);
        if offset == |preimages(key)| + 8 {
          NoMore(K, oracle, PartOf(preimages), m, a.value);
          var fetch := [ProofOf(K, m, c.pc / 32)];
          assert fetch + [] == fetch;
        }
      }
    }
  }

  lemma NoMore(K: Hash, oracle: R.Oracle, other: R.Oracle, m: Flat, a: Action)
    requires a.PreimageRead?
    requires oracle(a.next.preimageKey, a.next.preimageOffset) == Some(R.Chunk(ZERO32, 0))
    requires other(a.next.preimageKey, a.next.preimageOffset) == None
    ensures R.Perform(K, oracle, m, a) == Some(R.Outcome(SetRegister(a.next, 10, 0), m, [])) && R.Perform(K, other, m, a) == None
  {
  }

  // ----- one step -----

  /** Simulation: whenever a reference step succeeds, the slow VM accepts its branches, whatever
      comes behind them in the calldata, and turns the witness of the state before the step into
      that of the state afterwards. */
  lemma BranchesAccepted(K: Hash, oracle: R.Oracle, c: Cpu, m: Flat, tail: seq<byte>)
    requires R.Step(K, oracle, c, m).Some?
    ensures var o := R.Step(K, oracle, c, m).value;
      Slow.StepBytes(K, oracle, StateOf(K, c, m), Sim.Flatten(o.proofs) + tail) == Some(StateOf(K, o.cpu, o.mem))
  {
    hide R.Step, S.Step, W.Encode, Root, Sim.Flatten, W.DecodeCpu, W.DecodeRoot;
    Sim.StepFollows(K, oracle, c, m, tail);
    W.DecodeEncode(Root(K, m), c);
    Slow.ExitedByte(StateOf(K, c, m));
    StaysExited(K, oracle, c, m);
  }

  /** The same for the fast VM's oracle, which panics at the end of a preimage: the witness of a
      step that the fast VM makes is accepted by the slow VM. */
  lemma WitnessAccepted(K: Hash, preimages: Bytes32 -> seq<byte>, oracle: R.Oracle, c: Cpu, m: Flat, tail: seq<byte>)
    requires Extends(oracle, preimages) && R.Step(K, PartOf(preimages), c, m).Some?
    ensures var o := R.Step(K, PartOf(preimages), c, m).value;
      Slow.StepBytes(K, oracle, StateOf(K, c, m), Sim.Flatten(o.proofs) + tail) == Some(StateOf(K, o.cpu, o.mem))
  {
    hide *;
    MoreAnswers(K, preimages, oracle, c, m);
    BranchesAccepted(K, oracle, c, m, tail);
  }

  lemma StaysExited(K: Hash, oracle: R.Oracle, c: Cpu, m: Flat)
    ensures c.exited ==> R.Step(K, oracle, c, m) == Some(R.Outcome(c, m, []))
  {
  }

  // ----- whole runs -----

  /** n steps of the reference VM */
  ghost function Run(K: Hash, oracle: R.Oracle, c: Cpu, m: Flat, n: nat): Option<(Cpu, Flat)>
    decreases n
  {
    if n == 0 then Some((c, m))
    else
      match R.Step(K, oracle, c, m)
      case None => None
      case Some(o) => Run(K, oracle, o.cpu, o.mem, n - 1)
  }

  /** A run and one more step. */
  lemma {:induction false} RunOn(K: Hash, oracle: R.Oracle, c: Cpu, m: Flat, n: nat)
    requires Run(K, oracle, c, m, n).Some?
    ensures var (c', m') := Run(K, oracle, c, m, n).value;
      Run(K, oracle, c, m, n + 1) == match R.Step(K, oracle, c', m')
        case None => None
        case Some(o) => Some((o.cpu, o.mem))
    decreases n
  {
    hide R.Step;
    if n > 0 {
      var o := R.Step(K, oracle, c, m).value;
      RunOn(K, oracle, o.cpu, o.mem, n - 1);
    }
  }

  /** The slow VM on n proofs, each step starting from the bytes the last one ended in. */
  function SlowRun(K: Hash, oracle: R.Oracle, state: seq<byte>, proofs: seq<seq<byte>>): Option<seq<byte>>
    decreases |proofs|
  {
    if |state| != W.STATE_SIZE then None
    else if |proofs| == 0 then Some(state)
    else
      match Slow.StepBytes(K, oracle, state, proofs[0])
      case None => None
      case Some(after) => SlowRun(K, oracle, after, proofs[1..])
  }

  lemma {:induction false} SlowRunOn(K: Hash, oracle: R.Oracle, state: seq<byte>, proofs: seq<seq<byte>>, proof: seq<byte>)
    requires SlowRun(K, oracle, state, proofs).Some?
    ensures |SlowRun(K, oracle, state, proofs).value| == W.STATE_SIZE
    ensures SlowRun(K, oracle, state, proofs + [proof]) == Slow.StepBytes(K, oracle, SlowRun(K, oracle, state, proofs).value, proof)
    decreases |proofs|
  {
    hide Slow.StepBytes;
    Slow.StepBytesLength(K, oracle, state, (proofs + [proof])[0]);
    if |proofs| == 0 {
      assert proofs + [proof] == [proof] && [proof][1..] == [];
    } else {
      SlowRunOn(K, oracle, Slow.StepBytes(K, oracle, state, proofs[0]).value, proofs[1..], proof);
      assert (proofs + [proof])[1..] == proofs[1..] + [proof];
    }
  }

  /** The witnesses' branches along n steps. */
  ghost function RunProofs(K: Hash, oracle: R.Oracle, c: Cpu, m: Flat, n: nat): seq<seq<byte>>
    requires Run(K, oracle, c, m, n).Some?
    decreases n
  {
    if n == 0 then []
    else
      var o := R.Step(K, oracle, c, m).value;
      [Sim.Flatten(o.proofs)] + RunProofs(K, oracle, o.cpu, o.mem, n - 1)
  }

  /** Simulation of runs: the slow VM follows a successful run of any length, from state bytes
      to state bytes, and ends in the witness of the last state. */
  lemma {:induction false} RunAccepted(K: Hash, preimages: Bytes32 -> seq<byte>, oracle: R.Oracle, c: Cpu, m: Flat, n: nat)
    requires Extends(oracle, preimages) && Run(K, PartOf(preimages), c, m, n).Some?
    ensures var end := Run(K, PartOf(preimages), c, m, n).value;
      SlowRun(K, oracle, StateOf(K, c, m), RunProofs(K, PartOf(preimages), c, m, n))
      == Some(StateOf(K, end.0, end.1))
    decreases n
  {
    hide R.Step, W.Encode, Root, Sim.Flatten, Slow.StepBytes, Extends;
    W.WitnessLength(Root(K, m), c);
    if n > 0 {
      var o := R.Step(K, PartOf(preimages), c, m).value;
      WitnessAccepted(K, preimages, oracle, c, m, []);
      var first := Sim.Flatten(o.proofs);
      assert first + [] == first;
      RunAccepted(K, preimages, oracle, o.cpu, o.mem, n - 1);
      var proofs := RunProofs(K, PartOf(preimages), c, m, n);
      assert proofs[0] == first && proofs[1..] == RunProofs(K, PartOf(preimages), o.cpu, o.mem, n - 1);
    }
  }
}
