/** Runs of the slow VM on proofs that may come from anyone: from given state bytes they can end in one
    way only, and from the witness of a memory only where the reference run ends. Relative to the
    strings that are hashed on the way, on which the hash must not collide. */
module SlowRuns {
  import opened Words
  import opened FlatMemory
  import opened Cpu
  import opened OneStep
  import B = Binding
  import R = Reference
  import S = SlowStep
  import W = Witness
  import Sim = Simulation
  import Slow = SlowVm

  // ----- two provers -----

  /** The strings that a step hashes while it verifies branches. */
  function Hashed(K: Hash, oracle: R.Oracle, state: seq<byte>, proof: seq<byte>): set<seq<byte>>
    requires |state| == W.STATE_SIZE
  {
    match S.Step(K, oracle, proof, W.DecodeCpu(state), W.DecodeRoot(state))
    case None => {}
    case Some(o) => o.hashed
  }

  /** Binding for one step, on bytes: two proofs that are accepted for the same state give the same
      state, and so the same hash. */
  lemma StatesAgree(K: Hash, oracle: R.Oracle, state: seq<byte>, p1: seq<byte>, p2: seq<byte>)
    requires |state| == W.STATE_SIZE
    requires Slow.StepBytes(K, oracle, state, p1).Some? && Slow.StepBytes(K, oracle, state, p2).Some?
    requires CollisionFree(K, Hashed(K, oracle, state, p1) + Hashed(K, oracle, state, p2))
    ensures Slow.StepBytes(K, oracle, state, p1) == Slow.StepBytes(K, oracle, state, p2)
  {
    hide S.Step, CollisionFree, W.Encode, W.DecodeCpu, W.DecodeRoot;
    if state[81] == 0 {
      B.StepsAgree(K, oracle, W.DecodeCpu(state), W.DecodeRoot(state), p1, p2);
    }
  }

  function RunHashed(K: Hash, oracle: R.Oracle, state: seq<byte>, proofs: seq<seq<byte>>): set<seq<byte>>
    decreases |proofs|
  {
    if |state| != W.STATE_SIZE || |proofs| == 0 then {}
    else
      Hashed(K, oracle, state, proofs[0])
      + match Slow.StepBytes(K, oracle, state, proofs[0])
        case None => {}
        case Some(after) => RunHashed(K, oracle, after, proofs[1..])
  }

  /** Binding for runs: whoever gives the proofs, n accepted steps from one state end in one state. */
  lemma {:induction false} RunsAgree(K: Hash, oracle: R.Oracle, state: seq<byte>, ps1: seq<seq<byte>>, ps2: seq<seq<byte>>)
    requires |ps1| == |ps2| && SlowRun(K, oracle, state, ps1).Some? && SlowRun(K, oracle, state, ps2).Some?
    requires CollisionFree(K, RunHashed(K, oracle, state, ps1) + RunHashed(K, oracle, state, ps2))
    ensures SlowRun(K, oracle, state, ps1) == SlowRun(K, oracle, state, ps2)
    decreases |ps1|
  {
    hide Slow.StepBytes, Hashed, CollisionFree;
    if |ps1| > 0 {
      var strings := RunHashed(K, oracle, state, ps1) + RunHashed(K, oracle, state, ps2);
      B.FewerStrings(K, Hashed(K, oracle, state, ps1[0]) + Hashed(K, oracle, state, ps2[0]), strings);
      StatesAgree(K, oracle, state, ps1[0], ps2[0]);
      var after := Slow.StepBytes(K, oracle, state, ps1[0]).value;
      B.FewerStrings(K, RunHashed(K, oracle, after, ps1[1..]) + RunHashed(K, oracle, after, ps2[1..]), strings);
      RunsAgree(K, oracle, after, ps1[1..], ps2[1..]);
    }
  }

  // ----- any prover against the memory -----

  /** What the step on a given proof hashes, and what the one on the true branches would hash. */
  ghost function StepStrings(K: Hash, oracle: R.Oracle, c: Cpu, m: Flat, proof: seq<byte>): set<seq<byte>> {
    Hashed(K, oracle, StateOf(K, c, m), proof) + B.TrueInputs(K, m, c.pc / 32)
    + match R.Step(K, oracle, c, m)
      case None => {}
      case Some(o) => Hashed(K, oracle, StateOf(K, c, m), Sim.Flatten(o.proofs) + [])
  }

  /** Soundness of one step, on bytes: whatever proof is accepted for the witness of a memory, the
      reference step succeeds, and the state afterwards is its witness. */
  lemma StateIsTrue(K: Hash, oracle: R.Oracle, c: Cpu, m: Flat, proof: seq<byte>)
    requires Slow.StepBytes(K, oracle, StateOf(K, c, m), proof).Some?
    requires CollisionFree(K, StepStrings(K, oracle, c, m, proof))
    ensures R.Step(K, oracle, c, m).Some?
    ensures var o := R.Step(K, oracle, c, m).value;
      Slow.StepBytes(K, oracle, StateOf(K, c, m), proof) == Some(StateOf(K, o.cpu, o.mem))
  {
    hide S.Step, R.Step, CollisionFree, W.Encode, W.DecodeCpu, W.DecodeRoot, Root, B.TrueInputs, Sim.Flatten;
    W.DecodeEncode(Root(K, m), c);
    Slow.ExitedByte(StateOf(K, c, m));
    StaysExited(K, oracle, c, m);
    if !c.exited {
      B.Sound(K, oracle, c, m, proof, StepStrings(K, oracle, c, m, proof));
    }
  }

  ghost function RunStrings(K: Hash, oracle: R.Oracle, c: Cpu, m: Flat, proofs: seq<seq<byte>>): set<seq<byte>>
    decreases |proofs|
  {
    if |proofs| == 0 then {}
    else
      StepStrings(K, oracle, c, m, proofs[0])
      + match R.Step(K, oracle, c, m)
        case None => {}
        case Some(o) => RunStrings(K, oracle, o.cpu, o.mem, proofs[1..])
  }

  /** Soundness of runs: from the witness of a memory, whatever proofs are accepted, the reference run
      of the same length succeeds, and the slow VM ends in the witness of its end. */
  lemma {:induction false} RunIsTrue(K: Hash, oracle: R.Oracle, c: Cpu, m: Flat, proofs: seq<seq<byte>>)
    requires SlowRun(K, oracle, StateOf(K, c, m), proofs).Some? && CollisionFree(K, RunStrings(K, oracle, c, m, proofs))
    ensures Run(K, oracle, c, m, |proofs|).Some?
    ensures var (c', m') := Run(K, oracle, c, m, |proofs|).value;
      SlowRun(K, oracle, StateOf(K, c, m), proofs) == Some(StateOf(K, c', m'))
    decreases |proofs|
  {
    hide Slow.StepBytes, R.Step, StepStrings, CollisionFree, StateOf;
    if |proofs| > 0 {
      var strings := RunStrings(K, oracle, c, m, proofs);
      B.FewerStrings(K, StepStrings(K, oracle, c, m, proofs[0]), strings);
      StateIsTrue(K, oracle, c, m, proofs[0]);
      var o := R.Step(K, oracle, c, m).value;
      B.FewerStrings(K, RunStrings(K, oracle, o.cpu, o.mem, proofs[1..]), strings);
      RunIsTrue(K, oracle, o.cpu, o.mem, proofs[1..]);
    }
  }
}
