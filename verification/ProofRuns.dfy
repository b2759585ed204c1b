/** The loop of the run command (rvgo/cmd/run.go): steps of the fast VM, of which some are proved, with
    the condition under which the hash caches are coherent at every proof. */
module ProofRuns {
  import opened Words
  import opened Bytes
  import opened FlatMemory
  import opened Cpu
  import opened Accounts
  import opened FastVm
  import opened FastRuns
  import opened OneStep
  import R = Reference
  import W = Witness
  import H = History

  datatype StepProof = StepProof(step: u64, pre: Option<Bytes32>, post: Option<Bytes32>, wit: StepWitness)

  /** A proof of the step from t to u: it carries the two state hashes, and the slow VM accepts it. */
  ghost predicate Proves(K: Hash, oracle: R.Oracle, t: Progress, p: StepProof, u: Progress) {
    && p.step == t.cpu.step && p.wit.state == StateBytes(K, t)
    && p.pre == W.StateHash(K, StateBytes(K, t)) && p.post == W.StateHash(K, StateBytes(K, u))
    && Follows(K, oracle, t, p.wit.memProof, u)
  }

  /** The proofs of the first n steps of a run: one for each step that proofAt names, in order. */
  ghost predicate Proofs(K: Hash, preimages: Bytes32 -> seq<byte>, oracle: R.Oracle, t: Progress, proofAt: u64 -> bool,
                         n: nat, proofs: seq<StepProof>)
    decreases n
  {
    if n == 0 then |proofs| == 0
    else
      var before, after := VmRun(K, preimages, t, n - 1), VmRun(K, preimages, t, n);
      && before.Some? && after.Some?
      && if proofAt(before.value.cpu.step) then
           && |proofs| > 0 && Proves(K, oracle, before.value, proofs[|proofs| - 1], after.value)
           && Proofs(K, preimages, oracle, t, proofAt, n - 1, proofs[..|proofs| - 1])
         else Proofs(K, preimages, oracle, t, proofAt, n - 1, proofs)
  }

  // ----- the account of a run -----

  /** A proof takes the root of the memory twice before the step, and once after it. */
  ghost function IterNoted(acc: Account, proof: bool, preimages: Bytes32 -> seq<byte>, t: Progress): Account {
    if proof then Note(StepNoted(Note(acc, H.TakeRoot), true, preimages, t), H.TakeRoot)
    else StepNoted(acc, false, preimages, t)
  }

  ghost function RunNoted(K: Hash, preimages: Bytes32 -> seq<byte>, acc: Account, t: Progress, proofAt: u64 -> bool,
                          n: nat): Account
  {
    if n == 0 then acc
    else
      var before := RunNoted(K, preimages, acc, t, proofAt, n - 1);
      match VmRun(K, preimages, t, n - 1)
      case None => before
      case Some(u) => IterNoted(before, proofAt(u.cpu.step), preimages, u)
  }

  /** Step k is proved, or writes only where that is allowed after the steps before it. */
  ghost predicate StepAllowed(K: Hash, preimages: Bytes32 -> seq<byte>, acc: Account, t: Progress, proofAt: u64 -> bool, k: nat) {
    match VmRun(K, preimages, t, k)
    case None => true
    case Some(u) =>
      proofAt(u.cpu.step)
      || StepNoted(Account(true, RunNoted(K, preimages, acc, t, proofAt, k).marks), false, preimages, u).guarded
  }

  /** The steps that are proved do no harm: a run is guarded if and only if all its other steps are
      allowed. */
  lemma {:induction false} RunGuardedIff(K: Hash, preimages: Bytes32 -> seq<byte>, acc: Account, t: Progress,
                                         proofAt: u64 -> bool, n: nat)
    ensures RunNoted(K, preimages, acc, t, proofAt, n).guarded
       <==> acc.guarded && forall k: nat :: k < n ==> StepAllowed(K, preimages, acc, t, proofAt, k)
  {
    hide StepNoted, VmRun, IterNoted;
    if n > 0 {
      RunGuardedIff(K, preimages, acc, t, proofAt, n - 1);
      var before, r := RunNoted(K, preimages, acc, t, proofAt, n - 1), VmRun(K, preimages, t, n - 1);
      if r.Some? {
        IterGuarded(before, proofAt(r.value.cpu.step), preimages, r.value);
      }
      assert RunNoted(K, preimages, acc, t, proofAt, n).guarded
        <==> before.guarded && StepAllowed(K, preimages, acc, t, proofAt, n - 1);
    }
  }

  lemma IterGuarded(acc: Account, proof: bool, preimages: Bytes32 -> seq<byte>, t: Progress)
    ensures IterNoted(acc, proof, preimages, t).guarded
       <==> acc.guarded && (proof || StepNoted(Account(true, acc.marks), false, preimages, t).guarded)
  {
    hide StepNote, Note;
    var once := Note(acc, H.TakeRoot);
    var twice := Note(once, H.TakeRoot);
    HashedAfter(acc, H.TakeRoot);
    HashedAfter(once, H.TakeRoot);
    ProvedStepKeeps(twice, PartOf(preimages), t.cpu, t.mem);
    HashedAfter(StepNote(twice, true, PartOf(preimages), t.cpu, t.mem), H.TakeRoot);
    StepSplits(acc, PartOf(preimages), t.cpu, t.mem);
  }

  /** Without a proof so far, and from a memory that was never hashed, every step is allowed. */
  lemma {:induction false} UnprovedRunIsGuarded(K: Hash, preimages: Bytes32 -> seq<byte>, acc: Account, t: Progress,
                                                proofAt: u64 -> bool, n: nat)
    requires acc.guarded && AllFresh(acc.marks)
    requires forall k: nat :: k < n ==>
      match VmRun(K, preimages, t, k) case None => true case Some(u) => !proofAt(u.cpu.step)
    ensures RunNoted(K, preimages, acc, t, proofAt, n).guarded && AllFresh(RunNoted(K, preimages, acc, t, proofAt, n).marks)
  {
    hide StepNoted, VmRun, AllFresh;
    if n > 0 {
      UnprovedRunIsGuarded(K, preimages, acc, t, proofAt, n - 1);
      var r := VmRun(K, preimages, t, n - 1);
      if r.Some? {
        FreshStepped(RunNoted(K, preimages, acc, t, proofAt, n - 1), preimages, r.value);
      }
    }
  }

  // ----- the loop -----

  /** One pass: a step, with its proof if one is wanted. */
  method Iterate(inst: InstrumentedState, proofAt: u64 -> bool, ghost oracle: R.Oracle) returns (proof: Option<StepProof>, ok: bool)
    requires inst.Valid() && inst.account.guarded && Extends(oracle, inst.preimageOracle)
    modifies inst, inst.state
    modifies inst.state.memory, inst.state.memory.nodes, inst.state.memory.dataArrays
    modifies inst.state.memory.cacheArrays, inst.state.memory.okArrays
    ensures inst.Valid() && inst.state.memory.Grew()
    ensures Next(inst.state.memory.K, inst.preimageOracle, old(Of(inst.Look()))) == if ok then Some(Of(inst.Look())) else None
    ensures ok ==>
      var t := old(Of(inst.Look())); inst.account == IterNoted(old(inst.account), proofAt(t.cpu.step), inst.preimageOracle, t)
    ensures ok ==> (proof.Some? <==> proofAt(old(Of(inst.Look())).cpu.step))
    ensures ok && proof.Some? ==> Proves(inst.state.memory.K, oracle, old(Of(inst.Look())), proof.value, Of(inst.Look()))
  {
    hide *;
    inst.LookIs();
    inst.StateFields();
    OfIs(inst.Look());
    label L:
    IterIs(inst.account, inst.preimageOracle, Of(inst.Look()));
    if proofAt(inst.state.step) {
      inst.ValidParts();
      TalliesIs(inst.state.memory, inst.account);
      proof, ok := IterateProved(inst, oracle);
    } else {
      ok := PlainStep(inst);
      proof := None;
    }
    inst.state.memory.GrewParts@L();
    inst.state.memory.GrewFrom();
  }

  lemma IterIs(acc: Account, preimages: Bytes32 -> seq<byte>, t: Progress)
    ensures IterNoted(acc, true, preimages, t) == Note(StepNoted(Note(acc, H.TakeRoot), true, preimages, t), H.TakeRoot)
    ensures IterNoted(acc, false, preimages, t) == StepNoted(acc, false, preimages, t)
  {
  }

  method IterateProved(inst: InstrumentedState, ghost oracle: R.Oracle) returns (proof: Option<StepProof>, ok: bool)
    requires inst.Valid() && inst.state.memory.Coherent() && Extends(oracle, inst.preimageOracle)
    modifies inst, inst.state
    modifies inst.state.memory, inst.state.memory.nodes, inst.state.memory.dataArrays
    modifies inst.state.memory.cacheArrays, inst.state.memory.okArrays
    ensures inst.Valid() && inst.state.memory.Grew()
    ensures Next(inst.state.memory.K, inst.preimageOracle, old(Of(inst.Look()))) == if ok then Some(Of(inst.Look())) else None
    ensures ok ==> inst.account == IterNoted(old(inst.account), true, inst.preimageOracle, old(Of(inst.Look())))
    ensures ok ==> proof.Some? && Proves(inst.state.memory.K, oracle, old(Of(inst.Look())), proof.value, Of(inst.Look()))
  {
    hide *;
    ghost var t := Of(inst.Look());
    IterIs(inst.account, inst.preimageOracle, t);
    var step := inst.state.step;
    var pre := HashState(inst);
    label L:
    var wit;
    wit, ok := ProvedStep(inst, oracle);
    inst.state.memory.GrewParts@L();
    inst.state.memory.GrewFrom();
    if !ok {
      return None, false;
    }
    ghost var u := Of(inst.Look());
    var post := HashState(inst);
    ProvesIs(inst.state.memory.K, oracle, t, StepProof(step, pre, post, wit), u);
    proof := Some(StepProof(step, pre, post, wit));
  }

  /** The hash of the state bytes. */
  method HashState(inst: InstrumentedState) returns (hash: Option<Bytes32>)
    requires inst.Valid() && inst.state.memory.Coherent()
    modifies inst`account, inst.state.memory.nodes`Hashes, inst.state.memory.nodes`HashValid
    modifies inst.state.memory.cacheArrays, inst.state.memory.okArrays
    ensures inst.Valid() && inst.state.memory.Coherent() && inst.account == Note(old(inst.account), H.TakeRoot)
    ensures Of(inst.Look()) == old(Of(inst.Look())) && Of(inst.Look()).cpu.step == inst.state.step
    ensures hash == W.StateHash(inst.state.memory.K, StateBytes(inst.state.memory.K, Of(inst.Look())))
  {
    hide *;
    ghost var v := inst.Look();
    var encoded := inst.EncodeState();
    SameProgress(v, inst.account);
    StateBytesIs(inst.state.memory.K, inst.Look());
    inst.LookIs();
    inst.StateFields();
    OfIs(inst.Look());
    hash := W.StateHash(inst.state.memory.K, encoded);
  }

  lemma ProvesIs(K: Hash, oracle: R.Oracle, t: Progress, p: StepProof, u: Progress)
    requires p.step == t.cpu.step && p.wit.state == StateBytes(K, t) && Follows(K, oracle, t, p.wit.memProof, u)
    requires p.pre == W.StateHash(K, StateBytes(K, t)) && p.post == W.StateHash(K, StateBytes(K, u))
    ensures Proves(K, oracle, t, p, u)
  {
  }

  /** The run command. (What else may end its loop stands in limit.) If all its steps are allowed, every
      proof that it writes goes from the true state before its step to the true state after it, with
      their hashes, and is accepted by the slow VM; and so is the hash of the last state. */
  method Run(inst: InstrumentedState, proofAt: u64 -> bool, limit: nat, ghost oracle: R.Oracle, ghost marks: nat -> H.Mark)
    returns (proofs: seq<StepProof>, stuck: bool, hash: Option<Bytes32>, ghost n: nat)
    requires inst.Valid() && inst.state.memory.Coherent() && H.Fit(inst.state.memory, marks)
    requires Extends(oracle, inst.preimageOracle)
    requires RunNoted(inst.state.memory.K, inst.preimageOracle, Account(true, marks), Of(inst.Look()), proofAt, limit).guarded
    modifies inst, inst.state
    modifies inst.state.memory, inst.state.memory.nodes, inst.state.memory.dataArrays
    modifies inst.state.memory.cacheArrays, inst.state.memory.okArrays
    ensures inst.Valid() && n <= limit
    ensures Proofs(inst.state.memory.K, inst.preimageOracle, oracle, old(Of(inst.Look())), proofAt, n, proofs)
    ensures RunEnds(inst.state.memory.K, inst.preimageOracle, old(Of(inst.Look())), n, limit, stuck, Of(inst.Look()))
    ensures !stuck ==> inst.state.memory.Coherent()
    ensures !stuck ==> hash == W.StateHash(inst.state.memory.K, StateBytes(inst.state.memory.K, Of(inst.Look())))
  {
    hide *;
    ghost var m := inst.state.memory;
    ghost var K, t, acc := m.K, Of(inst.Look()), Account(true, marks);
    SameProgress(inst.Look(), acc);
    inst.Know(marks);
    n, proofs, hash := 0, [], None;
    RunStarts(K, inst.preimageOracle, oracle, acc, t, proofAt);
    ExitedIs(inst);
    var left := limit;
    while left > 0 && !inst.state.exited
      invariant inst.Valid() && n + left == limit && inst.state.exited == Of(inst.Look()).cpu.exited
      invariant Along(K, inst.preimageOracle, oracle, acc, t, proofAt, n, proofs, inst.account, Of(inst.Look()))
      invariant m.nodes >= old(m.nodes) && fresh(m.nodes - old(m.nodes))
      invariant m.dataArrays >= old(m.dataArrays) && fresh(m.dataArrays - old(m.dataArrays))
      invariant m.cacheArrays >= old(m.cacheArrays) && fresh(m.cacheArrays - old(m.cacheArrays))
      invariant m.okArrays >= old(m.okArrays) && fresh(m.okArrays - old(m.okArrays))
    {
      label L:
      proofs, stuck := Pass(inst, proofAt, proofs, oracle, acc, t, n, limit);
      m.GrewParts@L();
      if stuck {
        return proofs, true, None, n;
      }
      n, left := n + 1, left - 1;
    }
    GuardAlong(K, inst.preimageOracle, oracle, acc, t, proofAt, n, proofs, inst.account, Of(inst.Look()), limit);
    inst.ValidParts();
    TalliesIs(m, inst.account);
    RunEndsAt(K, inst.preimageOracle, t, n, limit, Of(inst.Look()));
    hash := HashState(inst);
    stuck := false;
  }

  lemma ExitedIs(inst: InstrumentedState)
    ensures inst.state.exited == Of(inst.Look()).cpu.exited
  {
  }

  /** One pass of the loop, on the account of the run. */
  method Pass(inst: InstrumentedState, proofAt: u64 -> bool, proofs: seq<StepProof>, ghost oracle: R.Oracle, ghost acc: Account,
              ghost t: Progress, ghost n: nat, ghost limit: nat)
    returns (proofs': seq<StepProof>, stuck: bool)
    requires inst.Valid() && Extends(oracle, inst.preimageOracle) && n < limit && !inst.state.exited
    requires RunNoted(inst.state.memory.K, inst.preimageOracle, acc, t, proofAt, limit).guarded
    requires Along(inst.state.memory.K, inst.preimageOracle, oracle, acc, t, proofAt, n, proofs, inst.account, Of(inst.Look()))
    modifies inst, inst.state
    modifies inst.state.memory, inst.state.memory.nodes, inst.state.memory.dataArrays
    modifies inst.state.memory.cacheArrays, inst.state.memory.okArrays
    ensures inst.Valid() && inst.state.memory.Grew() && inst.state.exited == Of(inst.Look()).cpu.exited
    ensures stuck ==> Proofs(inst.state.memory.K, inst.preimageOracle, oracle, t, proofAt, n, proofs')
    ensures stuck ==> RunEnds(inst.state.memory.K, inst.preimageOracle, t, n, limit, true, Of(inst.Look()))
    ensures !stuck ==>
      Along(inst.state.memory.K, inst.preimageOracle, oracle, acc, t, proofAt, n + 1, proofs', inst.account, Of(inst.Look()))
  {
    hide *;
    ghost var K, now, u := inst.state.memory.K, inst.account, Of(inst.Look());
    ExitedIs(inst);
    GuardAlong(K, inst.preimageOracle, oracle, acc, t, proofAt, n, proofs, now, u, limit);
    var proof, ok := Iterate(inst, proofAt, oracle);
    ExitedIs(inst);
    proofs', stuck := proofs, !ok;
    if !ok {
      StuckEnds(K, inst.preimageOracle, t, n, limit, u, Of(inst.Look()));
      return;
    }
    AlongOn(K, inst.preimageOracle, oracle, acc, t, proofAt, n, proofs, proof, now, u, inst.account, Of(inst.Look()));
    if proof.Some? {
      proofs' := proofs + [proof.value];
    }
  }

  /** How the loop ends: at an instruction that cannot be carried out, or at its limit or the exit of the
      program. */
  ghost predicate RunEnds(K: Hash, preimages: Bytes32 -> seq<byte>, t: Progress, n: nat, limit: nat, stuck: bool, end: Progress) {
    var r := VmRun(K, preimages, t, n);
    r.Some? && if stuck then n < limit && !r.value.cpu.exited && Next(K, preimages, r.value).None?
               else r.value == end && (n == limit || end.cpu.exited)
  }

  lemma StuckEnds(K: Hash, preimages: Bytes32 -> seq<byte>, t: Progress, n: nat, limit: nat, u: Progress, end: Progress)
    requires VmRun(K, preimages, t, n) == Some(u) && n < limit && !u.cpu.exited && Next(K, preimages, u).None?
    ensures RunEnds(K, preimages, t, n, limit, true, end)
  {
    hide VmRun, Next;
  }

  lemma RunEndsAt(K: Hash, preimages: Bytes32 -> seq<byte>, t: Progress, n: nat, limit: nat, end: Progress)
    requires VmRun(K, preimages, t, n) == Some(end) && (n == limit || end.cpu.exited)
    ensures RunEnds(K, preimages, t, n, limit, false, end)
  {
    hide VmRun, Next;
  }

  /** The state of the loop after n steps. */
  ghost predicate Along(K: Hash, preimages: Bytes32 -> seq<byte>, oracle: R.Oracle, acc: Account, t: Progress, proofAt: u64 -> bool,
                        n: nat, proofs: seq<StepProof>, now: Account, u: Progress)
  {
    && VmRun(K, preimages, t, n) == Some(u) && now == RunNoted(K, preimages, acc, t, proofAt, n)
    && Proofs(K, preimages, oracle, t, proofAt, n, proofs)
  }

  lemma RunStarts(K: Hash, preimages: Bytes32 -> seq<byte>, oracle: R.Oracle, acc: Account, t: Progress, proofAt: u64 -> bool)
    ensures Along(K, preimages, oracle, acc, t, proofAt, 0, [], acc, t)
  {
  }

  /** The guard of a run is one for each of its beginnings. */
  lemma GuardAlong(K: Hash, preimages: Bytes32 -> seq<byte>, oracle: R.Oracle, acc: Account, t: Progress, proofAt: u64 -> bool,
                   n: nat, proofs: seq<StepProof>, now: Account, u: Progress, limit: nat)
    requires n <= limit && RunNoted(K, preimages, acc, t, proofAt, limit).guarded
    requires Along(K, preimages, oracle, acc, t, proofAt, n, proofs, now, u)
    ensures now.guarded && VmRun(K, preimages, t, n) == Some(u) && Proofs(K, preimages, oracle, t, proofAt, n, proofs)
  {
    hide RunNoted, StepAllowed, VmRun, Proofs;
    RunGuardedIff(K, preimages, acc, t, proofAt, n);
    RunGuardedIff(K, preimages, acc, t, proofAt, limit);
  }

  lemma AlongOn(K: Hash, preimages: Bytes32 -> seq<byte>, oracle: R.Oracle, acc: Account, t: Progress, proofAt: u64 -> bool,
                n: nat, proofs: seq<StepProof>, proof: Option<StepProof>, now: Account, u: Progress, now': Account, u': Progress)
    requires Along(K, preimages, oracle, acc, t, proofAt, n, proofs, now, u) && Next(K, preimages, u) == Some(u')
    requires (proof.Some? <==> proofAt(u.cpu.step)) && (proof.Some? ==> Proves(K, oracle, u, proof.value, u'))
    requires now' == IterNoted(now, proofAt(u.cpu.step), preimages, u)
    ensures Along(K, preimages, oracle, acc, t, proofAt, n + 1, if proof.Some? then proofs + [proof.value] else proofs, now', u')
  {
    hide VmRun, Proves, IterNoted, Next;
    VmRunOn(K, preimages, t, n);
    if proof.Some? {
      assert (proofs + [proof.value])[..|proofs|] == proofs;
    }
  }
}
