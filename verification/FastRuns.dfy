/** Runs of the fast VM: what its steps leave behind as a function of what they start from, the hints
    along a run, the run in which only the last step is proved (rvgo/cmd/run.go), and the loop by
    which the repository compares its two VMs (rvgo/test/vm_go_test.go). */
module FastRuns {
  import opened Words
  import opened Bytes
  import opened FlatMemory
  import opened Cpu
  import opened Hints
  import opened Accounts
  import opened FastVm
  import opened OneStep
  import R = Reference
  import W = Witness
  import Sim = Simulation
  import Slow = SlowVm
  import H = History

  // ----- steps as a function -----

  /** What a step hands on to the next one, and what it has put out. */
  datatype Progress = Progress(
    cpu: Cpu, mem: Flat, lastHint: seq<byte>, hints: seq<seq<byte>>, output: seq<(u64, seq<byte>)>)

  ghost function Of(v: View): Progress {
    Progress(v.cpu, v.mem, v.lastHint, v.hints, v.output)
  }

  /** Output to a file descriptor; a hint write panics if the hint buffer does. */
  ghost function Put(t: Progress, fd: u64, data: seq<byte>): Option<Progress> {
    if fd == FD_HINT_WRITE then
      match ProcessHints(t.lastHint + data)
      case None => None
      case Some((more, rest)) => Some(t.(hints := t.hints + more, lastHint := rest))
    else Some(t.(output := t.output + [(fd, data)]))
  }

  /** The fast VM's step: the reference step, and its output, if there is some and it can be made. */
  ghost function Next(K: Hash, preimages: Bytes32 -> seq<byte>, t: Progress): Option<Progress> {
    match R.Step(K, PartOf(preimages), t.cpu, t.mem)
    case None => None
    case Some(o) =>
      var a := Pending(t.cpu, t.mem);
      var u := t.(cpu := o.cpu, mem := o.mem);
      if a.None? || !a.value.Output? then Some(u)
      else if !Fits(t.mem, a.value, t.lastHint) then None
      else Put(u, a.value.fd, ReadBytes(t.mem, a.value.addr, a.value.count))
  }

  /** Step computes this function. */
  lemma SteppedIsNext(K: Hash, preimages: Bytes32 -> seq<byte>, v: View, proof: bool, ok: bool, v': View)
    requires Stepped(K, preimages, Fresh(v, proof), ok, v')
    ensures ok == Next(K, preimages, Of(v)).Some?
    ensures ok ==> Next(K, preimages, Of(v)) == Some(Of(v'))
    ensures ok && proof ==> v'.proofs == R.Step(K, PartOf(preimages), v.cpu, v.mem).value.proofs
  {
    hide R.Step, Pending, ProcessHints, ReadBytes, Noted, Prefixed;
  }

  /** Where the slow VM accepts the branches of the reference, the fast VM fails if and only if the
      instruction reads on at the end of a preimage or its output does not fit. */
  lemma FailsExactly(K: Hash, preimages: Bytes32 -> seq<byte>, oracle: R.Oracle, t: Progress, tail: seq<byte>)
    requires Serves(oracle, preimages) && R.Step(K, oracle, t.cpu, t.mem).Some?
    ensures var o := R.Step(K, oracle, t.cpu, t.mem).value;
      Slow.StepBytes(K, oracle, StateOf(K, t.cpu, t.mem), Sim.Flatten(o.proofs) + tail) == Some(StateOf(K, o.cpu, o.mem))
    ensures Next(K, preimages, t).None? <==>
      || AtEnd(preimages, t.cpu, t.mem)
      || (Pending(t.cpu, t.mem).Some? && !Fits(t.mem, Pending(t.cpu, t.mem).value, t.lastHint))
  {
    BranchesAccepted(K, oracle, t.cpu, t.mem, tail);
    StepsDiffer(K, preimages, oracle, t.cpu, t.mem);
    hide R.Step, Slow.StepBytes, W.Encode, ReadBytes, Root, Decode, R.Instruction, Prefixed, PartAt, Serves;
    PutFits(t);
  }

  lemma PutFits(t: Progress)
    ensures var a := Pending(t.cpu, t.mem); a.Some? && a.value.Output? && Fits(t.mem, a.value, t.lastHint) ==>
      forall u: Progress :: u.lastHint == t.lastHint ==> Put(u, a.value.fd, ReadBytes(t.mem, a.value.addr, a.value.count)).Some?
  {
    hide Pending, ProcessHints, ReadBytes;
  }

  /** What a step does to the account of the caches. */
  lemma SteppedAccount(K: Hash, preimages: Bytes32 -> seq<byte>, v: View, proof: bool, ok: bool, v': View)
    requires Stepped(K, preimages, Fresh(v, proof), ok, v')
    ensures !ok ==> v'.account.guarded == v.account.guarded
    ensures ok ==> v'.account == StepNoted(v.account, proof, preimages, Of(v))
  {
    hide R.Step, Pending, ProcessHints, ReadBytes, Noted, Prefixed, StepNote, H.After;
  }

  /** The account after a step, with or without proofs. */
  ghost function StepNoted(acc: Account, proof: bool, preimages: Bytes32 -> seq<byte>, t: Progress): Account {
    StepNote(if proof then Note(acc, H.TakeRoot) else acc, proof, PartOf(preimages), t.cpu, t.mem)
  }

  // ----- runs -----

  ghost function VmRun(K: Hash, preimages: Bytes32 -> seq<byte>, t: Progress, n: nat): Option<Progress> {
    if n == 0 then Some(t)
    else
      match VmRun(K, preimages, t, n - 1)
      case None => None
      case Some(u) => Next(K, preimages, u)
  }

  /** In registers and memory a run of the fast VM is a run of the reference. */
  lemma {:induction false} VmRunIsRun(K: Hash, preimages: Bytes32 -> seq<byte>, t: Progress, n: nat)
    requires VmRun(K, preimages, t, n).Some?
    ensures var u := VmRun(K, preimages, t, n).value;
      Run(K, PartOf(preimages), t.cpu, t.mem, n) == Some((u.cpu, u.mem))
  {
    hide R.Step, Pending, ProcessHints, ReadBytes, Run, Fits;
    if n == 0 {
      RunNone(K, PartOf(preimages), t.cpu, t.mem);
    } else {
      VmRunIsRun(K, preimages, t, n - 1);
      RunOn(K, PartOf(preimages), t.cpu, t.mem, n - 1);
    }
  }

  lemma RunNone(K: Hash, oracle: R.Oracle, c: Cpu, m: Flat)
    ensures Run(K, oracle, c, m, 0) == Some((c, m))
  {
  }

  // ----- hints along a run -----

  /** What a step writes to the hint descriptor. */
  ghost function HintOf(t: Progress): seq<seq<byte>> {
    var a := Pending(t.cpu, t.mem);
    if a.Some? && a.value.Output? && a.value.fd == FD_HINT_WRITE then [ReadBytes(t.mem, a.value.addr, a.value.count)] else []
  }

  ghost function HintWrites(K: Hash, preimages: Bytes32 -> seq<byte>, t: Progress, n: nat): seq<seq<byte>>
  {
    if n == 0 then []
    else
      HintWrites(K, preimages, t, n - 1)
      + match VmRun(K, preimages, t, n - 1)
        case None => []
        case Some(u) => HintOf(u)
  }

  lemma NextHints(K: Hash, preimages: Bytes32 -> seq<byte>, t: Progress)
    requires Next(K, preimages, t).Some?
    ensures var u := Next(K, preimages, t).value;
      if HintOf(t) == [] then u.hints == t.hints && u.lastHint == t.lastHint
      else |HintOf(t)| == 1 && var r := ProcessHints(t.lastHint + HintOf(t)[0]);
        r.Some? && u.hints == t.hints + r.value.0 && u.lastHint == r.value.1
  {
    hide R.Step, Pending, ProcessHints, ReadBytes, OutputFits;
  }

  lemma HintWritesOn(K: Hash, preimages: Bytes32 -> seq<byte>, t: Progress, n: nat)
    requires n > 0 && VmRun(K, preimages, t, n).Some?
    ensures VmRun(K, preimages, t, n - 1).Some?
    ensures VmRun(K, preimages, t, n) == Next(K, preimages, VmRun(K, preimages, t, n - 1).value)
    ensures HintWrites(K, preimages, t, n) == HintWrites(K, preimages, t, n - 1) + HintOf(VmRun(K, preimages, t, n - 1).value)
  {
    hide Next, HintOf;
  }

  lemma FeedOn(chunks: seq<seq<byte>>, chunk: seq<byte>)
    requires Feed(chunks).Some?
    ensures Feed(chunks + [chunk]) == match ProcessHints(Feed(chunks).value.1 + chunk)
      case None => None
      case Some((more, rest)) => Some((Feed(chunks).value.0 + more, rest))
  {
    hide ProcessHints;
    var all := chunks + [chunk];
    assert all[..|all| - 1] == chunks && all[|all| - 1] == chunk;
  }

  /** What is left over of the stream, and of one buffer. */
  lemma FeedOne(buffer: seq<byte>)
    requires TakeMessage(buffer).Nothing?
    ensures Feed([buffer]) == Some(([], buffer))
  {
    hide ProcessHints;
    ProcessesMessages(buffer);
    assert Feed([]) == Some(([], []));
    assert Messages(buffer) == ([], buffer);
    FeedOn([], buffer);
    assert [] + [buffer] == [buffer] && [] + buffer == buffer;
    assert Feed([]).value.0 + Messages(buffer).0 == [];
  }

  lemma NoWrites(K: Hash, preimages: Bytes32 -> seq<byte>, t: Progress)
    ensures VmRun(K, preimages, t, 0) == Some(t) && HintWrites(K, preimages, t, 0) == []
  {
  }

  /** A run feeds its hint writes, one after the other, behind what the buffer held. */
  lemma {:induction false} RunFeeds(K: Hash, preimages: Bytes32 -> seq<byte>, t: Progress, n: nat)
    requires VmRun(K, preimages, t, n).Some? && TakeMessage(t.lastHint).Nothing?
    ensures var u := VmRun(K, preimages, t, n).value;
      var fed := Feed([t.lastHint] + HintWrites(K, preimages, t, n));
      fed.Some? && u.hints == t.hints + fed.value.0 && u.lastHint == fed.value.1
  {
    hide *;
    var first := [t.lastHint];
    if n == 0 {
      NoWrites(K, preimages, t);
      FeedOne(t.lastHint);
      assert first + [] == first && t.hints + [] == t.hints;
    } else {
      HintWritesOn(K, preimages, t, n);
      RunFeeds(K, preimages, t, n - 1);
      var u := VmRun(K, preimages, t, n - 1).value;
      NextHints(K, preimages, u);
      var before, hint := first + HintWrites(K, preimages, t, n - 1), HintOf(u);
      assert first + (HintWrites(K, preimages, t, n - 1) + hint) == before + hint;
      if hint == [] {
        assert before + hint == before;
      } else {
        assert hint == [hint[0]];
        FeedOn(before, hint[0]);
      }
    }
  }

  /** Along every run, the hints delivered are the complete messages of the stream of all hint
      writes in order, and the buffer holds the incomplete rest, however the program has cut the
      stream into writes. */
  lemma HintsAlongRun(K: Hash, preimages: Bytes32 -> seq<byte>, t: Progress, n: nat)
    requires VmRun(K, preimages, t, n).Some? && TakeMessage(t.lastHint).Nothing?
    requires BuffersFit([t.lastHint] + HintWrites(K, preimages, t, n))
    ensures var u := VmRun(K, preimages, t, n).value;
      var stream := Stream([t.lastHint] + HintWrites(K, preimages, t, n));
      u.hints == t.hints + Messages(stream).0 && u.lastHint == Messages(stream).1
  {
    hide *;
    RunFeeds(K, preimages, t, n);
    ChunkingIsInvisible([t.lastHint] + HintWrites(K, preimages, t, n));
  }

  // ----- the two VMs side by side -----

  ghost function StateBytes(K: Hash, t: Progress): seq<byte> {
    StateOf(K, t.cpu, t.mem)
  }

  /** A step without proofs. */
  method PlainStep(inst: InstrumentedState) returns (ok: bool)
    requires inst.Valid()
    modifies inst, inst.state
    modifies inst.state.memory, inst.state.memory.nodes, inst.state.memory.dataArrays
    modifies inst.state.memory.cacheArrays, inst.state.memory.okArrays
    ensures inst.Valid() && inst.state.memory.Grew()
    ensures Next(inst.state.memory.K, inst.preimageOracle, old(Of(inst.Look()))) == if ok then Some(Of(inst.Look())) else None
    ensures ok ==> inst.account == StepNoted(old(inst.account), false, inst.preimageOracle, old(Of(inst.Look())))
    ensures !ok ==> inst.account.guarded == old(inst.account).guarded
  {
    hide *;
    ghost var K, v := inst.state.memory.K, inst.Look();
    inst.LookIs();
    var _, stepped := inst.Step(false);
    ok := stepped;
    inst.LookIs();
    SteppedIsNext(K, inst.preimageOracle, v, false, ok, inst.Look());
    SteppedAccount(K, inst.preimageOracle, v, false, ok, inst.Look());
  }

  /** A step with proofs: if it can be made, the slow VM accepts its proof and gets the same bytes. */
  method ProvedStep(inst: InstrumentedState, ghost oracle: R.Oracle) returns (wit: StepWitness, ok: bool)
    requires inst.Valid() && inst.state.memory.Coherent() && Extends(oracle, inst.preimageOracle)
    modifies inst, inst.state
    modifies inst.state.memory, inst.state.memory.nodes, inst.state.memory.dataArrays
    modifies inst.state.memory.cacheArrays, inst.state.memory.okArrays
    ensures inst.Valid() && inst.memProofEnabled && inst.state.memory.Coherent() && inst.state.memory.Grew()
    ensures Next(inst.state.memory.K, inst.preimageOracle, old(Of(inst.Look()))) == if ok then Some(Of(inst.Look())) else None
    ensures wit.state == StateBytes(inst.state.memory.K, old(Of(inst.Look())))
    ensures ok ==> Follows(inst.state.memory.K, oracle, old(Of(inst.Look())), wit.memProof, Of(inst.Look()))
    ensures ok ==> inst.account == StepNoted(old(inst.account), true, inst.preimageOracle, old(Of(inst.Look())))
  {
    hide *;
    ghost var K, v := inst.state.memory.K, inst.Look();
    inst.LookIs();
    var some;
    some, ok := inst.Step(true);
    wit := some.value;
    inst.ValidParts();
    inst.LookIs();
    SteppedIsNext(K, inst.preimageOracle, v, true, ok, inst.Look());
    SteppedAccount(K, inst.preimageOracle, v, true, ok, inst.Look());
    StateBytesIs(K, v);
    if ok {
      StepFollows(K, inst.preimageOracle, oracle, v, inst.Look(), wit);
    }
  }

  /** One recorded step, repeated by the slow VM: if the fast VM can make the step, the slow VM
      accepts its proof and gets the same bytes and the same hash. */
  method CompareStep(inst: InstrumentedState, oracle: R.Oracle) returns (ok: bool, proof: seq<byte>, differ: bool)
    requires inst.Valid() && inst.state.memory.Coherent() && Extends(oracle, inst.preimageOracle)
    modifies inst, inst.state
    modifies inst.state.memory, inst.state.memory.nodes, inst.state.memory.dataArrays
    modifies inst.state.memory.cacheArrays, inst.state.memory.okArrays
    ensures inst.Valid() && inst.state.memory.Coherent() && inst.state.memory.Grew()
    ensures Next(inst.state.memory.K, inst.preimageOracle, old(Of(inst.Look()))) == if ok then Some(Of(inst.Look())) else None
    ensures ok ==> Follows(inst.state.memory.K, oracle, old(Of(inst.Look())), proof, Of(inst.Look()))
    ensures !differ
  {
    hide *;
    ghost var t := Of(inst.Look());
    label L:
    var wit;
    wit, ok := ProvedStep(inst, oracle);
    inst.state.memory.GrewParts@L();
    inst.state.memory.GrewFrom();
    proof := wit.memProof;
    if !ok {
      return false, proof, false;
    }
    FollowsIs(inst.state.memory.K, oracle, t, proof, inst.Look());
    differ := CompareHashes(inst, oracle, wit);
  }

  /** The slow VM accepts a proof and goes from one state to the other. */
  ghost predicate Follows(K: Hash, oracle: R.Oracle, t: Progress, proof: seq<byte>, u: Progress) {
    |StateBytes(K, t)| == W.STATE_SIZE && Slow.StepBytes(K, oracle, StateBytes(K, t), proof) == Some(StateBytes(K, u))
  }

  lemma FollowsIs(K: Hash, oracle: R.Oracle, t: Progress, proof: seq<byte>, v: View)
    requires Follows(K, oracle, t, proof, Of(v))
    ensures |StateBytes(K, t)| == W.STATE_SIZE
    ensures Slow.StepBytes(K, oracle, StateBytes(K, t), proof) == Some(W.Encode(Root(K, v.mem), v.cpu))
  {
    hide Slow.StepBytes, W.Encode, Root;
  }

  lemma StepFollows(K: Hash, preimages: Bytes32 -> seq<byte>, oracle: R.Oracle, v: View, v': View, wit: StepWitness)
    requires Extends(oracle, preimages) && Next(K, preimages, Of(v)) == Some(Of(v'))
    requires v'.proofs == R.Step(K, PartOf(preimages), v.cpu, v.mem).value.proofs
    requires wit.state == W.Encode(Root(K, v.mem), v.cpu) && wit.memProof == Sim.Flatten(v'.proofs)
    ensures Follows(K, oracle, Of(v), wit.memProof, Of(v')) && wit.state == StateBytes(K, Of(v))
    ensures |wit.state| == W.STATE_SIZE
    ensures Slow.StepBytes(K, oracle, wit.state, wit.memProof) == Some(W.Encode(Root(K, v'.mem), v'.cpu))
  {
    hide R.Step, Pending, ProcessHints, ReadBytes, Extends, Slow.StepBytes, W.Encode, Root, Sim.Flatten;
    WitnessAccepted(K, preimages, oracle, v.cpu, v.mem, []);
    assert wit.memProof + [] == wit.memProof;
  }

  method CompareHashes(inst: InstrumentedState, oracle: R.Oracle, wit: StepWitness) returns (differ: bool)
    requires inst.Valid() && inst.state.memory.Coherent() && |wit.state| == W.STATE_SIZE
    requires Slow.StepBytes(inst.state.memory.K, oracle, wit.state, wit.memProof)
          == Some(W.Encode(Root(inst.state.memory.K, inst.Look().mem), inst.Look().cpu))
    modifies inst`account, inst.state.memory.nodes`Hashes, inst.state.memory.nodes`HashValid
    modifies inst.state.memory.cacheArrays, inst.state.memory.okArrays
    ensures inst.Valid() && inst.state.memory.Coherent()
    ensures Of(inst.Look()) == old(Of(inst.Look())) && !differ
  {
    hide *;
    inst.LookIs();
    inst.ValidParts();
    ghost var v := inst.Look();
    var fastPost := inst.EncodeState();
    SameProgress(v, inst.account);
    inst.LookIs();
    var fastHash := W.StateHash(inst.state.memory.K, fastPost);
    var slowHash := Slow.Step(inst.state.memory.K, oracle, wit.state, wit.memProof);
    W.EncodedHash(inst.state.memory.K, Root(inst.state.memory.K, inst.state.memory.flat), inst.state.ToCpu());
    differ := fastHash != slowHash;
  }

  /** n steps of the fast VM, with the proofs by which the slow VM has repeated them. */
  ghost predicate Compared(K: Hash, preimages: Bytes32 -> seq<byte>, oracle: R.Oracle, t: Progress, proofs: seq<seq<byte>>, u: Progress) {
    && VmRun(K, preimages, t, |proofs|) == Some(u)
    && SlowRun(K, oracle, StateBytes(K, t), proofs) == Some(StateBytes(K, u))
  }

  lemma ComparedNone(K: Hash, preimages: Bytes32 -> seq<byte>, oracle: R.Oracle, t: Progress)
    ensures Compared(K, preimages, oracle, t, [], t)
  {
    hide W.Encode, Root;
    W.WitnessLength(Root(K, t.mem), t.cpu);
  }

  lemma ComparedOn(K: Hash, preimages: Bytes32 -> seq<byte>, oracle: R.Oracle, t: Progress, proofs: seq<seq<byte>>, u: Progress,
                   proof: seq<byte>, u': Progress)
    requires Compared(K, preimages, oracle, t, proofs, u)
    requires Next(K, preimages, u) == Some(u') && Follows(K, oracle, u, proof, u')
    ensures Compared(K, preimages, oracle, t, proofs + [proof], u')
  {
    hide Next, StateBytes, SlowRun, Slow.StepBytes;
    SlowRunOn(K, oracle, StateBytes(K, t), proofs, proof);
  }

  /** Runs both VMs side by side, up to a number of steps. It stops early only where the program has
      exited, or where the fast VM cannot go on; whatever was done until then, the slow VM has
      followed it on the recorded proofs, from state bytes to state bytes. */
  method CompareRun(inst: InstrumentedState, oracle: R.Oracle, limit: nat)
    returns (proofs: seq<seq<byte>>, stuck: bool, differ: bool, ghost end: Progress)
    requires inst.Valid() && inst.state.memory.Coherent() && Extends(oracle, inst.preimageOracle)
    modifies inst, inst.state
    modifies inst.state.memory, inst.state.memory.nodes, inst.state.memory.dataArrays
    modifies inst.state.memory.cacheArrays, inst.state.memory.okArrays
    ensures inst.Valid() && inst.state.memory.Coherent()
    ensures Compared(inst.state.memory.K, inst.preimageOracle, oracle, old(Of(inst.Look())), proofs, end)
    ensures Ended(inst.state.memory.K, inst.preimageOracle, |proofs|, limit, stuck, end, Of(inst.Look())) && !differ
  {
    hide *;
    ghost var m := inst.state.memory;
    ghost var t := Of(inst.Look());
    end, proofs := t, [];
    ComparedNone(m.K, inst.preimageOracle, oracle, t);
    inst.StateFields();
    inst.LookIs();
    OfIs(inst.Look());
    m.GrewNone();
    while |proofs| < limit && !inst.state.exited
      invariant inst.Valid() && m.Coherent() && |proofs| <= limit
      invariant Compared(m.K, inst.preimageOracle, oracle, t, proofs, end)
      invariant end == Of(inst.Look()) && inst.state.exited == end.cpu.exited
      invariant m.Grew()
    {
      m.GrewParts();
      label L:
      var ok, proof, different := CompareStep(inst, oracle);
      m.GrewParts@L();
      m.GrewFrom();
      if !ok {
        EndedIs(m.K, inst.preimageOracle, |proofs|, limit, true, end, Of(inst.Look()));
        return proofs, true, false, end;
      }
      ComparedOn(m.K, inst.preimageOracle, oracle, t, proofs, end, proof, Of(inst.Look()));
      end, proofs := Of(inst.Look()), proofs + [proof];
      inst.StateFields();
      inst.LookIs();
      OfIs(inst.Look());
    }
    EndedIs(m.K, inst.preimageOracle, |proofs|, limit, false, end, Of(inst.Look()));
    return proofs, false, false, end;
  }

  /** Why a run of n steps from which end was reached has stopped: it is stuck, or at its limit, or the
      program has exited. */
  ghost predicate Ended(K: Hash, preimages: Bytes32 -> seq<byte>, n: nat, limit: nat, stuck: bool, end: Progress, now: Progress) {
    n <= limit && if stuck then n < limit && !end.cpu.exited && Next(K, preimages, end).None?
                  else end == now && (n == limit || end.cpu.exited)
  }

  lemma EndedIs(K: Hash, preimages: Bytes32 -> seq<byte>, n: nat, limit: nat, stuck: bool, end: Progress, now: Progress)
    ensures Ended(K, preimages, n, limit, stuck, end, now) <==>
      n <= limit && if stuck then n < limit && !end.cpu.exited && Next(K, preimages, end).None?
                    else end == now && (n == limit || end.cpu.exited)
  {
    hide Next;
  }

  lemma SameProgress(v: View, account: Account)
    ensures Of(v.(account := account)) == Of(v)
  {
  }

  lemma OfIs(v: View)
    ensures Of(v).cpu == v.cpu && Of(v).mem == v.mem
  {
  }

  /** A run without proofs up to step n, which is proved unless the program has exited. Where no hash
      was taken of the memory before, the caches are coherent when the proof is taken, and the slow
      VM accepts it. */
  method RunThenProve(inst: InstrumentedState, n: nat, ghost oracle: R.Oracle) returns (wit: Option<StepWitness>, ok: bool)
    requires inst.Valid() && inst.state.memory.Coherent() && inst.state.memory.Unhashed()
    requires Extends(oracle, inst.preimageOracle)
    modifies inst, inst.state
    modifies inst.state.memory, inst.state.memory.nodes, inst.state.memory.dataArrays
    modifies inst.state.memory.cacheArrays, inst.state.memory.okArrays
    ensures inst.Valid() && inst.state.memory.Coherent()
    ensures Proved(inst.state.memory.K, inst.preimageOracle, oracle, old(Of(inst.Look())), n, wit, ok, Of(inst.Look()))
  {
    hide *;
    ghost var m := inst.state.memory;
    ghost var K, t := m.K, Of(inst.Look());
    inst.ValidParts();
    UnhashedFits(m);
    ghost var blank := BlankMarks(m.pages.Keys);
    SameProgress(inst.Look(), Account(true, blank));
    UntouchedStarts(K, inst.preimageOracle, t, blank);
    inst.Know(blank);
    for i := 0 to n
      invariant inst.Valid() && Untouched(K, inst.preimageOracle, t, i, inst.account, Of(inst.Look()))
      invariant m.nodes >= old(m.nodes) && fresh(m.nodes - old(m.nodes))
      invariant m.dataArrays >= old(m.dataArrays) && fresh(m.dataArrays - old(m.dataArrays))
      invariant m.cacheArrays >= old(m.cacheArrays) && fresh(m.cacheArrays - old(m.cacheArrays))
      invariant m.okArrays >= old(m.okArrays) && fresh(m.okArrays - old(m.okArrays))
    {
      ghost var acc, u := inst.account, Of(inst.Look());
      label L:
      ok := PlainStep(inst);
      m.GrewParts@L();
      if !ok {
        StuckBefore(K, inst.preimageOracle, oracle, t, i, n, acc, u, Of(inst.Look()));
        inst.ValidParts();
        TalliesIs(m, inst.account);
        return None, false;
      }
      UntouchedOn(K, inst.preimageOracle, t, i, acc, u, Of(inst.Look()));
    }
    wit, ok := LastStep(inst, oracle, t, n);
  }

  /** After n steps without proofs from a memory that was never hashed. */
  ghost predicate Untouched(K: Hash, preimages: Bytes32 -> seq<byte>, t: Progress, n: nat, acc: Account, u: Progress) {
    VmRun(K, preimages, t, n) == Some(u) && acc.guarded && AllFresh(acc.marks)
  }

  lemma UntouchedStarts(K: Hash, preimages: Bytes32 -> seq<byte>, t: Progress, marks: nat -> H.Mark)
    requires AllFresh(marks)
    ensures Untouched(K, preimages, t, 0, Account(true, marks), t)
  {
  }

  lemma UntouchedIs(K: Hash, preimages: Bytes32 -> seq<byte>, t: Progress, n: nat, acc: Account, u: Progress)
    requires Untouched(K, preimages, t, n, acc, u)
    ensures VmRun(K, preimages, t, n) == Some(u) && acc.guarded
  {
    hide VmRun;
  }

  lemma UntouchedOn(K: Hash, preimages: Bytes32 -> seq<byte>, t: Progress, n: nat, acc: Account, u: Progress, u': Progress)
    requires Untouched(K, preimages, t, n, acc, u) && Next(K, preimages, u) == Some(u')
    ensures Untouched(K, preimages, t, n + 1, StepNoted(acc, false, preimages, u), u')
  {
    hide VmRun, Next, StepNoted, AllFresh;
    VmRunOn(K, preimages, t, n);
    FreshStepped(acc, preimages, u);
  }

  lemma StuckBefore(K: Hash, preimages: Bytes32 -> seq<byte>, oracle: R.Oracle, t: Progress, i: nat, n: nat, acc: Account, u: Progress,
                    end: Progress)
    requires Untouched(K, preimages, t, i, acc, u) && Next(K, preimages, u).None? && i < n
    ensures acc.guarded && Proved(K, preimages, oracle, t, n, None, false, end)
  {
    hide VmRun, Next, AllFresh, Proved;
    VmRunOn(K, preimages, t, i);
    StuckStays(K, preimages, t, i + 1, n);
    NotProved(K, preimages, oracle, t, n, end);
  }

  lemma FreshStepped(acc: Account, preimages: Bytes32 -> seq<byte>, t: Progress)
    requires AllFresh(acc.marks)
    ensures var acc' := StepNoted(acc, false, preimages, t); AllFresh(acc'.marks) && acc'.guarded == acc.guarded
  {
    hide AllFresh, StepNote;
    FreshStep(acc, PartOf(preimages), t.cpu, t.mem);
  }

  method LastStep(inst: InstrumentedState, ghost oracle: R.Oracle, ghost t: Progress, ghost n: nat)
    returns (wit: Option<StepWitness>, ok: bool)
    requires inst.Valid() && Extends(oracle, inst.preimageOracle)
    requires Untouched(inst.state.memory.K, inst.preimageOracle, t, n, inst.account, Of(inst.Look()))
    modifies inst, inst.state
    modifies inst.state.memory, inst.state.memory.nodes, inst.state.memory.dataArrays
    modifies inst.state.memory.cacheArrays, inst.state.memory.okArrays
    ensures inst.Valid() && inst.state.memory.Coherent()
    ensures Proved(inst.state.memory.K, inst.preimageOracle, oracle, t, n, wit, ok, Of(inst.Look()))
  {
    hide *;
    ghost var K, u := inst.state.memory.K, Of(inst.Look());
    UntouchedIs(K, inst.preimageOracle, t, n, inst.account, u);
    inst.ValidParts();
    TalliesIs(inst.state.memory, inst.account);
    OfIs(inst.Look());
    inst.LookIs();
    inst.StateFields();
    NotProved(K, inst.preimageOracle, oracle, t, n, u);
    if inst.state.exited {
      return None, false;
    }
    var w;
    w, ok := ProvedStep(inst, oracle);
    ProvedIs(K, inst.preimageOracle, oracle, t, n, w, ok, u, Of(inst.Look()));
    wit := Some(w);
  }

  /** What the run up to step n has produced: a proof if and only if it got there and the program has
      not exited, from the state bytes it got to; accepted by the slow VM if the step can be made. */
  ghost predicate Proved(K: Hash, preimages: Bytes32 -> seq<byte>, oracle: R.Oracle, t: Progress, n: nat,
                         wit: Option<StepWitness>, ok: bool, end: Progress) {
    var r := VmRun(K, preimages, t, n);
    && (wit.Some? <==> r.Some? && !r.value.cpu.exited)
    && (wit.Some? ==> wit.value.state == StateBytes(K, r.value))
    && (wit.Some? ==> Next(K, preimages, r.value) == if ok then Some(end) else None)
    && (ok ==> wit.Some? && Follows(K, oracle, r.value, wit.value.memProof, end))
  }

  lemma ProvedIs(K: Hash, preimages: Bytes32 -> seq<byte>, oracle: R.Oracle, t: Progress, n: nat, wit: StepWitness, ok: bool,
                 u: Progress, end: Progress)
    requires VmRun(K, preimages, t, n) == Some(u) && !u.cpu.exited && wit.state == StateBytes(K, u)
    requires Next(K, preimages, u) == if ok then Some(end) else None
    requires ok ==> Follows(K, oracle, u, wit.memProof, end)
    ensures Proved(K, preimages, oracle, t, n, Some(wit), ok, end)
  {
    hide VmRun, Next, StateBytes, Follows;
  }

  lemma NotProved(K: Hash, preimages: Bytes32 -> seq<byte>, oracle: R.Oracle, t: Progress, n: nat, end: Progress)
    requires VmRun(K, preimages, t, n).Some? ==> VmRun(K, preimages, t, n) == Some(end)
    ensures VmRun(K, preimages, t, n).None? || end.cpu.exited ==> Proved(K, preimages, oracle, t, n, None, false, end)
  {
    hide VmRun, Next, StateBytes, Follows;
  }

  lemma StateBytesIs(K: Hash, v: View)
    ensures StateBytes(K, Of(v)) == W.Encode(Root(K, v.mem), v.cpu)
  {
  }

  lemma VmRunOn(K: Hash, preimages: Bytes32 -> seq<byte>, t: Progress, n: nat)
    requires VmRun(K, preimages, t, n).Some?
    ensures VmRun(K, preimages, t, n + 1) == Next(K, preimages, VmRun(K, preimages, t, n).value)
  {
  }

  lemma {:induction false} StuckStays(K: Hash, preimages: Bytes32 -> seq<byte>, t: Progress, n: nat, k: nat)
    requires VmRun(K, preimages, t, n).None? && n <= k
    ensures VmRun(K, preimages, t, k).None?
  {
    hide Next;
    if n < k {
      StuckStays(K, preimages, t, n, k - 1);
    }
  }
}
