/** What all instructions have in common, and the outcome of a program: where the pc goes, and that
    the exit code is what the program has handed to its exit call. */
module Execution {
  import opened Words
  import opened Bytes
  import opened FlatMemory
  import opened Cpu
  import opened Reference
  import opened Fields
  import opened Instructions
  import opened SystemCalls
  import opened OneStep
  import W = Witness

  /** The instruction is a call of exit or exit_group. */
  ghost predicate IsExit(c: Cpu, m: Flat) {
    Calls(c, m) && c.registers[17] in {93, 94}
  }

  /** The state after a call of exit. */
  function Exited(c: Cpu): Cpu {
    Next(c, Wrap(c.pc + 4), c.registers).(exited := true, exitCode := c.registers[10] % 256)
  }

  /** A step fails, or goes on to a pc with the exit status as it was. */
  ghost predicate GoesTo(K: Hash, oracle: Oracle, c: Cpu, m: Flat, pc: u64) {
    var o := Step(K, oracle, c, m);
    o.Some? ==> o.value.cpu.pc == pc && o.value.cpu.exited == c.exited && o.value.cpu.exitCode == c.exitCode
  }

  lemma CallGoesOn(K: Hash, oracle: Oracle, c: Cpu, m: Flat)
    requires Calls(c, m) && !IsExit(c, m)
    ensures GoesTo(K, oracle, c, m, Wrap(c.pc + 4))
  {
    hide Calls, Step, WriteBytes, ReadBytes, ToLE, Least;
    var number := c.registers[17];
    if number == 214 {
      AnswersBreak(K, oracle, c, m);
    } else if number == 222 {
      MapsMemory(K, oracle, c, m);
    } else if number == 63 {
      if c.registers[10] == 5 {
        ReadsPreimage(K, oracle, c, m);
      } else {
        ReadsInput(K, oracle, c, m);
      }
    } else if number == 64 {
      if c.registers[10] == 6 {
        WritesKey(K, oracle, c, m);
      } else {
        WritesOut(K, oracle, c, m);
      }
    } else if number == 25 {
      DescribesFile(K, oracle, c, m);
    } else if number in {113, 163} {
      Tells(K, oracle, c, m);
    } else {
      OtherCalls(K, oracle, c, m);
    }
  }

  lemma AtomicGoesOn(K: Hash, oracle: Oracle, c: Cpu, m: Flat)
    requires Fetches(c) && OpcodeOf(WordAt(m, c.pc)) == 0x2F
    ensures GoesTo(K, oracle, c, m, Wrap(c.pc + 4))
  {
    hide WordAt, Step, WriteBytes, ReadBytes, ToLE, FromLE, Loaded, Put, AtomicResult;
    if !AtomicAccess(c, m) {
      AtomicRefused(K, oracle, c, m);
    } else if Funct7Of(WordAt(m, c.pc)) / 4 == 2 {
      LoadsReserved(K, oracle, c, m);
    } else if Funct7Of(WordAt(m, c.pc)) / 4 == 3 {
      StoresConditionally(K, oracle, c, m);
    } else {
      ReadsModifiesWrites(K, oracle, c, m);
    }
  }

  /** Every instruction but the jumps, the branches and the exit calls. */
  lemma PlainGoesOn(K: Hash, oracle: Oracle, c: Cpu, m: Flat)
    requires Fetches(c) && OpcodeOf(WordAt(m, c.pc)) !in {0x63, 0x67, 0x6F} && !IsExit(c, m)
    ensures GoesTo(K, oracle, c, m, Wrap(c.pc + 4))
  {
    hide WordAt, Step, WriteBytes, ReadBytes, ToLE, FromLE, Loaded, Put, ImmI, ImmS, ImmU, Result;
    var opcode := OpcodeOf(WordAt(m, c.pc));
    if opcode == 0x03 {
      Loads(K, oracle, c, m);
    } else if opcode == 0x23 {
      Stores(K, oracle, c, m);
    } else if opcode in {0x13, 0x1B, 0x33, 0x3B} {
      Computes(K, oracle, c, m);
    } else if opcode in {0x37, 0x17} {
      LoadsUpper(K, oracle, c, m);
    } else if opcode == 0x2F {
      AtomicGoesOn(K, oracle, c, m);
    } else if opcode == 0x73 {
      if Calls(c, m) {
        CallGoesOn(K, oracle, c, m);
      } else {
        NoCalls(K, oracle, c, m);
      }
    } else {
      OtherOpcodes(K, oracle, c, m);
    }
  }

  /** An instruction that is no jump and no branch leads to the next one. */
  lemma GoesOn(K: Hash, oracle: Oracle, c: Cpu, m: Flat)
    requires !c.exited && Step(K, oracle, c, m).Some? && OpcodeOf(WordAt(m, c.pc)) !in {0x63, 0x67, 0x6F}
    ensures Step(K, oracle, c, m).value.cpu.pc == Wrap(c.pc + 4)
  {
    hide WordAt, Step, Calls;
    FetchFails(K, oracle, c, m);
    if IsExit(c, m) {
      Exits(K, oracle, c, m);
    } else {
      PlainGoesOn(K, oracle, c, m);
    }
  }

  /** Only a call of exit ends the program, and only it sets the exit code. */
  lemma OnlyExitEnds(K: Hash, oracle: Oracle, c: Cpu, m: Flat)
    requires !c.exited && Step(K, oracle, c, m).Some?
    ensures var o := Step(K, oracle, c, m).value;
      if IsExit(c, m) then o.cpu == Exited(c) && o.mem == m
      else !o.cpu.exited && o.cpu.exitCode == c.exitCode
  {
    hide WordAt, Step, Calls, Put, ImmB, ImmJ, ImmI, Taken;
    FetchFails(K, oracle, c, m);
    var opcode := OpcodeOf(WordAt(m, c.pc));
    if IsExit(c, m) {
      Exits(K, oracle, c, m);
    } else if opcode == 0x63 {
      Branches(K, oracle, c, m);
    } else if opcode == 0x6F {
      JumpAndLink(K, oracle, c, m);
    } else if opcode == 0x67 {
      JumpAndLinkRegister(K, oracle, c, m);
    } else {
      PlainGoesOn(K, oracle, c, m);
    }
  }

  // ----- the outcome of a run -----

  /** Step k of the run is the call of exit that leads to the state (c', m'). */
  ghost predicate ExitsAt(K: Hash, oracle: Oracle, c: Cpu, m: Flat, k: nat, c': Cpu, m': Flat) {
    var r := Run(K, oracle, c, m, k);
    r.Some? && IsExit(r.value.0, r.value.1) && c' == Exited(r.value.0) && m' == r.value.1
  }

  /** A run has ended if and only if one of its steps was a call of exit; its end is the state after
      that call, and its exit code the low byte of what A0 was then. */
  lemma {:induction false} RunOutcome(K: Hash, oracle: Oracle, c: Cpu, m: Flat, n: nat)
    requires Run(K, oracle, c, m, n).Some? && !c.exited
    ensures var (c', m') := Run(K, oracle, c, m, n).value;
      if c'.exited then exists k: nat :: k < n && ExitsAt(K, oracle, c, m, k, c', m')
      else c'.exitCode == c.exitCode && forall k: nat, d: Cpu, f: Flat :: k < n ==> !ExitsAt(K, oracle, c, m, k, d, f)
  {
    hide IsExit, Step, Run, Exited;
    if n == 0 {
      RunZero(K, oracle, c, m);
    } else {
      RunBack(K, oracle, c, m, n);
      var (d, f) := Run(K, oracle, c, m, n - 1).value;
      RunOutcome(K, oracle, c, m, n - 1);
      if d.exited {
        StaysExited(K, oracle, d, f);
      } else {
        OnlyExitEnds(K, oracle, d, f);
        if IsExit(d, f) {
          assert ExitsAt(K, oracle, c, m, n - 1, Exited(d), f);
          ExitedIs(d);
        }
      }
    }
  }

  /** What the state hash at the end of a run says: 3 if no step was a call of exit, and otherwise 0, 1
      or 2 for the exit code that the call was given. */
  lemma HashTellsOutcome(K: Hash, oracle: Oracle, c: Cpu, m: Flat, n: nat)
    requires Run(K, oracle, c, m, n).Some? && !c.exited
    ensures var (c', m') := Run(K, oracle, c, m, n).value;
      |W.Encode(Root(K, m'), c')| == W.STATE_SIZE
      && var status := W.SlowStateHash(K, W.Encode(Root(K, m'), c'))[0];
         if forall k: nat :: k < n ==> !CallsExit(K, oracle, c, m, k) then status == 3
         else exists k: nat :: k < n && CallsExit(K, oracle, c, m, k) && status == Status(ExitCode(K, oracle, c, m, k))
  {
    hide IsExit, Step, Run, Exited, W.Encode, W.SlowStateHash, Root;
    RunOutcome(K, oracle, c, m, n);
    var (c', m') := Run(K, oracle, c, m, n).value;
    W.EncodedHash(K, Root(K, m'), c');
    forall k: nat | k < n && CallsExit(K, oracle, c, m, k) ensures c'.exited {
      var (d, f) := Run(K, oracle, c, m, k).value;
      assert ExitsAt(K, oracle, c, m, k, Exited(d), f);
    }
    if c'.exited {
      var k: nat :| k < n && ExitsAt(K, oracle, c, m, k, c', m');
      ExitedIs(Run(K, oracle, c, m, k).value.0);
      assert CallsExit(K, oracle, c, m, k);
    }
  }

  /** The low byte of A0 before step k. */
  ghost function ExitCode(K: Hash, oracle: Oracle, c: Cpu, m: Flat, k: nat): byte {
    match Run(K, oracle, c, m, k)
    case None => 0
    case Some((d, _)) => d.registers[10] % 256
  }

  /** Valid, invalid, or a panic. */
  function Status(code: byte): byte {
    if code == 0 then 0 else if code == 1 then 1 else 2
  }

  /** Step k of the run is a call of exit. */
  ghost predicate CallsExit(K: Hash, oracle: Oracle, c: Cpu, m: Flat, k: nat) {
    var r := Run(K, oracle, c, m, k);
    r.Some? && IsExit(r.value.0, r.value.1)
  }

  lemma ExitedIs(c: Cpu)
    ensures Exited(c).exited && Exited(c).exitCode == c.registers[10] % 256
  {
  }

  lemma RunZero(K: Hash, oracle: Oracle, c: Cpu, m: Flat)
    ensures Run(K, oracle, c, m, 0) == Some((c, m))
  {
  }

  /** A run is a shorter run and one more step. */
  lemma RunBack(K: Hash, oracle: Oracle, c: Cpu, m: Flat, n: nat)
    requires n > 0 && Run(K, oracle, c, m, n).Some?
    ensures Run(K, oracle, c, m, n - 1).Some?
    ensures var (d, f) := Run(K, oracle, c, m, n - 1).value;
      Step(K, oracle, d, f).Some?
      && Run(K, oracle, c, m, n) == Some((Step(K, oracle, d, f).value.cpu, Step(K, oracle, d, f).value.mem))
  {
    hide Step, Run;
    RunPrefix(K, oracle, c, m, n - 1);
    RunOn(K, oracle, c, m, n - 1);
  }

  lemma {:induction false} RunPrefix(K: Hash, oracle: Oracle, c: Cpu, m: Flat, n: nat)
    requires Run(K, oracle, c, m, n + 1).Some?
    ensures Run(K, oracle, c, m, n).Some?
    decreases n
  {
    hide Step;
    if n > 0 {
      var o := Step(K, oracle, c, m).value;
      RunPrefix(K, oracle, o.cpu, o.mem, n - 1);
    }
  }
}
