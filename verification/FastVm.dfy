/** The fast VM (rvgo/fast/vm.go, rvgo/fast/instrumented.go, rvgo/fast/state.go): mutable
    state over the cached memory, and the record of memory branches that a proof needs. */
module FastVm {
  import opened Words
  import opened Bytes
  import opened FlatMemory
  import opened Yul64
  import opened Cpu
  import opened WordBytes
  import opened Reference
  import opened Hints
  import opened CachedMemory
  import opened MemoryRange
  import opened Accounts
  import Fast = FastYul64
  import Switch = Cpu
  import W = Witness
  import Sim = Simulation
  import H = History

  // ----- the preimage oracle, part by part -----

  /** A preimage is read with its length in eight bytes in front. */
  function Prefixed(data: seq<byte>): seq<byte> {
    ToBE(|data| % TWO64, 8) + data
  }

  lemma PrefixedIs(data: seq<byte>)
    requires |data| < TWO64
    ensures var s := Prefixed(data); |s| == 8 + |data| && FromBE(s[..8]) == |data| && s[8..] == data
  {
    IndexFits(|data|);
    SmallResidue(|data|, TWO64);
  }

  /** Up to 32 bytes from an offset; an offset at the end is out of bounds. */
  function PartAt(preimage: seq<byte>, offset: nat): Option<Reference.Chunk> {
    if offset >= |preimage| then None
    else
      var n := if |preimage| - offset < 32 then |preimage| - offset else 32;
      Some(Reference.Chunk(preimage[offset..offset + n] + Zeros(32 - n), n))
  }

  function PartOf(preimages: Bytes32 -> seq<byte>): Oracle {
    (key: Bytes32, offset: u64) => PartAt(Prefixed(preimages(key)), offset)
  }

  // ----- loading -----

  /** loadMem's sign extension: ones are or-ed in above the top bit. */
  function GoExtend(v: u64, size: nat): u64
    requires 1 <= size <= 8
  {
    var bitSize := 8 * size;
    if And64(Native, v, Shl64(Native, bitSize - 1, 1)) != 0
    then Or64(Native, v, Shl64(Native, bitSize, U64Mask(Native)))
    else v
  }

  lemma GoExtendIs(s: seq<byte>)
    requires 1 <= |s| <= 8
    ensures FromLE(s) < TWO64 && GoExtend(FromLE(s), |s|) == LoadValue(s, true)
    ensures LoadValue(s, false) == FromLE(s)
  {
    hide Pow2, Shl, Shr, And, Or, FromLE, Fast.Shl64, Fast.And64;
    var v, q := FromLE(s), 8 * |s|;
    FromLEBound(s);
    PowMonotone(q, 64);
    PowValues();
    Fast.PowBelow(q - 1);
    Fast.TopBit(v, q - 1);
    SmallResidue(v, Pow2(q));
    HighOnes(v, q);
  }

  lemma HighOnes(v: u64, q: nat)
    requires 8 <= q <= 64 && v < Pow2(q) <= TWO64
    ensures Or64(Native, v, Shl64(Native, q, Fast.U64_MASK)) == Wrap(v - Pow2(q))
  {
    hide Pow2, Shl, Shr, Or, Low, Fast.Shl64;
    PowValues();
    ModAddMul(v, -1, TWO64);
    if q == 64 {
      AndZero(v);
      WholeShift(Fast.U64_MASK);
    } else {
      AllOnesShifted(q);
      OrHighOnes(v, 64 - q, q);
      LowSmall(v, q);
      SmallResidue(v - Pow2(q) + TWO64, TWO64);
    }
  }

  lemma WholeShift(x: u64)
    ensures Fast.Shl64(64, x) == 0
  {
  }

  lemma AllOnesShifted(q: nat)
    requires 8 <= q < 64
    ensures Fast.Shl64(q, Fast.U64_MASK) == TWO64 - Pow2(q) == Shl(Pow2(64 - q) - 1, q)
  {
    hide Pow2, Shl, Fast.Shl64;
    var p := Pow2(q);
    PowValues();
    PowMonotone(q, 64);
    PowAdd(64 - q, q);
    ShlIsMul(TWO64 - 1, q);
    ShlIsMul(Pow2(64 - q) - 1, q);
    MulAdd(Pow2(64 - q), -1, p);
    Fast.SmallShift(q, Fast.U64_MASK);
    assert (TWO64 - 1) * p == (TWO64 - p) + (p - 1) * TWO64;
    ModAddMul(TWO64 - p, p - 1, TWO64);
    SmallResidue(TWO64 - p, TWO64);
  }

  // ----- the VM state -----

  class VMState {
    const memory: Memory
    var preimageKey: Bytes32
    var preimageOffset: u64
    var pc: u64
    var exitCode: byte
    var exited: bool
    var step: u64
    var heap: u64
    var loadReservation: u64
    var registers: Registers
    var lastHint: seq<byte>

    constructor (memory: Memory)
      ensures this.memory == memory
      ensures ToCpu() == Cpu(ZERO32, 0, 0, 0, false, 0, 0x1000_0000, 0, ZERO_REGISTERS) && lastHint == []
    {
      this.memory := memory;
      preimageKey, preimageOffset, pc, exitCode, exited, step := ZERO32, 0, 0, 0, false, 0;
      heap, loadReservation, registers, lastHint := 0x1000_0000, 0, ZERO_REGISTERS, [];
    }

    function ToCpu(): Cpu
      reads this
    {
      Cpu(preimageKey, preimageOffset, pc, exitCode, exited, step, heap, loadReservation, registers)
    }

    method Commit(next: Cpu)
      modifies this
      ensures ToCpu() == next && lastHint == old(lastHint)
    {
      preimageKey, preimageOffset, pc, exitCode := next.preimageKey, next.preimageOffset, next.pc, next.exitCode;
      exited, step, heap := next.exited, next.step, next.heap;
      loadReservation, registers := next.loadReservation, next.registers;
    }

    method SetRegister(reg: nat, v: u64)
      requires reg < 32
      modifies this
      ensures ToCpu() == Switch.SetRegister(old(ToCpu()), reg, v) && lastHint == old(lastHint)
    {
      if reg == 0 { // writes to x0 have no effect
        return;
      }
      registers := registers[reg := v];
    }

    /** EncodeWitness: the memory root and the registers, field after field. */
    method EncodeWitness() returns (out: seq<byte>)
      requires memory.Shape() && memory.Coherent()
      modifies memory.nodes`Hashes, memory.nodes`HashValid, memory.cacheArrays, memory.okArrays
      ensures memory.Shape() && memory.Coherent() && memory.Dirty() == {}
      ensures out == W.Encode(Root(memory.K, memory.flat), ToCpu())
    {
      hide *;
      var memRoot := memory.MerkleRoot();
      ghost var c := ToCpu();
      out := memRoot + preimageKey + W.U64Bytes(preimageOffset) + W.U64Bytes(pc) + [exitCode]
             + [if exited then 1 else 0] + W.U64Bytes(step) + W.U64Bytes(heap) + W.U64Bytes(loadReservation);
      CpuFields();
      HeadPacked(memRoot, c);
      PackedNone(out);
      for r := 0 to 32
        invariant memory.Shape() && memory.Coherent() && memory.Dirty() == {}
        invariant out == W.Pack(W.Head(memRoot, c)) + W.Pack(W.RegisterBytes(c.registers[..r]))
      {
        PackedRegister(c, r);
        out := out + W.U64Bytes(registers[r]);
      }
      AllPacked(memRoot, c);
    }

    lemma CpuFields()
      ensures var c := ToCpu();
        && c.preimageKey == preimageKey && c.preimageOffset == preimageOffset && c.pc == pc && c.exitCode == exitCode
        && c.exited == exited && c.step == step && c.heap == heap && c.loadReservation == loadReservation
        && c.registers == registers
    {
    }
  }

  lemma HeadPacked(root: Bytes32, c: Cpu)
    ensures W.Pack(W.Head(root, c)) == root + c.preimageKey + W.U64Bytes(c.preimageOffset) + W.U64Bytes(c.pc) + [c.exitCode]
      + [if c.exited then 1 else 0] + W.U64Bytes(c.step) + W.U64Bytes(c.heap) + W.U64Bytes(c.loadReservation)
  {
    hide W.U64Bytes;
    var h := W.Head(root, c);
    assert W.Pack(h[8..]) == h[8] + W.Pack(h[9..]) && W.Pack(h[9..]) == [];
    assert W.Pack(h[7..]) == h[7] + W.Pack(h[8..]) && W.Pack(h[6..]) == h[6] + W.Pack(h[7..]);
    assert W.Pack(h[5..]) == h[5] + W.Pack(h[6..]) && W.Pack(h[4..]) == h[4] + W.Pack(h[5..]);
    assert W.Pack(h[3..]) == h[3] + W.Pack(h[4..]) && W.Pack(h[2..]) == h[2] + W.Pack(h[3..]);
    assert W.Pack(h[1..]) == h[1] + W.Pack(h[2..]) && W.Pack(h) == h[0] + W.Pack(h[1..]);
  }

  lemma PackedNone(s: seq<byte>)
    ensures forall c: Cpu :: s + W.Pack(W.RegisterBytes(c.registers[..0])) == s
  {
  }

  lemma PackedRegister(c: Cpu, r: nat)
    requires r < 32
    ensures forall s: seq<byte> {:trigger s + W.Pack(W.RegisterBytes(c.registers[..r]))} ::
      s + W.Pack(W.RegisterBytes(c.registers[..r])) + W.U64Bytes(c.registers[r]) == s + W.Pack(W.RegisterBytes(c.registers[..r + 1]))
  {
    var one := [W.U64Bytes(c.registers[r])];
    assert W.RegisterBytes(c.registers[..r + 1]) == W.RegisterBytes(c.registers[..r]) + one;
    W.PackAppend(W.RegisterBytes(c.registers[..r]), one);
    assert W.Pack(one) == one[0] + W.Pack(one[1..]) == one[0];
  }

  lemma AllPacked(root: Bytes32, c: Cpu)
    ensures W.Encode(root, c) == W.Pack(W.Head(root, c)) + W.Pack(W.RegisterBytes(c.registers[..32]))
  {
    assert c.registers[..32] == c.registers;
    W.PackAppend(W.Head(root, c), W.RegisterBytes(c.registers));
  }

  // ----- instrumentation -----

  /** Everything a step may change, as values. */
  datatype View = View(
    cpu: Cpu, mem: Flat, recording: bool, proofs: seq<seq<Bytes32>>, lastHint: seq<byte>, hints: seq<seq<byte>>,
    output: seq<(u64, seq<byte>)>, lastPreimage: Option<seq<byte>>, lastPreimageKey: Bytes32, lastPreimageOffset: u64,
    account: Account)

  class InstrumentedState {
    const state: VMState
    const preimageOracle: Bytes32 -> seq<byte>
    var memProofEnabled: bool
    var memProofs: seq<seq<Bytes32>>
    var memAccess: seq<u64>
    /** What was fetched last: eight bytes of length, and the preimage. */
    var lastPreimage: Option<seq<byte>>
    var lastPreimageKey: Bytes32
    var lastPreimageOffset: u64
    /** What writing and hashing so far have done to the hash caches. */
    ghost var account: Account
    /** Everything that was handed to the oracle as a hint. */
    ghost var hints: seq<seq<byte>>
    /** Everything that was written to stdout and stderr. */
    ghost var output: seq<(u64, seq<byte>)>

    constructor (state: VMState, preimageOracle: Bytes32 -> seq<byte>)
      requires state.memory.Shape() && state.memory.LookupOk()
      ensures this.state == state && this.preimageOracle == preimageOracle
      ensures Valid() && !memProofEnabled && hints == [] && output == []
    {
      this.state, this.preimageOracle := state, preimageOracle;
      memProofEnabled, memProofs, memAccess := false, [], [];
      lastPreimage, lastPreimageKey, lastPreimageOffset := None, ZERO32, 0;
      hints, output := [], [];
      account := Account(false, (pi: nat) => H.Stale);
    }

    /** With proofs enabled the hash caches must be, and stay, coherent. */
    ghost predicate Valid()
      reads this, state.memory, state.memory.nodes, state.memory.dataArrays, state.memory.cacheArrays, state.memory.okArrays
    {
      && state.memory.Shape() && state.memory.LookupOk()
      && (lastPreimage.Some? ==> lastPreimage.value == Prefixed(preimageOracle(lastPreimageKey)))
      && (memProofEnabled ==> state.memory.Coherent() && |memProofs| == |memAccess|)
      && Tallies(state.memory, account)
    }

    /** Puts down what is known of the pages of a coherent memory. */
    ghost method Know(marks: nat -> H.Mark)
      requires Valid() && state.memory.Coherent() && H.Fit(state.memory, marks)
      modifies `account
      ensures Valid() && account == Account(true, marks) && Look() == old(Look()).(account := account)
    {
      hide Memory.Shape, Memory.LookupOk, Memory.Coherent, H.Fit, Prefixed;
      account := Account(true, marks);
    }

    ghost function Look(): View
      reads this, state, state.memory`flat
    {
      View(state.ToCpu(), state.memory.flat, memProofEnabled, memProofs, state.lastHint, hints, output,
           lastPreimage, lastPreimageKey, lastPreimageOffset, account)
    }

    lemma ValidParts()
      ensures Valid() ==> state.memory.Shape() && state.memory.LookupOk()
      ensures Valid() && memProofEnabled ==> state.memory.Coherent() && |memProofs| == |memAccess|
      ensures Valid() && lastPreimage.Some? ==> lastPreimage.value == Prefixed(preimageOracle(lastPreimageKey))
      ensures Valid() ==> Tallies(state.memory, account)
    {
    }

    /** In proof mode: records the branch of a leaf under the next free index. Taking it refreshes every
        page, so that the leaf can be written next. */
    method TrackMemAccess(effAddr: u64, proofIndex: nat) returns (ok: bool)
      requires Valid()
      modifies `memProofs, `memAccess, `account
      modifies state.memory.nodes`Hashes, state.memory.nodes`HashValid, state.memory.cacheArrays, state.memory.okArrays
      ensures Valid()
      ensures account == if ok then Track(old(account), memProofEnabled, effAddr) else old(account)
      ensures ok == (!memProofEnabled || (effAddr % 32 == 0 && old(|memProofs|) == proofIndex))
      ensures ok && memProofEnabled ==> state.memory.Dirty() == {}
      ensures ok && memProofEnabled ==> memAccess == old(memAccess) + [effAddr]
      ensures ok && memProofEnabled ==>
        memProofs == old(memProofs) + [ProofOf(state.memory.K, state.memory.flat, effAddr / 32)]
    {
      hide Memory.Shape, Memory.LookupOk, Memory.Coherent, Memory.Dirty, ProofOf, Prefixed, Note, Tallies;
      if !memProofEnabled {
        return true;
      }
      if Alignment(Native, effAddr) != 0 || |memProofs| != proofIndex {
        return false;
      }
      var branch := state.memory.MerkleProof(effAddr);
      HashTallies(state.memory, account, H.TakeProof(effAddr));
      account := Note(account, H.TakeProof(effAddr));
      memProofs := memProofs + [branch];
      memAccess := memAccess + [effAddr];
      return true;
    }

    /** In proof mode: a leaf may be written only under an index that holds its branch. */
    method VerifyMemChange(effAddr: u64, proofIndex: nat) returns (ok: bool)
      ensures ok == (!memProofEnabled || (proofIndex < |memAccess| && memAccess[proofIndex] == effAddr))
    {
      if !memProofEnabled {
        return true;
      }
      ok := proofIndex < |memAccess| && memAccess[proofIndex] == effAddr;
    }

    // ----- memory -----

    method GetMemoryB32(addr: u64, proofIndex: nat) returns (out: Option<Bytes32>)
      requires Valid()
      requires memProofEnabled ==> |memProofs| == proofIndex
      modifies `memProofs, `memAccess, `account
      modifies state.memory.nodes`Hashes, state.memory.nodes`HashValid, state.memory.cacheArrays, state.memory.okArrays
      modifies state.memory`lastPageKey0, state.memory`lastPageKey1, state.memory`lastPage0, state.memory`lastPage1
      ensures Valid()
      ensures out.Some? ==> account == Track(old(account), memProofEnabled, addr)
      ensures out.Some? <==> addr % 32 == 0
      ensures out.Some? ==> out.value == ReadBytes(state.memory.flat, addr, 32)
      ensures out.Some? && memProofEnabled ==>
        && state.memory.Dirty() == {} && memAccess == old(memAccess) + [addr]
        && memProofs == old(memProofs) + [ProofOf(state.memory.K, state.memory.flat, addr / 32)]
    {
      hide *;
      if Alignment(Native, addr) != 0 {
        return None;
      }
      ValidParts();
      var tracked := TrackMemAccess(addr, proofIndex);
      assert tracked; // no panic
      ValidParts();
      var bytes := state.memory.GetUnaligned(addr, 32);
      ValidFrom();
      var word: Bytes32 := bytes;
      return Some(word);
    }

    lemma ValidFrom()
      requires state.memory.Shape() && state.memory.LookupOk()
      requires lastPreimage.Some? ==> lastPreimage.value == Prefixed(preimageOracle(lastPreimageKey))
      requires memProofEnabled ==> state.memory.Coherent() && |memProofs| == |memAccess|
      requires Tallies(state.memory, account)
      ensures Valid()
    {
    }

    method SetMemoryB32(addr: u64, v: Bytes32, proofIndex: nat) returns (ok: bool)
      requires Valid()
      requires memProofEnabled ==> proofIndex < |memAccess| && memAccess[proofIndex] == addr
      requires memProofEnabled ==> state.memory.Dirty() == {}
      modifies `account, state.memory, state.memory.nodes, state.memory.dataArrays, state.memory.okArrays
      ensures Valid()
      ensures ok ==> account == Note(old(account), H.Write(addr, v))
      ensures ok == (addr % 32 == 0) && state.memory.Grew()
      ensures state.memory.flat == if ok then WriteBytes(old(state.memory.flat), addr, v) else old(state.memory.flat)
    {
      hide *;
      if Alignment(Native, addr) != 0 {
        state.memory.GrewNone();
        return false;
      }
      ValidParts();
      var verified := VerifyMemChange(addr, proofIndex);
      assert verified; // no panic
      label L:
      PutBytes(addr, v);
      state.memory.GrewParts@L();
      state.memory.GrewFrom();
      return true;
    }

    /** loadMem: little-endian, 1 to 8 bytes, optionally signed. */
    method LoadMem(addr: u64, size: nat, signed: bool, proofIndexL: nat, proofIndexR: nat) returns (out: Option<u64>)
      requires Valid() && 1 <= size <= 8
      requires memProofEnabled ==> |memProofs| == proofIndexL
      requires memProofEnabled && TwoSided(addr, size) && proofIndexR != 0xff ==> proofIndexR == proofIndexL + 1
      modifies `memProofs, `memAccess, `account
      modifies state.memory.nodes`Hashes, state.memory.nodes`HashValid, state.memory.cacheArrays, state.memory.okArrays
      modifies state.memory`lastPageKey0, state.memory`lastPageKey1, state.memory`lastPage0, state.memory`lastPage1
      ensures Valid()
      ensures out.Some? ==> account == LoadNote(old(account), memProofEnabled, addr, size)
      ensures account.guarded == old(account).guarded
      ensures out == if TwoSided(addr, size) && proofIndexR == 0xff then None
                     else Some(LoadValue(ReadBytes(state.memory.flat, addr, size), signed))
      ensures out.Some? && memProofEnabled ==> state.memory.Dirty() == {}
      ensures out.Some? && memProofEnabled ==> proofIndexL < |memAccess| && memAccess[proofIndexL] == addr - addr % 32
      ensures out.Some? && memProofEnabled ==>
        memProofs == old(memProofs) + Reads(state.memory.K, state.memory.flat, addr, size)
    {
      hide *;
      ReadsAre(state.memory.K, state.memory.flat, addr, size);
      var ok := TrackLeaves(addr, size, proofIndexL, proofIndexR);
      if !ok {
        return None; // no second branch is allowed for
      }
      ValidParts();
      var bytes := state.memory.GetUnaligned(addr, size);
      ValidFrom();
      GoExtendIs(bytes);
      var v := FromLE(bytes);
      return Some(if signed then GoExtend(v, size) else v);
    }

    /** The branches of a load. */
    method TrackLeaves(addr: u64, size: nat, proofIndexL: nat, proofIndexR: nat) returns (ok: bool)
      requires Valid() && 1 <= size <= 8
      requires memProofEnabled ==> |memProofs| == proofIndexL
      requires memProofEnabled && TwoSided(addr, size) && proofIndexR != 0xff ==> proofIndexR == proofIndexL + 1
      modifies `memProofs, `memAccess, `account
      modifies state.memory.nodes`Hashes, state.memory.nodes`HashValid, state.memory.cacheArrays, state.memory.okArrays
      ensures Valid() && ok == !(TwoSided(addr, size) && proofIndexR == 0xff)
      ensures ok ==> account == LoadNote(old(account), memProofEnabled, addr, size)
      ensures account.guarded == old(account).guarded
      ensures ok && memProofEnabled ==> state.memory.Dirty() == {}
      ensures ok && memProofEnabled ==> proofIndexL < |memAccess| && memAccess[proofIndexL] == addr - addr % 32
      ensures ok && memProofEnabled ==>
        memProofs == old(memProofs) + ([ProofOf(state.memory.K, state.memory.flat, addr / 32)]
          + if TwoSided(addr, size) then [ProofOf(state.memory.K, state.memory.flat, RightLeaf(addr) / 32)] else [])
    {
      hide *;
      ValidParts();
      LoadNoteIs(account, memProofEnabled, addr, size);
      TrackIs(account, memProofEnabled, addr);
      TrackIs(account, memProofEnabled, addr - addr % 32);
      var leftAddr := LeafStart(Native, addr);
      LeafFacts(addr, size);
      var tracked := TrackMemAccess(leftAddr, proofIndexL);
      assert tracked; // no panic
      var rightAddr := LeafStart(Native, Add64(Native, addr, Sub64(Native, size, 1)));
      if rightAddr == leftAddr {
        return true;
      }
      if proofIndexR == 0xff {
        return false;
      }
      ValidParts();
      TrackIs(account, memProofEnabled, rightAddr);
      tracked := TrackMemAccess(rightAddr, proofIndexR);
      assert tracked;
      return true;
    }

    /** storeMem and storeMemUnaligned: the four limbs of the value are put into a buffer, of which the
        first bytes are stored. (storeMem has a buffer for one limb; the others would be zero.) */
    method StoreMem(addr: u64, size: nat, value: u256, proofIndexL: nat, proofIndexR: nat, verifyL: bool, verifyR: bool) returns (ok: bool)
      requires Valid() && 1 <= size <= 32
      requires memProofEnabled && verifyL ==> |memProofs| == proofIndexL
      requires memProofEnabled && verifyL && TwoSided(addr, size) ==> verifyR && proofIndexR == proofIndexL + 1
      requires memProofEnabled && !verifyL ==>
        && !TwoSided(addr, size) && state.memory.Dirty() == {}
        && proofIndexL < |memAccess| && memAccess[proofIndexL] == addr - addr % 32
      modifies `memProofs, `memAccess, `account
      modifies state.memory, state.memory.nodes, state.memory.dataArrays, state.memory.cacheArrays, state.memory.okArrays
      ensures Valid()
      ensures ok == !(TwoSided(addr, size) && proofIndexR == 0xff)
      ensures state.memory.Grew()
      ensures ok ==> state.memory.flat == WriteBytes(old(state.memory.flat), addr, ToLE(value, size))
      ensures ok ==> account == StoredNote(old(account), memProofEnabled, verifyL, addr, ToLE(value, size))
      ensures ok && memProofEnabled ==>
        memProofs == old(memProofs) + if verifyL then Writes(state.memory.K, old(state.memory.flat), addr, ToLE(value, size)) else []
    {
      hide *;
      LimbsAreBytes(value, size);
      ok := StoreBytes(addr, LimbBytes(value)[..size], proofIndexL, proofIndexR, verifyL, verifyR);
    }

    /** What follows: one leaf, or the end of one and the start of the next. */
    method StoreBytes(addr: u64, bytez: seq<byte>, proofIndexL: nat, proofIndexR: nat, verifyL: bool, verifyR: bool) returns (ok: bool)
      requires Valid() && 1 <= |bytez| <= 32
      requires memProofEnabled && verifyL ==> |memProofs| == proofIndexL
      requires memProofEnabled && verifyL && TwoSided(addr, |bytez|) ==> verifyR && proofIndexR == proofIndexL + 1
      requires memProofEnabled && !verifyL ==>
        && !TwoSided(addr, |bytez|) && state.memory.Dirty() == {}
        && proofIndexL < |memAccess| && memAccess[proofIndexL] == addr - addr % 32
      modifies `memProofs, `memAccess, `account
      modifies state.memory, state.memory.nodes, state.memory.dataArrays, state.memory.cacheArrays, state.memory.okArrays
      ensures Valid()
      ensures ok == !(TwoSided(addr, |bytez|) && proofIndexR == 0xff)
      ensures state.memory.Grew()
      ensures ok ==> state.memory.flat == WriteBytes(old(state.memory.flat), addr, bytez)
      ensures ok ==> account == StoredNote(old(account), memProofEnabled, verifyL, addr, bytez)
      ensures ok && memProofEnabled ==>
        memProofs == old(memProofs) + if verifyL then Writes(state.memory.K, old(state.memory.flat), addr, bytez) else []
    {
      hide *;
      ghost var m := state.memory;
      ValidParts();
      var leftAddr := LeafStart(Native, addr);
      LeafFacts(addr, |bytez|);
      WritesAre(m.K, m.flat, addr, bytez);
      StoredNoteIs(account, memProofEnabled, verifyL, addr, bytez);
      TrackIs(account, memProofEnabled && verifyL, addr);
      VerifyLeaf(leftAddr, proofIndexL, verifyL);
      label L:
      ok := StoreVerified(addr, bytez, proofIndexR, verifyR);
      m.GrewParts@L();
      m.GrewFrom();
    }

    /** The left leaf has been verified. */
    method StoreVerified(addr: u64, bytez: seq<byte>, proofIndexR: nat, verifyR: bool) returns (ok: bool)
      requires Valid() && 1 <= |bytez| <= 32
      requires memProofEnabled ==> state.memory.Dirty() == {}
      requires memProofEnabled && TwoSided(addr, |bytez|) ==> verifyR && |memProofs| == proofIndexR
      modifies `memProofs, `memAccess, `account
      modifies state.memory, state.memory.nodes, state.memory.dataArrays, state.memory.cacheArrays, state.memory.okArrays
      ensures Valid() && state.memory.Grew()
      ensures ok == !(TwoSided(addr, |bytez|) && proofIndexR == 0xff)
      ensures ok ==> state.memory.flat == WriteBytes(old(state.memory.flat), addr, bytez)
      ensures ok ==> account == PutNote(old(account), memProofEnabled, addr, bytez)
      ensures ok && memProofEnabled ==>
        memProofs == old(memProofs) + if TwoSided(addr, |bytez|) then
          [ProofOf(state.memory.K, WriteBytes(old(state.memory.flat), addr, bytez[..32 - addr % 32]), RightLeaf(addr) / 32)]
        else []
    {
      hide *;
      LeafFacts(addr, |bytez|);
      PutNoteIs(account, memProofEnabled, addr, bytez);
      var lastAddr := LeafStart(Native, Add64(Native, addr, Sub64(Native, |bytez|, 1)));
      if lastAddr == LeafStart(Native, addr) { // one leaf
        PutBytes(addr, bytez);
        return true;
      }
      if proofIndexR == 0xff {
        state.memory.GrewNone();
        return false; // no second branch is allowed for
      }
      StoreInTwo(addr, bytez, proofIndexR, verifyR);
      return true;
    }

    /** What a store does before it writes to a leaf: prove it, or rely on the proof already taken. */
    method VerifyLeaf(leaf: u64, proofIndex: nat, verify: bool)
      requires Valid() && leaf % 32 == 0
      requires memProofEnabled && verify ==> |memProofs| == proofIndex
      requires memProofEnabled && !verify ==>
        state.memory.Dirty() == {} && proofIndex < |memAccess| && memAccess[proofIndex] == leaf
      modifies `memProofs, `memAccess, `account
      modifies state.memory.nodes`Hashes, state.memory.nodes`HashValid, state.memory.cacheArrays, state.memory.okArrays
      ensures Valid()
      ensures account == Track(old(account), memProofEnabled && verify, leaf)
      ensures memProofEnabled ==> state.memory.Dirty() == {}
      ensures memProofEnabled ==>
        memProofs == old(memProofs) + if verify then [ProofOf(state.memory.K, state.memory.flat, leaf / 32)] else []
      ensures memProofEnabled ==> proofIndex < |memAccess| && memAccess[proofIndex] == leaf
      ensures memProofEnabled && verify ==> |memProofs| == proofIndex + 1
    {
      hide *;
      ValidParts();
      TrackIs(account, memProofEnabled, leaf);
      if verify {
        var tracked := TrackMemAccess(leaf, proofIndex);
        assert tracked; // no panic
        ValidParts();
      }
      var verified := VerifyMemChange(leaf, proofIndex);
      assert verified; // no panic
    }

    /** Both halves of a store across leaves; the left leaf has been verified. */
    method StoreInTwo(addr: u64, bytez: seq<byte>, proofIndexR: nat, verifyR: bool)
      requires Valid() && 1 <= |bytez| <= 32 && TwoSided(addr, |bytez|)
      requires memProofEnabled ==> verifyR && |memProofs| == proofIndexR && state.memory.Dirty() == {}
      modifies `memProofs, `memAccess, `account
      modifies state.memory, state.memory.nodes, state.memory.dataArrays, state.memory.cacheArrays, state.memory.okArrays
      ensures Valid() && state.memory.Grew()
      ensures state.memory.flat == WriteBytes(old(state.memory.flat), addr, bytez)
      ensures account == PutNote(old(account), memProofEnabled, addr, bytez)
      ensures memProofEnabled ==>
        memProofs == old(memProofs) + [ProofOf(state.memory.K, WriteBytes(old(state.memory.flat), addr, bytez[..32 - addr % 32]),
                                               RightLeaf(addr) / 32)]
    {
      hide *;
      ghost var m := state.memory;
      SplitFacts(m.K, m.flat, account, memProofEnabled, addr, bytez);
      var rightAddr := Add64(Native, LeafStart(Native, addr), 32);
      var leftSize := Sub64(Native, rightAddr, addr);
      var left, right := bytez[..leftSize], bytez[leftSize..];
      PutBytes(addr, left);
      m.GrewParts();
      VerifyLeaf(rightAddr, proofIndexR, verifyR);
      label L:
      PutBytes(rightAddr, right);
      m.GrewParts@L();
      m.GrewFrom();
    }

    /** A write within one leaf: of a page that was refreshed, or on the account of the caches. */
    method PutBytes(addr: u64, bytes: seq<byte>)
      requires Valid() && addr % 32 + |bytes| <= 32
      requires memProofEnabled ==> state.memory.Dirty() == {}
      modifies `account, state.memory, state.memory.nodes, state.memory.dataArrays, state.memory.okArrays
      ensures Valid() && state.memory.Grew()
      ensures state.memory.flat == WriteBytes(old(state.memory.flat), addr, bytes)
      ensures account == Note(old(account), H.Write(addr, bytes))
    {
      hide *;
      ValidParts();
      InChunk(addr, |bytes|);
      if memProofEnabled {
        state.memory.CleanGuard(addr, bytes);
      }
      CanPut(state.memory, account, addr, bytes);
      label L:
      state.memory.SetUnaligned(addr, bytes);
      PutTallies@L(state.memory, account, addr, bytes);
      account := Note(account, H.Write(addr, bytes));
      ValidFrom();
    }

    // ----- the preimage oracle -----

    /** readPreimage: the last preimage is kept, and is always what a fresh fetch would give. */
    method ReadPreimage(key: Bytes32, offset: u64) returns (part: Option<Reference.Chunk>)
      requires Valid()
      modifies `lastPreimage, `lastPreimageKey, `lastPreimageOffset
      ensures Valid()
      ensures part == PartOf(preimageOracle)(key, offset)
      ensures lastPreimageKey == key && lastPreimageOffset == offset
      ensures lastPreimage == Some(Prefixed(preimageOracle(key)))
    {
      hide Memory.Shape, Memory.LookupOk, Memory.Coherent, Tallies, Prefixed, PartAt;
      ValidParts();
      if lastPreimage.None? || key != lastPreimageKey {
        lastPreimageKey := key;
        lastPreimage := Some(Prefixed(preimageOracle(key)));
      }
      lastPreimageOffset := offset;
      part := PartAt(lastPreimage.value, offset); // None at or behind the end
      ValidFrom();
    }

    /** writePreimageKey: shifts up to the rest of a leaf into the key. */
    method WritePreimageKey(addr: u64, count: u64) returns (n: u64)
      requires Valid()
      requires memProofEnabled ==> |memProofs| == 1
      modifies `memProofs, `memAccess, `account, state
      modifies state.memory.nodes`Hashes, state.memory.nodes`HashValid, state.memory.cacheArrays, state.memory.okArrays
      modifies state.memory`lastPageKey0, state.memory`lastPageKey1, state.memory`lastPage0, state.memory`lastPage1
      ensures Valid() && state.lastHint == old(state.lastHint)
      ensures n == ClampToLeaf(Native, addr, count)
      ensures account == TrackLeaf(old(account), memProofEnabled, addr)
      ensures state.ToCpu() == KeyShifted(old(state.ToCpu()), ReadBytes(state.memory.flat, addr, n))
      ensures memProofEnabled ==> memProofs == old(memProofs) + [ProofOf(state.memory.K, state.memory.flat, addr / 32)]
    {
      hide *;
      var alignment := Alignment(Native, addr);
      n := ClampToLeaf(Native, addr, count);
      LeafFacts(addr, 1);
      TrackIs(account, memProofEnabled, addr);
      var dat := GetMemoryB32(addr - alignment, 1);
      LeafSlice(state.memory.flat, addr, n);
      AppendToKeyShifts(Native, state.preimageKey, dat.value, alignment, n);
      KeyIs(state.ToCpu(), ReadBytes(state.memory.flat, addr, n));
      SetKey(AppendToKey(Native, state.preimageKey, dat.value, alignment, n));
    }

    method SetKey(key: Bytes32)
      requires Valid()
      modifies state
      ensures Valid() && state.lastHint == old(state.lastHint)
      ensures state.ToCpu() == old(state.ToCpu()).(preimageKey := key, preimageOffset := 0)
      ensures old(state.preimageKey == state.ToCpu().preimageKey)
    {
      hide Memory.Shape, Memory.LookupOk, Memory.Coherent, Tallies, Prefixed;
      // reading restarts with the key
      state.preimageKey, state.preimageOffset := key, 0;
    }

    /** readPreimageValue: up to the rest of a leaf, and up to the rest of the preimage. */
    method ReadPreimageValue(addr: u64, count: u64) returns (out: Option<u64>)
      requires Valid()
      requires memProofEnabled ==> |memProofs| == 1 && |memAccess| == 1
      modifies `memProofs, `memAccess, `account, `lastPreimage, `lastPreimageKey, `lastPreimageOffset, state
      modifies state.memory, state.memory.nodes, state.memory.dataArrays, state.memory.cacheArrays, state.memory.okArrays
      ensures Valid() && state.memory.Grew()
      ensures PreimageTook(state.memory.K, preimageOracle, old(Look()), addr, count, out, Look())
    {
      hide *;
      StateFields();
      ghost var v := Look();
      LookIs();
      var part := TakePreimage(addr, count);
      LookIs();
      SameOutputIs(v, Look());
      if part.None? || part.value.len == 0 {
        TookNone(state.memory.K, preimageOracle, v, addr, count, part, Look());
        return if part.None? then None else Some(0); // an empty part is the end of the preimage
      }
      TookSome(state.memory.K, preimageOracle, v, addr, count, part.value, Look());
      return Some(ReadCount(Native, addr, count, part.value.len));
    }

    /** Fetches the next part, and stores as much of it as there is room for. */
    method TakePreimage(addr: u64, count: u64) returns (part: Option<Reference.Chunk>)
      requires Valid()
      requires memProofEnabled ==> |memProofs| == 1 && |memAccess| == 1
      modifies `memProofs, `memAccess, `account, `lastPreimage, `lastPreimageKey, `lastPreimageOffset, state
      modifies state.memory, state.memory.nodes, state.memory.dataArrays, state.memory.cacheArrays, state.memory.okArrays
      ensures Valid() && state.memory.Grew() && state.lastHint == old(state.lastHint)
      ensures part == PartOf(preimageOracle)(old(state.preimageKey), old(state.preimageOffset))
      ensures lastPreimageKey == old(state.preimageKey) && lastPreimageOffset == old(state.preimageOffset)
      ensures lastPreimage == Some(Prefixed(preimageOracle(old(state.preimageKey))))
      ensures part.None? || part.value.len == 0 ==>
        && state.ToCpu() == old(state.ToCpu()) && state.memory.flat == old(state.memory.flat)
        && memProofs == old(memProofs) && account == old(account)
      ensures part.Some? && part.value.len != 0 ==>
        var n := ReadCount(Native, addr, count, part.value.len);
        && state.ToCpu() == old(state.ToCpu()).(preimageOffset := Wrap(old(state.ToCpu()).preimageOffset + n))
        && state.memory.flat == WriteBytes(old(state.memory.flat), addr, part.value.dat[..n])
        && account == MergeNote(old(account), memProofEnabled, old(state.memory.flat), addr, part.value.dat[..n])
        && (memProofEnabled ==> memProofs == old(memProofs) + [ProofOf(state.memory.K, old(state.memory.flat), addr / 32)])
    {
      hide *;
      part := ReadPreimage(state.preimageKey, state.preimageOffset);
      state.memory.GrewNone();
      if part.Some? && part.value.len != 0 {
        var n := ReadCount(Native, addr, count, part.value.len);
        label L:
        PutPreimage(addr, n, part.value.dat);
        state.memory.GrewParts@L();
        state.memory.GrewFrom();
      }
    }

    /** Advances the offset, and puts n bytes of preimage data into the leaf of addr. */
    method PutPreimage(addr: u64, n: u64, dat: Bytes32)
      requires Valid() && addr % 32 + n <= 32
      requires memProofEnabled ==> |memProofs| == 1 && |memAccess| == 1
      modifies `memProofs, `memAccess, `account, state
      modifies state.memory, state.memory.nodes, state.memory.dataArrays, state.memory.cacheArrays, state.memory.okArrays
      ensures Valid() && state.lastHint == old(state.lastHint) && state.memory.Grew()
      ensures state.ToCpu() == old(state.ToCpu()).(preimageOffset := Wrap(old(state.ToCpu()).preimageOffset + n))
      ensures state.memory.flat == WriteBytes(old(state.memory.flat), addr, dat[..n])
      ensures account == MergeNote(old(account), memProofEnabled, old(state.memory.flat), addr, dat[..n])
      ensures memProofEnabled ==>
        memProofs == old(memProofs) + [ProofOf(state.memory.K, old(state.memory.flat), addr / 32)]
    {
      hide *;
      AdvanceOffset(n);
      label L:
      MergeIntoLeaf(addr, n, dat);
      state.memory.GrewParts@L();
      state.memory.GrewFrom();
    }

    /** Reads the leaf of addr under a branch, and writes it back with n bytes replaced. */
    method MergeIntoLeaf(addr: u64, n: u64, dat: Bytes32)
      requires Valid() && addr % 32 + n <= 32
      requires memProofEnabled ==> |memProofs| == 1 && |memAccess| == 1
      modifies `memProofs, `memAccess, `account
      modifies state.memory, state.memory.nodes, state.memory.dataArrays, state.memory.cacheArrays, state.memory.okArrays
      ensures Valid() && state.memory.Grew()
      ensures state.memory.flat == WriteBytes(old(state.memory.flat), addr, dat[..n])
      ensures account == MergeNote(old(account), memProofEnabled, old(state.memory.flat), addr, dat[..n])
      ensures memProofEnabled ==>
        memProofs == old(memProofs) + [ProofOf(state.memory.K, old(state.memory.flat), addr / 32)]
    {
      hide *;
      ghost var m := state.memory;
      var alignment := Alignment(Native, addr);
      MergeFacts(m.flat, account, memProofEnabled, addr, n, dat);
      var leaf: u64 := addr - alignment;
      var node := GetMemoryB32(leaf, 1);
      label L:
      var stored := SetMemoryB32(leaf, MergePreimage(Native, node.value, dat, alignment, n), 1);
      assert stored;
      m.GrewParts@L();
      m.GrewFrom();
    }

    lemma LookIs()
      ensures var v := Look();
        && v.cpu == state.ToCpu() && v.mem == state.memory.flat && v.recording == memProofEnabled && v.proofs == memProofs
        && v.lastHint == state.lastHint && v.hints == hints && v.output == output
        && v.lastPreimage == lastPreimage && v.lastPreimageKey == lastPreimageKey && v.lastPreimageOffset == lastPreimageOffset
        && v.account == account
    {
    }

    lemma StateFields()
      ensures state.ToCpu().preimageKey == state.preimageKey && state.ToCpu().preimageOffset == state.preimageOffset
      ensures state.ToCpu().exited == state.exited && state.ToCpu().pc == state.pc && state.ToCpu().step == state.step
    {
    }

    method AdvanceOffset(n: u64)
      requires Valid()
      modifies state
      ensures state.ToCpu() == old(state.ToCpu()).(preimageOffset := Wrap(old(state.ToCpu()).preimageOffset + n))
      ensures Valid() && state.lastHint == old(state.lastHint)
      ensures memProofEnabled ==> |memProofs| == |memAccess|
    {
      hide Memory.Shape, Memory.LookupOk, Memory.Coherent, Tallies, Prefixed;
      ValidParts();
      state.preimageOffset := Add64(Native, state.preimageOffset, n);
      ValidFrom();
    }

    // ----- output -----

    /** write to stdout, to stderr or to the hint descriptor */
    method WriteOut(fd: u64, addr: u64, count: u64) returns (ok: bool)
      requires Valid()
      modifies this`hints, this`output, state`lastHint
      modifies state.memory`lastPageKey0, state.memory`lastPageKey1, state.memory`lastPage0, state.memory`lastPage1
      ensures Valid() && ok == OutputFits(state.memory.flat, fd, addr, count, old(state.lastHint))
      ensures state.ToCpu() == old(state.ToCpu())
      ensures ok ==> WroteOut(old(Look()), fd, addr, count, Look())
    {
      hide *;
      ghost var v := Look();
      ValidParts();
      LookIs();
      var data := ReadAll(state.memory, addr, count, 512);
      OutputIs(state.memory.flat, fd, addr, count, state.lastHint);
      ValidFrom();
      if data.None? {
        return false; // the slice would end before it starts
      }
      if fd == FD_HINT_WRITE {
        var delivered, rest, done := RunHints(state.lastHint + data.value);
        if !done {
          return false;
        }
        PutHints(delivered, rest);
        WroteHints(v, fd, addr, count, delivered, rest);
      } else {
        PutOutput(fd, data.value);
        WroteText(v, fd, addr, count);
      }
      LookIs();
      ok := true;
    }

    method PutHints(delivered: seq<seq<byte>>, rest: seq<byte>)
      requires Valid()
      modifies `hints, state`lastHint
      ensures Valid() && Look() == old(Look()).(hints := old(hints) + delivered, lastHint := rest)
    {
      hide Memory.Shape, Memory.LookupOk, Memory.Coherent, Tallies, Prefixed;
      hints := hints + delivered;
      state.lastHint := rest;
    }

    method PutOutput(fd: u64, data: seq<byte>)
      requires Valid()
      modifies `output
      ensures Valid() && Look() == old(Look()).(output := old(output) + [(fd, data)])
    {
      hide Memory.Shape, Memory.LookupOk, Memory.Coherent, Tallies, Prefixed;
      output := output + [(fd, data)];
    }

    // ----- the step -----

    /** Does what the switch asks for. The registers are written first: what follows replaces
        only the value that had to be waited for. */
    method Perform(a: Action) returns (ok: bool)
      requires Valid() && WellFormed(a)
      requires memProofEnabled ==> |memProofs| == 1
      modifies this, state
      modifies state.memory, state.memory.nodes, state.memory.dataArrays, state.memory.cacheArrays, state.memory.okArrays
      ensures Valid() && state.memory.Grew()
      ensures Acted(state.memory.K, preimageOracle, old(Look()), a, ok, Look())
    {
      hide *;
      ghost var v := Look();
      LookIs();
      CommitNext(a.next);
      ActionFacts(a);
      LookIs();
      OnlyCpu(v, Look(), a.next);
      label L:
      ok := true;
      match a {
        case Done(_) =>
          QuietlyIs(v, Look());
          ActedDone(state.memory.K, preimageOracle, v, a, Look());
          state.memory.GrewNone@L();
        case Output(fd, addr, count, _) =>
          ok := DoOutput(fd, addr, count, a, v);
        case LoadTo(rd, addr, size, signed, _) =>
          DoLoad(rd, addr, size, signed, a, v);
        case StoreAt(addr, size, value, _) =>
          DoStore(addr, size, value, a, v);
        case AtomicAt(op, rd, addr, size, operand, _) =>
          DoAtomic(op, rd, addr, size, operand, a, v);
        case KeyWrite(addr, count, _) =>
          DoKeyWrite(addr, count, a, v);
        case PreimageRead(addr, count, _) =>
          ok := DoPreimageRead(addr, count, a, v);
      }
      state.memory.GrewParts@L();
      state.memory.GrewFrom();
    }

    /** One method for each action; v is the VM as it was before the registers were written. */
    method DoOutput(fd: u64, addr: u64, count: u64, ghost a: Action, ghost v: View) returns (ok: bool)
      requires Valid() && a == Output(fd, addr, count, state.ToCpu()) && Look() == v.(cpu := state.ToCpu())
      modifies this`hints, this`output, state`lastHint
      modifies state.memory`lastPageKey0, state.memory`lastPageKey1, state.memory`lastPage0, state.memory`lastPage1
      ensures Valid() && state.memory.Grew() && Acted(state.memory.K, preimageOracle, v, a, ok, Look())
    {
      hide *;
      ghost var v1 := Look();
      LookIs();
      ok := WriteOut(fd, addr, count);
      LookIs();
      state.memory.GrewNone();
      ActedOutput(state.memory.K, preimageOracle, v, v1, a, ok, Look());
    }

    method DoLoad(rd: nat, addr: u64, size: nat, signed: bool, ghost a: Action, ghost v: View)
      requires Valid() && a == LoadTo(rd, addr, size, signed, state.ToCpu()) && Look() == v.(cpu := state.ToCpu())
      requires WellFormed(a) && rd < 32 && 1 <= size <= 8
      requires memProofEnabled ==> |memProofs| == 1
      modifies `memProofs, `memAccess, `account, state
      modifies state.memory.nodes`Hashes, state.memory.nodes`HashValid, state.memory.cacheArrays, state.memory.okArrays
      modifies state.memory`lastPageKey0, state.memory`lastPageKey1, state.memory`lastPage0, state.memory`lastPage1
      ensures Valid() && state.memory.Grew() && Acted(state.memory.K, preimageOracle, v, a, true, Look())
    {
      hide *;
      LookIs();
      var _ := LoadRegister(rd, addr, size, signed);
      LookIs();
      QuietlyIs(v, Look());
      state.memory.GrewNone();
      ActedLoad(state.memory.K, preimageOracle, v, a, Look());
    }

    /** Loads into a register, under the branches from index 1 on. */
    method LoadRegister(rd: nat, addr: u64, size: nat, signed: bool) returns (v: u64)
      requires Valid() && rd < 32 && 1 <= size <= 8
      requires memProofEnabled ==> |memProofs| == 1
      modifies `memProofs, `memAccess, `account, state
      modifies state.memory.nodes`Hashes, state.memory.nodes`HashValid, state.memory.cacheArrays, state.memory.okArrays
      modifies state.memory`lastPageKey0, state.memory`lastPageKey1, state.memory`lastPage0, state.memory`lastPage1
      ensures Valid() && state.lastHint == old(state.lastHint)
      ensures v == LoadValue(ReadBytes(state.memory.flat, addr, size), signed)
      ensures account == LoadNote(old(account), memProofEnabled, addr, size)
      ensures state.ToCpu() == Switch.SetRegister(old(state.ToCpu()), rd, v)
      ensures memProofEnabled ==>
        && state.memory.Dirty() == {} && 1 < |memAccess| && memAccess[1] == addr - addr % 32
        && memProofs == old(memProofs) + Reads(state.memory.K, state.memory.flat, addr, size)
    {
      hide *;
      var value := LoadMem(addr, size, signed, 1, 2);
      v := value.value;
      PutRegister(rd, v);
    }

    method DoStore(addr: u64, size: nat, value: u256, ghost a: Action, ghost v: View)
      requires Valid() && a == StoreAt(addr, size, value, state.ToCpu()) && Look() == v.(cpu := state.ToCpu())
      requires WellFormed(a) && 1 <= size <= 32
      requires memProofEnabled ==> |memProofs| == 1
      modifies `memProofs, `memAccess, `account
      modifies state.memory, state.memory.nodes, state.memory.dataArrays, state.memory.cacheArrays, state.memory.okArrays
      ensures Valid() && state.memory.Grew() && Acted(state.memory.K, preimageOracle, v, a, true, Look())
    {
      hide *;
      LookIs();
      var stored := StoreMem(addr, size, value, 1, 2, true, true);
      assert stored;
      LookIs();
      QuietlyIs(v, Look());
      ActedStore(state.memory.K, preimageOracle, v, a, Look());
    }

    /** An atomic operation: a load, and a store under the same branch. (The branch under index 2, if
        there was one, would be of a memory that is gone.) */
    method ReadModifyWrite(op: u64, rd: nat, addr: u64, size: nat, operand: u64)
      requires Valid() && KnownAtomic(op) && rd < 32 && size in {4, 8} && !TwoSided(addr, size)
      requires memProofEnabled ==> |memProofs| == 1
      modifies `memProofs, `memAccess, `account, state
      modifies state.memory, state.memory.nodes, state.memory.dataArrays, state.memory.cacheArrays, state.memory.okArrays
      ensures Valid() && state.memory.Grew() && state.lastHint == old(state.lastHint)
      ensures var v := LoadValue(ReadBytes(old(state.memory.flat), addr, size), true);
        && state.ToCpu() == Switch.SetRegister(old(state.ToCpu()), rd, v)
        && state.memory.flat == WriteBytes(old(state.memory.flat), addr, ToLE(AtomicValue(Native, op, v, operand), size))
        && account == StoredNote(LoadNote(old(account), memProofEnabled, addr, size), memProofEnabled, false, addr,
                                 ToLE(AtomicValue(Native, op, v, operand), size))
      ensures memProofEnabled ==> memProofs == old(memProofs) + Reads(state.memory.K, old(state.memory.flat), addr, size)
    {
      hide *;
      var value := LoadRegister(rd, addr, size, true);
      FitsWord(AtomicValue(Native, op, value, operand));
      label L:
      var stored := StoreMem(addr, size, AtomicValue(Native, op, value, operand), 1, 3, false, true);
      assert stored;
      state.memory.GrewParts@L();
      state.memory.GrewFrom();
    }

    method DoAtomic(op: u64, rd: nat, addr: u64, size: nat, operand: u64, ghost a: Action, ghost v: View)
      requires Valid() && a == AtomicAt(op, rd, addr, size, operand, state.ToCpu()) && Look() == v.(cpu := state.ToCpu())
      requires WellFormed(a) && KnownAtomic(op) && rd < 32 && size in {4, 8} && !TwoSided(addr, size)
      requires memProofEnabled ==> |memProofs| == 1
      modifies `memProofs, `memAccess, `account, state
      modifies state.memory, state.memory.nodes, state.memory.dataArrays, state.memory.cacheArrays, state.memory.okArrays
      ensures Valid() && state.memory.Grew() && Acted(state.memory.K, preimageOracle, v, a, true, Look())
    {
      hide *;
      LookIs();
      ReadModifyWrite(op, rd, addr, size, operand);
      LookIs();
      QuietlyIs(v, Look());
      ActedAtomic(state.memory.K, preimageOracle, v, a, Look());
    }

    method DoKeyWrite(addr: u64, count: u64, ghost a: Action, ghost v: View)
      requires Valid() && a == KeyWrite(addr, count, state.ToCpu()) && Look() == v.(cpu := state.ToCpu())
      requires memProofEnabled ==> |memProofs| == 1
      modifies `memProofs, `memAccess, `account, state
      modifies state.memory.nodes`Hashes, state.memory.nodes`HashValid, state.memory.cacheArrays, state.memory.okArrays
      modifies state.memory`lastPageKey0, state.memory`lastPageKey1, state.memory`lastPage0, state.memory`lastPage1
      ensures Valid() && state.memory.Grew() && Acted(state.memory.K, preimageOracle, v, a, true, Look())
    {
      hide *;
      LookIs();
      var n := KeyToRegister(addr, count);
      LookIs();
      QuietlyIs(v, Look());
      state.memory.GrewNone();
      ActedKey(state.memory.K, preimageOracle, v, a, n, Look());
    }

    method KeyToRegister(addr: u64, count: u64) returns (n: u64)
      requires Valid()
      requires memProofEnabled ==> |memProofs| == 1
      modifies `memProofs, `memAccess, `account, state
      modifies state.memory.nodes`Hashes, state.memory.nodes`HashValid, state.memory.cacheArrays, state.memory.okArrays
      modifies state.memory`lastPageKey0, state.memory`lastPageKey1, state.memory`lastPage0, state.memory`lastPage1
      ensures Valid() && state.lastHint == old(state.lastHint)
      ensures n == ClampToLeaf(Native, addr, count) && n <= 32
      ensures account == TrackLeaf(old(account), memProofEnabled, addr)
      ensures state.ToCpu() == Switch.SetRegister(KeyShifted(old(state.ToCpu()), ReadBytes(state.memory.flat, addr, n)), 10, n)
      ensures memProofEnabled ==> memProofs == old(memProofs) + [ProofOf(state.memory.K, state.memory.flat, addr / 32)]
    {
      hide *;
      n := WritePreimageKey(addr, count);
      PutRegister(10, n);
    }

    method DoPreimageRead(addr: u64, count: u64, ghost a: Action, ghost v: View) returns (ok: bool)
      requires Valid() && a == PreimageRead(addr, count, state.ToCpu()) && Look() == v.(cpu := state.ToCpu())
      requires memProofEnabled ==> |memProofs| == 1 && |memAccess| == 1
      modifies this, state
      modifies state.memory, state.memory.nodes, state.memory.dataArrays, state.memory.cacheArrays, state.memory.okArrays
      ensures Valid() && state.memory.Grew()
      ensures Acted(state.memory.K, preimageOracle, v, a, ok, Look())
    {
      hide *;
      var n := ReadPreimageValue(addr, count);
      ghost var v1 := Look();
      LookIs();
      ok := n.Some?;
      if ok {
        PutRegister(10, n.value);
        LookIs();
        OnlyCpu(v1, Look(), state.ToCpu());
      }
      ActedPreimage(state.memory.K, preimageOracle, v, a, n, v1, Look());
    }

    method CommitNext(next: Cpu)
      requires Valid()
      modifies state
      ensures Valid() && state.ToCpu() == next && state.lastHint == old(state.lastHint)
      ensures memProofEnabled ==> |memAccess| == |memProofs|
    {
      hide *;
      ValidParts();
      state.Commit(next);
      ValidFrom();
    }

    method PutRegister(reg: nat, v: u64)
      requires Valid() && reg < 32
      modifies state
      ensures Valid() && state.lastHint == old(state.lastHint)
      ensures state.ToCpu() == Switch.SetRegister(old(state.ToCpu()), reg, v)
    {
      hide *;
      ValidParts();
      state.SetRegister(reg, v);
      ValidFrom();
    }

    /** riscvStep: one instruction. It fails exactly where the reference step fails or where
        output cannot be carried out: the bookkeeping of branches never gets in the way. */
    method RiscvStep() returns (ok: bool)
      requires Valid() && (memProofEnabled ==> memProofs == [])
      modifies this, state
      modifies state.memory, state.memory.nodes, state.memory.dataArrays, state.memory.cacheArrays, state.memory.okArrays
      ensures Valid() && state.memory.Grew()
      ensures Stepped(state.memory.K, preimageOracle, old(Look()), ok, Look())
    {
      hide *;
      ghost var m := state.memory;
      ghost var v := Look();
      LookIs();
      StateFields();
      if state.exited {
        SteppedExited(m.K, preimageOracle, v);
        m.GrewNone();
        return true;
      }
      label L:
      var instr := Fetch();
      FetchedNone(m.K, preimageOracle, v, instr, Look());
      m.GrewNone();
      if instr.None? {
        return false;
      }
      label M:
      ok := Execute(instr.value, v);
      m.GrewParts@M();
      m.GrewFrom();
    }

    /** The next instruction word. The step is counted first. */
    method Fetch() returns (instr: Option<u64>)
      requires Valid() && (memProofEnabled ==> memProofs == [])
      modifies state, `memProofs, `memAccess, `account
      modifies state.memory.nodes`Hashes, state.memory.nodes`HashValid, state.memory.cacheArrays, state.memory.okArrays
      modifies state.memory`lastPageKey0, state.memory`lastPageKey1, state.memory`lastPage0, state.memory`lastPage1
      ensures Valid() && Fetched(state.memory.K, old(Look()), instr, Look())
    {
      hide *;
      ghost var v := Look();
      LookIs();
      ValidParts();
      StateFields();
      CountStep();
      OneBranch(state.memory.K, state.memory.flat, state.pc);
      instr := LoadMem(state.pc, 4, false, 0, 0xff);
      LookIs();
      FetchedIs(state.memory.K, v, instr, Look());
    }

    /** Decodes the instruction word and does what it asks for; v is the VM as it was before the step. */
    method Execute(instr: u64, ghost v: View) returns (ok: bool)
      requires Valid() && !v.cpu.exited && Fetched(state.memory.K, v, Some(instr), Look())
      modifies this, state
      modifies state.memory, state.memory.nodes, state.memory.dataArrays, state.memory.cacheArrays, state.memory.okArrays
      ensures Valid() && state.memory.Grew()
      ensures Stepped(state.memory.K, preimageOracle, v, ok, Look())
    {
      hide *;
      ghost var v1 := Look();
      LookIs();
      FetchedNone(state.memory.K, preimageOracle, v, Some(instr), v1);
      var a := Decode(Native, state.ToCpu(), instr);
      if a.None? {
        state.memory.GrewNone();
        return false;
      }
      ok := Perform(a.value);
      SteppedFrom(state.memory.K, preimageOracle, v, v1, instr, a.value, ok, Look());
    }

    method CountStep()
      requires Valid()
      modifies state
      ensures Valid() && state.ToCpu() == Started(old(state.ToCpu())) && state.lastHint == old(state.lastHint)
      ensures state.pc == old(state.pc)
    {
      hide Memory.Shape, Memory.LookupOk, Memory.Coherent, Tallies, Prefixed;
      ValidParts();
      state.step := Add64(Native, state.step, 1);
      ValidFrom();
    }

    /** Step: with proof, also the witness that lets the slow VM repeat it. */
    method Step(proof: bool) returns (wit: Option<StepWitness>, ok: bool)
      requires Valid() && (proof ==> state.memory.Coherent())
      modifies this, state
      modifies state.memory, state.memory.nodes, state.memory.dataArrays, state.memory.cacheArrays, state.memory.okArrays
      ensures Valid() && memProofEnabled == proof && state.memory.Grew()
      ensures Stepped(state.memory.K, preimageOracle, Fresh(old(Look()), proof), ok, Look())
      ensures wit.Some? == proof
      ensures proof ==> wit.value.state == W.Encode(Root(state.memory.K, old(state.memory.flat)), old(state.ToCpu()))
      ensures proof ==> wit.value.memProof == Sim.Flatten(memProofs)
      ensures proof ==> HoldsPreimage(wit.value, Look())
    {
      hide *;
      ghost var v := Look();
      var encoded := BeginStep(proof);
      label L:
      ok := RunInstruction(Fresh(v, proof));
      state.memory.GrewParts@L();
      state.memory.GrewFrom();
      wit := None;
      if proof {
        var memProof := EncodeProofs(memProofs);
        var w := BuildWitness(encoded, memProof);
        wit := Some(w);
      }
    }

    /** Resets the record, and encodes the state before the step if it is needed. */
    method BeginStep(proof: bool) returns (encoded: seq<byte>)
      requires Valid() && (proof ==> state.memory.Coherent())
      modifies `memProofEnabled, `memProofs, `memAccess, `lastPreimageOffset, `account
      modifies state.memory.nodes`Hashes, state.memory.nodes`HashValid, state.memory.cacheArrays, state.memory.okArrays
      ensures Valid() && memProofEnabled == proof && memProofs == []
      ensures Look() == Fresh(old(Look()), proof)
      ensures proof ==> encoded == W.Encode(Root(state.memory.K, state.memory.flat), state.ToCpu())
    {
      hide *;
      ghost var v := Look();
      Reset(proof);
      encoded := [];
      if proof {
        ValidParts();
        LookIs();
        encoded := EncodeState(); // before anything changes
        LookIs();
      }
      FreshIs(v, proof);
    }

    /** The state bytes; hashing the memory for them goes on the account of the caches. */
    method EncodeState() returns (encoded: seq<byte>)
      requires Valid() && state.memory.Coherent()
      modifies `account
      modifies state.memory.nodes`Hashes, state.memory.nodes`HashValid, state.memory.cacheArrays, state.memory.okArrays
      ensures Valid() && state.memory.Coherent() && account == Note(old(account), H.TakeRoot)
      ensures Look() == old(Look()).(account := account)
      ensures encoded == W.Encode(Root(state.memory.K, state.memory.flat), state.ToCpu())
    {
      hide *;
      ValidParts();
      LookIs();
      label L:
      encoded := state.EncodeWitness();
      HashTallies@L(state.memory, account, H.TakeRoot);
      account := Note(account, H.TakeRoot);
      ValidFrom();
      LookIs();
    }

    method Reset(proof: bool)
      requires Valid() && (proof ==> state.memory.Coherent())
      modifies `memProofEnabled, `memProofs, `memAccess, `lastPreimageOffset
      ensures Valid() && memProofEnabled == proof && memProofs == []
      ensures Look() == old(Look()).(recording := proof, proofs := [], lastPreimageOffset := NO_OFFSET)
    {
      hide Memory.Shape, Memory.LookupOk, Memory.Coherent, Tallies, Prefixed;
      memProofEnabled, memAccess, memProofs, lastPreimageOffset := proof, [], [], NO_OFFSET;
    }

    method RunInstruction(ghost v: View) returns (ok: bool)
      requires Valid() && (memProofEnabled ==> memProofs == []) && v == Look()
      modifies this, state
      modifies state.memory, state.memory.nodes, state.memory.dataArrays, state.memory.cacheArrays, state.memory.okArrays
      ensures Valid() && state.memory.Grew() && memProofEnabled == old(memProofEnabled)
      ensures Stepped(state.memory.K, preimageOracle, v, ok, Look())
    {
      hide *;
      LookIs();
      ok := RiscvStep();
      LookIs();
      SteppedKeeps(state.memory.K, preimageOracle, v, ok, Look());
    }

    method BuildWitness(encoded: seq<byte>, memProof: seq<byte>) returns (w: StepWitness)
      ensures w.state == encoded && w.memProof == memProof && HoldsPreimage(w, Look())
    {
      if lastPreimageOffset != NO_OFFSET && lastPreimage.Some? {
        w := StepWitness(encoded, memProof, lastPreimageKey, lastPreimage.value, lastPreimageOffset);
      } else {
        w := StepWitness(encoded, memProof, ZERO32, [], 0);
      }
    }
  }

  /** No preimage was read in this step. */
  const NO_OFFSET: u64 := 0xFFFF_FFFF_FFFF_FFFF

  datatype StepWitness = StepWitness(
    state: seq<byte>, memProof: seq<byte>, preimageKey: Bytes32, preimageValue: seq<byte>, preimageOffset: u64)

  /** The witness carries the preimage that was read, if one was, with its length prefix. */
  ghost predicate HoldsPreimage(wit: StepWitness, v: View) {
    v.lastPreimageOffset != NO_OFFSET && v.lastPreimage.Some? ==>
      && wit.preimageKey == v.lastPreimageKey && wit.preimageOffset == v.lastPreimageOffset
      && wit.preimageValue == v.lastPreimage.value
  }

  /** The view of a VM that starts a step. */
  ghost function Fresh(v: View, proof: bool): View {
    v.(recording := proof, proofs := [], lastPreimageOffset := NO_OFFSET,
       account := if proof then Note(v.account, H.TakeRoot) else v.account)
  }

  lemma FreshIs(v: View, proof: bool)
    ensures Fresh(v, proof) == v.(recording := proof, proofs := [], lastPreimageOffset := NO_OFFSET,
                                  account := if proof then Note(v.account, H.TakeRoot) else v.account)
  {
  }

  method EncodeProofs(memProofs: seq<seq<Bytes32>>) returns (out: seq<byte>)
    ensures out == Sim.Flatten(memProofs)
  {
    out := [];
    for i := 0 to |memProofs|
      invariant out + Sim.Flatten(memProofs[i..]) == Sim.Flatten(memProofs)
    {
      assert memProofs[i..][0] == memProofs[i] && memProofs[i..][1..] == memProofs[i + 1..];
      out := out + Sim.Concat(memProofs[i]);
    }
    assert Sim.Flatten(memProofs[|memProofs|..]) == [];
  }

  // ----- what a step does, on values -----

  /** The action that the next instruction asks for. */
  ghost function Pending(c: Cpu, m: Flat): Option<Action> {
    if c.exited || TwoSided(c.pc, 4) then None else Decode(Native, Started(c), Instruction(m, c.pc))
  }

  /** Only output can fail in the fast VM without failing in the reference. */
  ghost predicate Fits(m: Flat, a: Action, lastHint: seq<byte>) {
    a.Output? ==> OutputFits(m, a.fd, a.addr, a.count, lastHint)
  }

  /** A hint write appends to the hint buffer and delivers the complete hints at its front; other
      output goes to stdout or stderr. */
  ghost predicate WroteOut(v: View, fd: u64, addr: u64, count: u64, v': View) {
    var data := ReadBytes(v.mem, addr, count);
    if fd == FD_HINT_WRITE then
      var r := ProcessHints(v.lastHint + data);
      r.Some? && v'.hints == v.hints + r.value.0 && v'.lastHint == r.value.1 && v'.output == v.output
    else v'.output == v.output + [(fd, data)] && v'.hints == v.hints && v'.lastHint == v.lastHint
  }

  lemma OutputIs(m: Flat, fd: u64, addr: u64, count: u64, lastHint: seq<byte>)
    ensures OutputFits(m, fd, addr, count, lastHint) <==>
      (count == 0 || Readable(addr, count))
      && (fd == FD_HINT_WRITE ==> ProcessHints(lastHint + ReadBytes(m, addr, count)).Some?)
  {
  }

  lemma WroteHints(v: View, fd: u64, addr: u64, count: u64, delivered: seq<seq<byte>>, rest: seq<byte>)
    requires fd == FD_HINT_WRITE && ProcessHints(v.lastHint + ReadBytes(v.mem, addr, count)) == Some((delivered, rest))
    ensures WroteOut(v, fd, addr, count, v.(hints := v.hints + delivered, lastHint := rest))
  {
    hide ProcessHints, ReadBytes;
  }

  lemma WroteText(v: View, fd: u64, addr: u64, count: u64)
    requires fd != FD_HINT_WRITE
    ensures WroteOut(v, fd, addr, count, v.(output := v.output + [(fd, ReadBytes(v.mem, addr, count))]))
  {
    hide ReadBytes;
  }

  ghost predicate SameOutput(v: View, v': View) {
    v'.hints == v.hints && v'.lastHint == v.lastHint && v'.output == v.output
  }

  lemma OnlyCpu(v: View, v': View, c: Cpu)
    requires v'.mem == v.mem && v'.recording == v.recording && v'.proofs == v.proofs && v'.lastHint == v.lastHint
    requires v'.hints == v.hints && v'.output == v.output && v'.lastPreimage == v.lastPreimage
    requires v'.lastPreimageKey == v.lastPreimageKey && v'.lastPreimageOffset == v.lastPreimageOffset && v'.cpu == c
    requires v'.account == v.account
    ensures v' == v.(cpu := c)
  {
  }

  lemma SameOutputIs(v: View, v': View)
    ensures SameOutput(v, v') <==> v'.hints == v.hints && v'.lastHint == v.lastHint && v'.output == v.output
  {
  }

  /** The outside effects of an action: its output, and the preimage that it has read. */
  ghost predicate Effects(preimages: Bytes32 -> seq<byte>, v: View, a: Action, v': View) {
    && (if a.Output? then WroteOut(v, a.fd, a.addr, a.count, v') else SameOutput(v, v'))
    && (if a.PreimageRead? then Noted(preimages, a.next, v') else v'.lastPreimageOffset == v.lastPreimageOffset)
  }

  ghost predicate Noted(preimages: Bytes32 -> seq<byte>, c: Cpu, v': View) {
    && v'.lastPreimageKey == c.preimageKey && v'.lastPreimageOffset == c.preimageOffset
    && v'.lastPreimage == Some(Prefixed(preimages(c.preimageKey)))
  }

  /** readPreimageValue on values */
  ghost predicate PreimageTook(K: Hash, preimages: Bytes32 -> seq<byte>, v: View, addr: u64, count: u64, out: Option<u64>, v': View) {
    && SameOutput(v, v') && Noted(preimages, v.cpu, v') && v'.recording == v.recording
    && match PartOf(preimages)(v.cpu.preimageKey, v.cpu.preimageOffset)
       case None => out.None? && v'.account == v.account
       case Some(part) =>
         if part.len == 0 then
           out == Some(0) && v'.cpu == v.cpu && v'.mem == v.mem && v'.proofs == v.proofs && v'.account == v.account
         else
           var n := ReadCount(Native, addr, count, part.len);
           && out == Some(n) && v'.cpu == v.cpu.(preimageOffset := Wrap(v.cpu.preimageOffset + n))
           && v'.mem == WriteBytes(v.mem, addr, part.dat[..n])
           && v'.account == MergeNote(v.account, v.recording, v.mem, addr, part.dat[..n])
           && (v.recording ==> v'.proofs == v.proofs + [ProofOf(K, v.mem, addr / 32)])
  }

  lemma TookNone(K: Hash, preimages: Bytes32 -> seq<byte>, v: View, addr: u64, count: u64, part: Option<Reference.Chunk>, v': View)
    requires part == PartOf(preimages)(v.cpu.preimageKey, v.cpu.preimageOffset)
    requires v'.cpu == v.cpu && v'.mem == v.mem && v'.recording == v.recording && v'.proofs == v.proofs && SameOutput(v, v')
    requires v'.account == v.account
    requires v'.lastPreimageKey == v.cpu.preimageKey && v'.lastPreimageOffset == v.cpu.preimageOffset
    requires v'.lastPreimage == Some(Prefixed(preimages(v.cpu.preimageKey)))
    ensures part.None? ==> PreimageTook(K, preimages, v, addr, count, None, v')
    ensures part.Some? && part.value.len == 0 ==> PreimageTook(K, preimages, v, addr, count, Some(0), v')
  {
    hide Prefixed, PartAt, ReadCount, WriteBytes, ProofOf, MergeNote;
  }

  lemma TookSome(K: Hash, preimages: Bytes32 -> seq<byte>, v: View, addr: u64, count: u64, part: Reference.Chunk, v': View)
    requires Some(part) == PartOf(preimages)(v.cpu.preimageKey, v.cpu.preimageOffset) && part.len != 0
    requires v'.recording == v.recording && SameOutput(v, v')
    requires v'.lastPreimageKey == v.cpu.preimageKey && v'.lastPreimageOffset == v.cpu.preimageOffset
    requires v'.lastPreimage == Some(Prefixed(preimages(v.cpu.preimageKey)))
    requires var n := ReadCount(Native, addr, count, part.len);
      && v'.cpu == v.cpu.(preimageOffset := Wrap(v.cpu.preimageOffset + n))
      && v'.mem == WriteBytes(v.mem, addr, part.dat[..n])
      && v'.account == MergeNote(v.account, v.recording, v.mem, addr, part.dat[..n])
      && (v.recording ==> v'.proofs == v.proofs + [ProofOf(K, v.mem, addr / 32)])
    ensures PreimageTook(K, preimages, v, addr, count, Some(ReadCount(Native, addr, count, part.len)), v')
  {
    hide Prefixed, PartAt, ReadCount, WriteBytes, ProofOf, MergeNote;
  }

  /** What carrying out an action means. */
  ghost predicate Acted(K: Hash, preimages: Bytes32 -> seq<byte>, v: View, a: Action, ok: bool, v': View)
    requires WellFormed(a)
  {
    var r := Reference.Perform(K, PartOf(preimages), v.mem, a);
    && v'.recording == v.recording
    && ok == (r.Some? && Fits(v.mem, a, v.lastHint))
    && (ok ==> v'.cpu == r.value.cpu && v'.mem == r.value.mem && Effects(preimages, v, a, v'))
    && (ok && v.recording ==> v'.proofs == v.proofs + r.value.proofs)
    && (ok ==> v'.account == ActionNote(v.account, v.recording, PartOf(preimages), v.mem, a))
    && (!ok ==> v'.account.guarded == v.account.guarded)
  }

  /** What the sizes of a well-formed action allow. */
  lemma ActionFacts(a: Action)
    requires WellFormed(a)
    ensures a.LoadTo? ==> a.rd < 32 && 1 <= a.size <= 8
    ensures a.StoreAt? ==> 1 <= a.size <= 32 && |ToLE(a.value, a.size)| == a.size
    ensures a.AtomicAt? ==> KnownAtomic(a.op) && a.rd < 32 && a.size in {4, 8} && !TwoSided(a.addr, a.size)
  {
  }

  /** Nothing but registers, memory and branches differs. */
  ghost predicate Quietly(v: View, v': View) {
    v'.recording == v.recording && SameOutput(v, v') && v'.lastPreimageOffset == v.lastPreimageOffset
  }

  lemma QuietlyIs(v: View, v': View)
    ensures Quietly(v, v') <==>
      (v'.recording == v.recording && v'.hints == v.hints && v'.lastHint == v.lastHint
       && v'.output == v.output && v'.lastPreimageOffset == v.lastPreimageOffset)
  {
  }

  lemma ActedDone(K: Hash, preimages: Bytes32 -> seq<byte>, v: View, a: Action, v': View)
    requires a.Done? && Quietly(v, v') && v'.cpu == a.next && v'.mem == v.mem && v'.proofs == v.proofs
    requires v'.account == v.account
    ensures Acted(K, preimages, v, a, true, v')
  {
  }

  lemma ActedLoad(K: Hash, preimages: Bytes32 -> seq<byte>, v: View, a: Action, v': View)
    requires WellFormed(a) && a.LoadTo? && Quietly(v, v') && v'.mem == v.mem
    requires v'.cpu == Switch.SetRegister(a.next, a.rd, LoadValue(ReadBytes(v.mem, a.addr, a.size), a.signed))
    requires v.recording ==> v'.proofs == v.proofs + Reads(K, v.mem, a.addr, a.size)
    requires v'.account == LoadNote(v.account, v.recording, a.addr, a.size)
    ensures Acted(K, preimages, v, a, true, v')
  {
    hide Reads, ReadBytes, LoadValue, Switch.SetRegister, LoadNote;
  }

  lemma ActedStore(K: Hash, preimages: Bytes32 -> seq<byte>, v: View, a: Action, v': View)
    requires WellFormed(a) && a.StoreAt? && Quietly(v, v') && v'.cpu == a.next
    requires v'.mem == WriteBytes(v.mem, a.addr, ToLE(a.value, a.size))
    requires v.recording ==> v'.proofs == v.proofs + Writes(K, v.mem, a.addr, ToLE(a.value, a.size))
    requires v'.account == StoredNote(v.account, v.recording, true, a.addr, ToLE(a.value, a.size))
    ensures Acted(K, preimages, v, a, true, v')
  {
    hide Writes, WriteBytes, ToLE, StoredNote;
  }

  lemma ActedAtomic(K: Hash, preimages: Bytes32 -> seq<byte>, v: View, a: Action, v': View)
    requires WellFormed(a) && a.AtomicAt? && Quietly(v, v')
    requires var x := LoadValue(ReadBytes(v.mem, a.addr, a.size), true);
      && v'.cpu == Switch.SetRegister(a.next, a.rd, x)
      && v'.mem == WriteBytes(v.mem, a.addr, ToLE(AtomicValue(Native, a.op, x, a.operand), a.size))
      && v'.account == StoredNote(LoadNote(v.account, v.recording, a.addr, a.size), v.recording, false, a.addr,
                                  ToLE(AtomicValue(Native, a.op, x, a.operand), a.size))
    requires v.recording ==> v'.proofs == v.proofs + Reads(K, v.mem, a.addr, a.size)
    ensures Acted(K, preimages, v, a, true, v')
  {
    hide Reads, ReadBytes, WriteBytes, LoadValue, AtomicValue, ToLE, Switch.SetRegister, StoredNote, LoadNote;
  }

  lemma ActedOutput(K: Hash, preimages: Bytes32 -> seq<byte>, v: View, v1: View, a: Action, ok: bool, v': View)
    requires a.Output? && v1 == v.(cpu := a.next) && v'.cpu == a.next && v'.mem == v.mem && v'.recording == v.recording
    requires ok == OutputFits(v.mem, a.fd, a.addr, a.count, v.lastHint) && (ok ==> WroteOut(v1, a.fd, a.addr, a.count, v'))
    requires v'.proofs == v.proofs && v'.lastPreimageOffset == v.lastPreimageOffset && v'.account == v.account
    ensures Acted(K, preimages, v, a, ok, v')
  {
    hide OutputFits, ReadBytes, ProcessHints;
  }

  lemma ActedKey(K: Hash, preimages: Bytes32 -> seq<byte>, v: View, a: Action, n: u64, v': View)
    requires a.KeyWrite? && n == ClampToLeaf(Native, a.addr, a.count) && n <= 32
    requires v'.cpu == Switch.SetRegister(KeyShifted(a.next, ReadBytes(v.mem, a.addr, n)), 10, n)
    requires v'.mem == v.mem && Quietly(v, v')
    requires v.recording ==> v'.proofs == v.proofs + [ProofOf(K, v.mem, a.addr / 32)]
    requires v'.account == TrackLeaf(v.account, v.recording, a.addr)
    ensures Acted(K, preimages, v, a, true, v')
  {
    hide ReadBytes, ProofOf, ClampToLeaf, Switch.SetRegister, TrackLeaf;
  }

  lemma ActedPreimage(K: Hash, preimages: Bytes32 -> seq<byte>, v: View, a: Action, n: Option<u64>, v1: View, v': View)
    requires a.PreimageRead? && PreimageTook(K, preimages, v.(cpu := a.next), a.addr, a.count, n, v1)
    requires v' == if n.Some? then v1.(cpu := Switch.SetRegister(v1.cpu, 10, n.value)) else v1
    ensures Acted(K, preimages, v, a, n.Some?, v')
  {
    hide ReadBytes, WriteBytes, ProofOf, ReadCount, Switch.SetRegister, Prefixed, PartAt, MergeNote;
  }

  /** What a step of the fast VM means, in terms of the reference step. */
  ghost predicate Stepped(K: Hash, preimages: Bytes32 -> seq<byte>, v: View, ok: bool, v': View) {
    var a := Pending(v.cpu, v.mem);
    var r := Reference.Step(K, PartOf(preimages), v.cpu, v.mem);
    && v'.recording == v.recording
    && ok == (r.Some? && (a.Some? ==> Fits(v.mem, a.value, v.lastHint)))
    && (ok ==> v'.cpu == r.value.cpu && v'.mem == r.value.mem)
    && (ok ==> if a.None? then SameOutput(v, v') && v'.lastPreimageOffset == v.lastPreimageOffset
               else Effects(preimages, v, a.value, v'))
    && (ok && v.recording ==> v'.proofs == r.value.proofs)
    && (ok ==> v'.account == StepNote(v.account, v.recording, PartOf(preimages), v.cpu, v.mem))
    && (!ok ==> v'.account.guarded == v.account.guarded)
  }

  lemma SteppedKeeps(K: Hash, preimages: Bytes32 -> seq<byte>, v: View, ok: bool, v': View)
    requires Stepped(K, preimages, v, ok, v')
    ensures v'.recording == v.recording
  {
  }

  lemma SteppedExited(K: Hash, preimages: Bytes32 -> seq<byte>, v: View)
    requires v.cpu.exited && (v.recording ==> v.proofs == [])
    ensures Stepped(K, preimages, v, true, v)
  {
  }

  lemma OneBranch(K: Hash, m: Flat, pc: u64)
    ensures !TwoSided(pc, 4) ==> Reads(K, m, pc, 4) == [ProofOf(K, m, pc / 32)]
  {
  }

  /** The instruction word has been fetched under its branch. */
  ghost predicate Fetched(K: Hash, v: View, instr: Option<u64>, v1: View) {
    && v1.mem == v.mem && v1.recording == v.recording && SameOutput(v, v1) && v1.lastPreimageOffset == v.lastPreimageOffset
    && (instr.None? <==> TwoSided(v.cpu.pc, 4))
    && (instr.Some? ==> instr.value == Instruction(v.mem, v.cpu.pc) && v1.cpu == Started(v.cpu))
    && (instr.Some? && v.recording ==> v1.proofs == [ProofOf(K, v.mem, v.cpu.pc / 32)])
    && (instr.Some? ==> v1.account == TrackLeaf(v.account, v.recording, v.cpu.pc))
    && v1.account.guarded == v.account.guarded
  }

  lemma FetchedIs(K: Hash, v: View, instr: Option<u64>, v1: View)
    requires v1.mem == v.mem && v1.recording == v.recording && v1.lastPreimageOffset == v.lastPreimageOffset
    requires v1.hints == v.hints && v1.lastHint == v.lastHint && v1.output == v.output
    requires instr == if TwoSided(v.cpu.pc, 4) then None else Some(LoadValue(ReadBytes(v.mem, v.cpu.pc, 4), false))
    requires v1.cpu == Started(v.cpu)
    requires instr.Some? && v.recording ==> v1.proofs == [ProofOf(K, v.mem, v.cpu.pc / 32)]
    requires instr.Some? ==> v1.account == LoadNote(v.account, v.recording, v.cpu.pc, 4)
    requires v1.account.guarded == v.account.guarded
    ensures Fetched(K, v, instr, v1)
  {
    hide LoadValue, ReadBytes, ProofOf, Started, TrackLeaf;
  }

  /** Without an instruction, or with one that does not decode, the step fails. */
  lemma FetchedNone(K: Hash, preimages: Bytes32 -> seq<byte>, v: View, instr: Option<u64>, v1: View)
    requires !v.cpu.exited && Fetched(K, v, instr, v1)
    ensures instr.None? || Decode(Native, v1.cpu, instr.value).None? ==> Stepped(K, preimages, v, false, v1)
    ensures instr.Some? ==> v1.recording ==> |v1.proofs| == 1
    ensures instr.Some? && Decode(Native, v1.cpu, instr.value).Some? ==> WellFormed(Decode(Native, v1.cpu, instr.value).value)
  {
    hide Reference.Perform, Decode, LoadValue, ReadBytes, WellFormed, ProofOf, TrackLeaf, ActionNote;
    DecodeWellFormed(Started(v.cpu), Instruction(v.mem, v.cpu.pc));
  }

  /** A step is the fetch, and then the action. */
  lemma SteppedFrom(K: Hash, preimages: Bytes32 -> seq<byte>, v: View, v1: View, instr: u64, a: Action, ok: bool, v2: View)
    requires !v.cpu.exited && Fetched(K, v, Some(instr), v1) && Decode(Native, v1.cpu, instr) == Some(a)
    requires WellFormed(a) && Acted(K, preimages, v1, a, ok, v2)
    ensures Stepped(K, preimages, v, ok, v2)
  {
    hide Reference.Perform, Decode, LoadValue, ReadBytes, WellFormed, ProofOf, OutputFits, ProcessHints, Prefixed, Noted, TrackLeaf, ActionNote;
  }

  /** Whether the fast VM can carry out a write that only it sees. */
  ghost predicate OutputFits(m: Flat, fd: u64, addr: u64, count: u64, lastHint: seq<byte>) {
    && (count == 0 || Readable(addr, count))
    && (fd == FD_HINT_WRITE ==> ProcessHints(lastHint + ReadBytes(m, addr, count)).Some?)
  }

  lemma KeyIs(c: Cpu, data: seq<byte>)
    requires |data| <= 32
    ensures KeyShifted(c, data) == c.(preimageKey := c.preimageKey[|data|..] + data, preimageOffset := 0)
  {
  }

  lemma LeafSlice(m: Flat, addr: u64, n: nat)
    requires addr % 32 + n <= 32
    ensures ReadBytes(m, addr - addr % 32, 32)[addr % 32..addr % 32 + n] == ReadBytes(m, addr, n)
  {
    var start, a := addr - addr % 32, addr % 32;
    forall k | 0 <= k < n ensures ReadBytes(m, start, 32)[a + k] == ReadBytes(m, addr, n)[k] {
      assert AddrAdd(start, a + k) == AddrAdd(addr, k);
    }
  }

  /** Writing a whole patched leaf writes just the patch. */
  lemma PatchIsWrite(m: Flat, addr: u64, data: seq<byte>)
    requires addr % 32 + |data| <= 32
    ensures WriteBytes(m, addr - addr % 32, Patched(ReadBytes(m, addr - addr % 32, 32), addr % 32, data)) == WriteBytes(m, addr, data)
  {
    var start, a := addr - addr % 32, addr % 32;
    var leaf := ReadBytes(m, start, 32);
    var l, r := WriteBytes(m, start, Patched(leaf, a, data)), WriteBytes(m, addr, data);
    forall x | 0 <= x < TWO64 ensures l[x] == r[x] {
      var k := AddrSub(x, start);
      if k < 32 {
        AddrInverse(start, x);
        assert leaf[k] == m[x];
        if a <= k < a + |data| {
          assert AddrSub(x, addr) == k - a;
        } else {
          assert AddrSub(x, addr) >= |data|;
        }
      } else {
        assert AddrSub(x, addr) >= |data|;
      }
    }
    assert l == r;
  }

  /** What merging preimage data into a leaf writes. */
  lemma MergeFacts(m: Flat, acc: Account, recording: bool, addr: u64, n: u64, dat: Bytes32)
    requires addr % 32 + n <= 32
    ensures var at := Alignment(Native, addr);
      && at <= addr && (addr - at) % 32 == 0 && (addr - at) / 32 == addr / 32 && at + n <= 32
      && var v := MergePreimage(Native, ReadBytes(m, addr - at, 32), dat, at, n);
         && WriteBytes(m, addr - at, v) == WriteBytes(m, addr, dat[..n])
         && MergeNote(acc, recording, m, addr, dat[..n]) == Note(Track(acc, recording, addr - at), H.Write(addr - at, v))
  {
    hide WriteBytes, ReadBytes, MergePreimage, MergeNote, TrackLeaf, Track, Note;
    Aligned(addr);
    TrackIs(acc, recording, addr);
    MergeNoteIs(acc, recording, m, addr, dat[..n]);
    PatchIsWrite(m, addr, dat[..n]);
    MergePreimagePatches(Native, ReadBytes(m, addr - addr % 32, 32), dat, addr % 32, n);
  }

  lemma InChunk(addr: u64, n: nat)
    requires addr % 32 + n <= 32
    ensures addr % 64 + n <= 64
  {
  }

  lemma LeafFacts(addr: u64, size: nat)
    requires 1 <= size <= 32
    ensures (addr - addr % 32) % 32 == 0 && (addr - addr % 32) / 32 == addr / 32 && (addr - addr % 32) / 4096 == addr / 4096
    ensures LeafStart(Native, Add64(Native, addr, Sub64(Native, size, 1)))
         == if TwoSided(addr, size) then RightLeaf(addr) else addr - addr % 32
    ensures RightLeaf(addr) != addr - addr % 32 && RightLeaf(addr) % 32 == 0
    ensures TwoSided(addr, size) <==> addr % 32 + size > 32
  {
    hide *;
    LastLeaf(Native, addr, size);
    RightIsElsewhere(addr);
    Aligned(addr);
    LeafPage(addr);
    TwoSidedIs(addr, size);
  }

  lemma LeafPage(addr: u64)
    ensures (addr - addr % 32) / 4096 == addr / 4096
  {
    assert addr / 4096 == addr / 32 / 128 && (addr - addr % 32) / 4096 == (addr - addr % 32) / 32 / 128;
  }

  /** The split of a store that goes on in the next leaf. */
  lemma SplitFacts(K: Hash, m: Flat, acc: Account, recording: bool, addr: u64, data: seq<byte>)
    requires 1 <= |data| <= 32 && TwoSided(addr, |data|)
    ensures 32 < TWO64 && Add64(Native, LeafStart(Native, addr), 32) == RightLeaf(addr) && RightLeaf(addr) % 32 == 0
    ensures Sub64(Native, RightLeaf(addr), addr) == 32 - addr % 32 && 0 < 32 - addr % 32 <= |data|
    ensures RightLeaf(addr) % 32 + |data| - (32 - addr % 32) <= 32
    ensures var n := 32 - addr % 32;
      && WriteBytes(WriteBytes(m, addr, data[..n]), RightLeaf(addr), data[n..]) == WriteBytes(m, addr, data)
      && PutNote(acc, recording, addr, data)
         == Note(Track(Note(acc, H.Write(addr, data[..n])), recording, RightLeaf(addr)), H.Write(RightLeaf(addr), data[n..]))
  {
    hide WriteBytes, PutNote, Note, Track;
    SplitAt(addr, |data|);
    WritesAre(K, m, addr, data);
    PutNoteIs(acc, recording, addr, data);
  }

  lemma SplitAt(addr: u64, size: nat)
    requires 1 <= size <= 32 && TwoSided(addr, size)
    ensures LeafStart(Native, addr) == addr - addr % 32
    ensures Add64(Native, addr - addr % 32, 32) == RightLeaf(addr) && RightLeaf(addr) % 32 == 0
    ensures Sub64(Native, RightLeaf(addr), addr) == 32 - addr % 32
    ensures RightLeaf(addr) % 32 + size - (32 - addr % 32) <= 32 && 0 < 32 - addr % 32 <= size
  {
    hide Add64, Sub64, LeafStart;
    SumIs(Native, addr - addr % 32, 32);
    SumIs(Native, RightLeaf(addr), addr);
    RightIsElsewhere(addr);
  }

  lemma ReadsAre(K: Hash, m: Flat, addr: u64, size: nat)
    ensures Reads(K, m, addr, size) == [ProofOf(K, m, addr / 32)]
      + if TwoSided(addr, size) then [ProofOf(K, m, RightLeaf(addr) / 32)] else []
  {
  }

  lemma WritesAre(K: Hash, m: Flat, addr: u64, data: seq<byte>)
    requires 1 <= |data| <= 32
    ensures var n := 32 - addr % 32;
      && Writes(K, m, addr, data) == [ProofOf(K, m, addr / 32)]
         + (if TwoSided(addr, |data|) then [ProofOf(K, WriteBytes(m, addr, data[..n]), RightLeaf(addr) / 32)] else [])
      && (TwoSided(addr, |data|) ==>
            WriteBytes(WriteBytes(m, addr, data[..n]), RightLeaf(addr), data[n..]) == WriteBytes(m, addr, data))
  {
    if TwoSided(addr, |data|) {
      var n := 32 - addr % 32;
      Sim.RightIsNext(addr, n);
      WriteTwice(m, addr, data[..n], data[n..]);
      assert data[..n] + data[n..] == data;
    }
  }
}
