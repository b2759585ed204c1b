/** The account of what steps of the fast VM do to the hash caches of its memory: along which runs,
    with proofs taken at some of the steps (rvgo/cmd/run.go), the caches stay coherent. */
module Accounts {
  import opened Words
  import opened Bytes
  import opened FlatMemory
  import opened Yul64
  import opened Cpu
  import opened WordBytes
  import opened Reference
  import opened PageTree
  import opened CachedMemory
  import H = History

  /** Whether all writes so far were allowed, and what is known of the pages. */
  datatype Account = Account(guarded: bool, marks: nat -> H.Mark)

  ghost function Note(acc: Account, op: H.Op): Account {
    Account(acc.guarded && H.Allowed(acc.marks, op), H.After(acc.marks, op))
  }

  /** As long as all writes were allowed the caches are coherent, and the marks fit the flags. */
  ghost predicate Tallies(m: Memory, acc: Account)
    reads m`pages, m`tree, m`nodes, m`flat, m`dataArrays, m`cacheArrays, m`okArrays
    reads m.nodes, m.dataArrays, m.cacheArrays, m.okArrays
  {
    acc.guarded ==> m.Coherent() && H.Fit(m, acc.marks)
  }

  lemma TalliesIs(m: Memory, acc: Account)
    ensures Tallies(m, acc) <==> (acc.guarded ==> m.Coherent() && H.Fit(m, acc.marks))
  {
  }

  /** An allowed write can be made. */
  lemma CanPut(m: Memory, acc: Account, addr: u64, data: seq<byte>)
    requires Tallies(m, acc) && |data| <= 32
    ensures Note(acc, H.Write(addr, data)).guarded ==> m.Coherent() && m.CanWrite(addr, data)
  {
    hide H.Fit, H.Allowed, Memory.CanWrite, Memory.Coherent;
    if acc.guarded && H.Allowed(acc.marks, H.Write(addr, data)) {
      H.AllowedCanWrite(m, addr, data, acc.marks);
    }
  }

  twostate lemma PutTallies(m: Memory, new acc: Account, new addr: u64, new data: seq<byte>)
    requires old(Tallies(m, acc)) && |data| <= 32
    requires forall qi :: m.OkOf(qi) == FlagsAfter(old(m.OkOf(qi)), qi, addr, |data|)
    requires Note(acc, H.Write(addr, data)).guarded ==> m.Coherent()
    ensures Tallies(m, Note(acc, H.Write(addr, data)))
  {
    hide H.Fit, H.Allowed, Memory.CanWrite, Memory.Coherent, Memory.OkOf, H.After, FlagsAfter;
    if acc.guarded {
      H.WriteFits(m, addr, data, acc.marks);
    }
  }

  /** After a root or a proof was taken. */
  twostate lemma HashTallies(m: Memory, new acc: Account, new op: H.Op)
    requires old(Tallies(m, acc)) && !op.Write? && m.Coherent() && m.Dirty() == {}
    requires m.pages == old(m.pages) && m.okArrays == old(m.okArrays) && old(m.Shape()) && m.Shape()
    ensures Tallies(m, Note(acc, op))
  {
    hide H.Fit, H.Allowed, Memory.Coherent, Memory.Dirty, H.After, Memory.Shape;
    if acc.guarded {
      H.HashedFits(m, op, acc.marks);
    }
  }

  // ----- what a step does -----

  /** A branch is taken in a step with proofs only. */
  ghost function Track(acc: Account, recording: bool, addr: u64): Account {
    if recording then Note(acc, H.TakeProof(addr)) else acc
  }

  /** The branch of the leaf that addr lies in. */
  ghost function TrackLeaf(acc: Account, recording: bool, addr: u64): Account {
    Track(acc, recording, addr - addr % 32)
  }

  ghost function LoadNote(acc: Account, recording: bool, addr: u64, size: nat): Account {
    var left := TrackLeaf(acc, recording, addr);
    if TwoSided(addr, size) then Track(left, recording, RightLeaf(addr)) else left
  }

  /** A store whose first leaf is proved; what goes on in the next leaf is a second write. */
  ghost function PutNote(acc: Account, recording: bool, addr: u64, data: seq<byte>): Account
    requires |data| <= 32
  {
    if TwoSided(addr, |data|) then
      var n := 32 - addr % 32;
      Note(Track(Note(acc, H.Write(addr, data[..n])), recording, RightLeaf(addr)), H.Write(RightLeaf(addr), data[n..]))
    else Note(acc, H.Write(addr, data))
  }

  /** The same with the branch of the first leaf, if it is still to be taken. */
  ghost function StoredNote(acc: Account, recording: bool, verify: bool, addr: u64, data: seq<byte>): Account
    requires |data| <= 32
  {
    PutNote(TrackLeaf(acc, recording && verify, addr), recording, addr, data)
  }

  /** Preimage data is merged into its leaf, and the whole leaf is written. */
  ghost function MergeNote(acc: Account, recording: bool, m: Flat, addr: u64, data: seq<byte>): Account
    requires addr % 32 + |data| <= 32
  {
    var leaf := addr - addr % 32;
    Note(TrackLeaf(acc, recording, addr), H.Write(leaf, Patched(ReadBytes(m, leaf, 32), addr % 32, data)))
  }

  ghost function ActionNote(acc: Account, recording: bool, oracle: Oracle, m: Flat, a: Action): Account
    requires WellFormed(a)
  {
    match a
    case Done(_) => acc
    case Output(_, _, _, _) => acc
    case LoadTo(_, addr, size, _, _) => LoadNote(acc, recording, addr, size)
    case StoreAt(addr, size, value, _) => StoredNote(acc, recording, true, addr, ToLE(value, size))
    case AtomicAt(op, _, addr, size, operand, _) =>
      var v := LoadValue(ReadBytes(m, addr, size), true);
      StoredNote(LoadNote(acc, recording, addr, size), recording, false, addr, ToLE(AtomicValue(Native, op, v, operand), size))
    case KeyWrite(addr, _, _) => TrackLeaf(acc, recording, addr)
    case PreimageRead(addr, count, next) =>
      match oracle(next.preimageKey, next.preimageOffset)
      case None => acc
      case Some(c) =>
        if c.len == 0 then acc
        else MergeNote(acc, recording, m, addr, c.dat[..ReadCount(Native, addr, count, c.len)])
  }

  /** One instruction. */
  ghost function StepNote(acc: Account, recording: bool, oracle: Oracle, c: Cpu, m: Flat): Account {
    if c.exited || TwoSided(c.pc, 4) then acc
    else
      var fetched := TrackLeaf(acc, recording, c.pc);
      match Decode(Native, Started(c), Instruction(m, c.pc))
      case None => fetched
      case Some(a) =>
        DecodeWellFormed(Started(c), Instruction(m, c.pc));
        ActionNote(fetched, recording, oracle, m, a)
  }

  // ----- the definitions, for proofs that hide them -----

  lemma TrackIs(acc: Account, recording: bool, addr: u64)
    ensures Track(acc, false, addr) == acc
    ensures TrackLeaf(acc, recording, addr) == Track(acc, recording, addr - addr % 32)
    ensures Track(acc, recording, addr).guarded == acc.guarded
  {
  }

  lemma LoadNoteIs(acc: Account, recording: bool, addr: u64, size: nat)
    ensures LoadNote(acc, recording, addr, size)
         == var left := TrackLeaf(acc, recording, addr);
            if TwoSided(addr, size) then Track(left, recording, RightLeaf(addr)) else left
  {
  }

  lemma PutNoteIs(acc: Account, recording: bool, addr: u64, data: seq<byte>)
    requires 1 <= |data| <= 32
    ensures PutNote(acc, recording, addr, data)
         == if TwoSided(addr, |data|) then
              var n := 32 - addr % 32;
              Note(Track(Note(acc, H.Write(addr, data[..n])), recording, RightLeaf(addr)), H.Write(RightLeaf(addr), data[n..]))
            else Note(acc, H.Write(addr, data))
  {
    hide Note, Track;
  }

  lemma StoredNoteIs(acc: Account, recording: bool, verify: bool, addr: u64, data: seq<byte>)
    requires |data| <= 32
    ensures StoredNote(acc, recording, verify, addr, data)
         == PutNote(TrackLeaf(acc, recording && verify, addr), recording, addr, data)
  {
    hide Note, PutNote;
  }

  lemma MergeNoteIs(acc: Account, recording: bool, m: Flat, addr: u64, data: seq<byte>)
    requires addr % 32 + |data| <= 32
    ensures var leaf := addr - addr % 32;
      MergeNote(acc, recording, m, addr, data)
        == Note(TrackLeaf(acc, recording, addr), H.Write(leaf, Patched(ReadBytes(m, leaf, 32), addr % 32, data)))
  {
    hide Note, TrackLeaf, Patched, ReadBytes;
  }

  // ----- what keeps the account in order -----

  /** Every page that exists was hashed, and not written since. */
  ghost predicate AllHashed(marks: nat -> H.Mark) {
    forall pi: nat :: marks(pi).Absent? || marks(pi).Hashed?
  }

  /** No page was ever hashed. */
  ghost predicate AllFresh(marks: nat -> H.Mark) {
    forall pi: nat :: H.Fresh(marks(pi))
  }

  /** A write within one leaf reaches one page. */
  lemma OneLeaf(marks: nat -> H.Mark, addr: u64, data: seq<byte>)
    requires addr % 32 + |data| <= 32
    ensures H.Allowed(marks, H.Write(addr, data)) <==> H.Takes(marks(addr / 4096), addr % 4096, |data|)
    ensures addr % 4096 % 64 + |data| <= 64 && Touched(addr, |data|) == {addr / 4096}
  {
    LeafInPage(addr, |data|);
  }

  lemma LeafInPage(addr: u64, n: nat)
    requires addr % 32 + n <= 32
    ensures addr % 4096 + n <= 4096 && addr % 4096 % 64 + n <= 64
  {
  }

  /** In a step with proofs every write is allowed. */
  lemma ProvedPut(acc: Account, addr: u64, data: seq<byte>)
    requires AllHashed(acc.marks) && 1 <= |data| <= 32
    ensures PutNote(acc, true, addr, data).guarded == acc.guarded
  {
    hide H.Allowed, Touched;
    if TwoSided(addr, |data|) {
      var n := 32 - addr % 32;
      var half := Note(acc, H.Write(addr, data[..n]));
      OneLeaf(acc.marks, addr, data[..n]);
      assert half.guarded == acc.guarded;
      RightIsElsewhere(addr);
      TrackedIsHashed(half, RightLeaf(addr));
      OneLeaf(Track(half, true, RightLeaf(addr)).marks, RightLeaf(addr), data[n..]);
    } else {
      OneLeaf(acc.marks, addr, data);
    }
  }

  lemma TrackedIsHashed(acc: Account, addr: u64)
    ensures AllHashed(TrackLeaf(acc, true, addr).marks) && TrackLeaf(acc, true, addr).guarded == acc.guarded
    ensures AllHashed(Track(acc, true, addr).marks) && Track(acc, true, addr).guarded == acc.guarded
  {
    HashedAfter(acc, H.TakeProof(addr));
    HashedAfter(acc, H.TakeProof(addr - addr % 32));
  }

  lemma HashedAfter(acc: Account, op: H.Op)
    requires !op.Write?
    ensures AllHashed(Note(acc, op).marks) && Note(acc, op).guarded == acc.guarded
  {
    forall pi: nat ensures Note(acc, op).marks(pi) == if acc.marks(pi).Absent? then H.Absent else H.Hashed {
    }
  }

  lemma LoadedIsHashed(acc: Account, addr: u64, size: nat)
    ensures AllHashed(LoadNote(acc, true, addr, size).marks) && LoadNote(acc, true, addr, size).guarded == acc.guarded
  {
    hide TrackLeaf, Track, AllHashed;
    TrackedIsHashed(acc, addr);
    TrackedIsHashed(TrackLeaf(acc, true, addr), RightLeaf(addr));
  }

  /** A step with proofs cannot spoil the caches. */
  lemma ProvedStepKeeps(acc: Account, oracle: Oracle, c: Cpu, m: Flat)
    ensures StepNote(acc, true, oracle, c, m).guarded == acc.guarded
  {
    hide Decode, Instruction, ActionNote, WellFormed, TrackLeaf;
    TrackedIsHashed(acc, c.pc);
    if !c.exited && !TwoSided(c.pc, 4) && Decode(Native, Started(c), Instruction(m, c.pc)).Some? {
      DecodeWellFormed(Started(c), Instruction(m, c.pc));
      ProvedActionKeeps(TrackLeaf(acc, true, c.pc), oracle, m, Decode(Native, Started(c), Instruction(m, c.pc)).value);
    }
  }

  lemma ProvedActionKeeps(acc: Account, oracle: Oracle, m: Flat, a: Action)
    requires WellFormed(a)
    ensures ActionNote(acc, true, oracle, m, a).guarded == acc.guarded
  {
    hide TrackLeaf, LoadNote, PutNote, AllHashed, ToLE, AtomicValue, LoadValue, ReadBytes, KnownAtomic, MergeNote;
    match a
    case LoadTo(_, addr, size, _, _) =>
      LoadedIsHashed(acc, addr, size);
    case StoreAt(addr, size, value, _) =>
      TrackedIsHashed(acc, addr);
      ProvedPut(TrackLeaf(acc, true, addr), addr, ToLE(value, size));
    case AtomicAt(op, _, addr, size, operand, _) =>
      LoadedIsHashed(acc, addr, size);
      var data := ToLE(AtomicValue(Native, op, LoadValue(ReadBytes(m, addr, size), true), operand), size);
      TrackIs(LoadNote(acc, true, addr, size), false, addr);
      ProvedPut(LoadNote(acc, true, addr, size), addr, data);
    case KeyWrite(addr, _, _) =>
      TrackedIsHashed(acc, addr);
    case PreimageRead(addr, count, next) =>
      var part := oracle(next.preimageKey, next.preimageOffset);
      if part.Some? && part.value.len != 0 {
        ProvedMerge(acc, m, addr, part.value.dat[..ReadCount(Native, addr, count, part.value.len)]);
      }
    case _ =>
  }

  lemma ProvedMerge(acc: Account, m: Flat, addr: u64, data: seq<byte>)
    requires addr % 32 + |data| <= 32
    ensures MergeNote(acc, true, m, addr, data).guarded == acc.guarded
  {
    hide TrackLeaf, H.Allowed, Touched, Patched, ReadBytes;
    var leaf := addr - addr % 32;
    TrackedIsHashed(acc, addr);
    OneLeaf(TrackLeaf(acc, true, addr).marks, leaf, Patched(ReadBytes(m, leaf, 32), addr % 32, data));
  }

  /** Before the first root or proof, every write is allowed. */
  lemma FreshNote(acc: Account, op: H.Op)
    requires AllFresh(acc.marks) && op.Write?
    ensures AllFresh(Note(acc, op).marks) && Note(acc, op).guarded == acc.guarded
  {
    hide Touched;
    forall pi: nat ensures H.Fresh(Note(acc, op).marks(pi)) {
      assert H.Fresh(acc.marks(pi));
    }
    assert H.Allowed(acc.marks, op) by {
      assert H.Fresh(acc.marks(op.addr / 4096));
      var d := InPage(op.addr, |op.data|);
      if d < |op.data| <= 32 {
        assert H.Fresh(acc.marks(AddrAdd(op.addr, d) / 4096));
      }
    }
  }

  lemma FreshPut(acc: Account, addr: u64, data: seq<byte>)
    requires AllFresh(acc.marks) && |data| <= 32
    ensures var acc' := PutNote(acc, false, addr, data); AllFresh(acc'.marks) && acc'.guarded == acc.guarded
  {
    hide Note, AllFresh;
    if TwoSided(addr, |data|) {
      var n := 32 - addr % 32;
      FreshNote(acc, H.Write(addr, data[..n]));
      FreshNote(Note(acc, H.Write(addr, data[..n])), H.Write(RightLeaf(addr), data[n..]));
    } else {
      FreshNote(acc, H.Write(addr, data));
    }
  }

  lemma FreshStep(acc: Account, oracle: Oracle, c: Cpu, m: Flat)
    requires AllFresh(acc.marks)
    ensures var acc' := StepNote(acc, false, oracle, c, m); AllFresh(acc'.marks) && acc'.guarded == acc.guarded
  {
    hide Decode, Instruction, PutNote, Note, AllFresh, WellFormed, KnownAtomic, ToLE, AtomicValue, LoadValue, ReadBytes, Patched;
    if !c.exited && !TwoSided(c.pc, 4) && Decode(Native, Started(c), Instruction(m, c.pc)).Some? {
      DecodeWellFormed(Started(c), Instruction(m, c.pc));
      FreshAction(acc, oracle, m, Decode(Native, Started(c), Instruction(m, c.pc)).value);
    }
  }

  lemma FreshAction(acc: Account, oracle: Oracle, m: Flat, a: Action)
    requires AllFresh(acc.marks) && WellFormed(a)
    ensures var acc' := ActionNote(acc, false, oracle, m, a); AllFresh(acc'.marks) && acc'.guarded == acc.guarded
  {
    hide PutNote, Note, AllFresh, KnownAtomic, ToLE, AtomicValue, LoadValue, ReadBytes, Patched;
    match a
    case StoreAt(addr, size, value, _) =>
      FreshPut(acc, addr, ToLE(value, size));
    case AtomicAt(op, _, addr, size, operand, _) =>
      FreshPut(acc, addr, ToLE(AtomicValue(Native, op, LoadValue(ReadBytes(m, addr, size), true), operand), size));
    case PreimageRead(addr, count, next) =>
      var part := oracle(next.preimageKey, next.preimageOffset);
      if part.Some? && part.value.len != 0 {
        var data := part.value.dat[..ReadCount(Native, addr, count, part.value.len)];
        var leaf := addr - addr % 32;
        FreshNote(acc, H.Write(leaf, Patched(ReadBytes(m, leaf, 32), addr % 32, data)));
      }
    case _ =>
  }

  /** Whether a step without proofs is allowed depends on the marks only. */
  lemma StepSplits(acc: Account, oracle: Oracle, c: Cpu, m: Flat)
    ensures var alone := StepNote(Account(true, acc.marks), false, oracle, c, m);
      StepNote(acc, false, oracle, c, m) == Account(acc.guarded && alone.guarded, alone.marks)
  {
    hide Decode, Instruction, ActionNote, WellFormed;
    if !c.exited && !TwoSided(c.pc, 4) && Decode(Native, Started(c), Instruction(m, c.pc)).Some? {
      DecodeWellFormed(Started(c), Instruction(m, c.pc));
      ActionSplits(acc, oracle, m, Decode(Native, Started(c), Instruction(m, c.pc)).value);
    }
  }

  lemma ActionSplits(acc: Account, oracle: Oracle, m: Flat, a: Action)
    requires WellFormed(a)
    ensures var alone := ActionNote(Account(true, acc.marks), false, oracle, m, a);
      ActionNote(acc, false, oracle, m, a) == Account(acc.guarded && alone.guarded, alone.marks)
  {
    hide H.Allowed, H.After, KnownAtomic, ToLE, AtomicValue, LoadValue, ReadBytes, Patched;
  }

  /** What one store without proofs can do to a hashed memory. To a page that was hashed and not written
      since, it is allowed exactly if it stays in one chunk of 64 bytes, or crosses into a page that
      takes the rest: a store of two bytes to an address that is 63 modulo 64 is not. */
  lemma StoreOnHashed(acc: Account, addr: u64, data: seq<byte>)
    requires acc.marks(addr / 4096) == H.Hashed && 1 <= |data| <= 32
    ensures var rest := |data| - (32 - addr % 32);
      StoredNote(acc, false, true, addr, data).guarded <==>
        (acc.guarded && (addr % 64 + |data| <= 64
                         || (addr % 4096 + |data| > 4096 && H.Takes(acc.marks(RightLeaf(addr) / 4096), 0, rest))))
  {
    hide H.Allowed, Touched;
    assert StoredNote(acc, false, true, addr, data) == PutNote(acc, false, addr, data);
    LeafChunks(addr, |data|);
    if TwoSided(addr, |data|) {
      var n := 32 - addr % 32;
      var half := Note(acc, H.Write(addr, data[..n]));
      OneLeaf(acc.marks, addr, data[..n]);
      RightIsElsewhere(addr);
      OneLeaf(half.marks, RightLeaf(addr), data[n..]);
      assert half.marks(RightLeaf(addr) / 4096) == if RightLeaf(addr) / 4096 == addr / 4096 then H.Cleared(addr % 4096 / 64)
                                                   else acc.marks(RightLeaf(addr) / 4096);
    } else {
      OneLeaf(acc.marks, addr, data);
    }
  }

  /** The chunks that a store reaches. */
  lemma LeafChunks(addr: u64, size: nat)
    requires 1 <= size <= 32
    ensures !TwoSided(addr, size) ==> addr % 64 + size <= 64
    ensures var right, rest := RightLeaf(addr), addr % 32 + size - 32; TwoSided(addr, size) ==>
      if addr % 4096 + size <= 4096 then
        && right / 4096 == addr / 4096 && right % 4096 % 64 + rest <= 64
        && (right % 4096 / 64 == addr % 4096 / 64 <==> addr % 64 + size <= 64)
      else right / 4096 != addr / 4096 && right % 4096 == 0 && addr % 64 + size > 64
  {
    hide RightLeaf;
    LeafOffsets(addr);
    OffsetChunks(addr % 4096, size);
    if TwoSided(addr, size) {
      if addr % 4096 + size <= 4096 {
        NextLeafInPage(addr);
      } else {
        NextLeafBehindPage(addr);
      }
    }
  }

  /** The same for offsets in a page. */
  lemma OffsetChunks(a: nat, size: nat)
    requires a < 4096 && 1 <= size <= 32
    ensures a % 32 + size <= 32 ==> a % 64 + size <= 64
    ensures a % 32 + size > 32 && a + size <= 4096 ==> var r := a - a % 32 + 32;
      && r < 4096 && r % 64 + (a % 32 + size - 32) <= 64 && (r / 64 == a / 64 <==> a % 64 + size <= 64)
    ensures a + size > 4096 ==> a % 64 + size > 64 && a - a % 32 == 4064
  {
    var q, t := a / 64, a % 64;
    assert a == 64 * q + t;
    if t < 32 {
      DivUnique(a, 32, 2 * q, t);
      DivUnique(64 * q + 32, 64, q, 32);
    } else {
      DivUnique(a, 32, 2 * q + 1, t - 32);
      DivUnique(64 * q + 64, 64, q + 1, 0);
    }
  }

  lemma LeafOffsets(addr: u64)
    ensures addr % 32 == addr % 4096 % 32 && addr % 64 == addr % 4096 % 64 && addr % 32 == addr % 64 % 32
  {
    ModMod(addr, 32, 128);
    ModMod(addr, 64, 64);
    ModMod(addr, 32, 2);
  }

  lemma NextLeafInPage(addr: u64)
    requires addr % 4096 - addr % 32 + 32 < 4096
    ensures RightLeaf(addr) / 4096 == addr / 4096 && RightLeaf(addr) % 4096 == addr % 4096 - addr % 32 + 32
  {
    var q, r := addr / 4096, addr % 4096 - addr % 32 + 32;
    assert addr - addr % 32 + 32 == q * 4096 + r;
    DivUnique(q * 4096 + r, 4096, q, r);
    assert q * 4096 + r < TWO64;
  }

  lemma NextLeafBehindPage(addr: u64)
    requires addr % 4096 - addr % 32 == 4064
    ensures RightLeaf(addr) / 4096 != addr / 4096 && RightLeaf(addr) % 4096 == 0
  {
    var q := addr / 4096;
    assert addr - addr % 32 + 32 == (q + 1) * 4096;
    DivUnique((q + 1) * 4096, 4096, q + 1, 0);
  }

  /** A memory of which nothing was hashed. */
  ghost function BlankMarks(pages: set<nat>): nat -> H.Mark {
    (pi: nat) => if pi in pages then H.Blank else H.Absent
  }

  lemma UnhashedFits(m: Memory)
    requires m.Shape() && m.Unhashed()
    ensures H.Fit(m, BlankMarks(m.pages.Keys)) && AllFresh(BlankMarks(m.pages.Keys))
  {
    hide Memory.FlatOk, Memory.TreeOk, Memory.OkOf, NoFlags;
    forall pi: nat ensures H.Holds(m.OkOf(pi), BlankMarks(m.pages.Keys)(pi)) {
      assert NoFlags(m.OkOf(pi));
      m.FlagsOfPage(pi);
    }
  }
}
