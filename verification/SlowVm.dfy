/** The slow step as the source runs it (rvgo/slow/vm.go): loops over calldata words and over
    bytes, and a state buffer that is overwritten field by field. Every loop is proved against
    the functions of SlowStep. */
module SlowVm {
  import opened Words
  import opened Bytes
  import opened FlatMemory
  import opened Yul64
  import opened Cpu
  import opened WordBytes
  import opened Reference
  import opened Witness
  import Evm
  import Fast = FastYul64
  import Switch = Cpu
  import S = SlowStep

  // ----- folding a branch -----

  lemma AllBranchWords(proof: seq<byte>, idx: nat, k: nat)
    requires k <= 59
    ensures S.ProofOffset(idx) + 32 * k > |proof| ==> !S.HasBranch(proof, idx)
    ensures S.HasBranch(proof, idx) ==> S.ProofOffset(idx) + 32 * k <= |proof|
    ensures S.HasBranch(proof, idx) && k > 0 ==>
      S.CalldataLoad(proof, S.ProofOffset(idx) + 32 * k) == Some(S.Siblings59(proof, idx)[k - 1])
    ensures S.HasBranch(proof, idx) && k == 0 ==>
      S.CalldataLoad(proof, S.ProofOffset(idx)) == Some(S.BranchWord(proof, idx, 0))
  {
  }

  lemma PathBit(path: u64, i: nat)
    requires i < 59
    ensures And64(Wide, Shr64(Wide, i, path), 1) == Shr(path, i) % 2
    ensures Shr(path, i) / 2 == Shr(path, i + 1)
  {
    AndOnes(Shr(path, i), 1);
    assert Low(Shr(path, i), 1) == Shr(path, i) % 2 + 2 * Low(Shr(path, i) / 2, 0);
    ShrShr(path, i, 1);
    assert Shr(Shr(path, i), 1) == Shr(Shr(path, i) / 2, 0);
  }

  lemma PathOf(addr: u64)
    ensures Shr64(Wide, 5, addr) == addr / 32
  {
    PowValues();
    ShrIsDiv(addr, 5);
  }

  lemma FoldStep(K: Hash, node: Bytes32, path: nat, sibs: seq<Bytes32>, i: nat)
    requires i < |sibs|
    ensures Fold(K, node, path, sibs[i..]) == Fold(K, Combine(K, node, sibs[i], path), path / 2, sibs[i + 1..])
  {
    assert sibs[i..][1..] == sibs[i + 1..];
  }

  /** The loop of getMemoryB32 and setMemoryB32: combines a leaf with the 59 siblings that
      follow it in the calldata. */
  method FoldBranch(K: Hash, proof: seq<byte>, leaf: Bytes32, addr: u64, proofIndex: nat) returns (root: Option<Bytes32>)
    requires S.ProofOffset(proofIndex) <= |proof|
    ensures root == if S.HasBranch(proof, proofIndex)
                    then Some(Fold(K, leaf, addr / 32, S.Siblings59(proof, proofIndex))) else None
  {
    hide S.HasBranch, S.Siblings59, S.CalldataLoad, Fold, Shr, Shr64, And64, S.ProofOffset;
    var offset := S.ProofOffset(proofIndex) + 32;
    var path := Shr64(Wide, 5, addr); // the leaf index
    var node := leaf;
    PathOf(addr);
    ShrNone(path);
    ghost var sibs := if S.HasBranch(proof, proofIndex) then S.Siblings59(proof, proofIndex) else seq(59, _ => ZERO32);
    assert sibs[0..] == sibs;
    for i := 0 to 59
      invariant offset == S.ProofOffset(proofIndex) + 32 * (i + 1)
      invariant |sibs| == 59 && S.ProofOffset(proofIndex) + 32 * i <= |proof|
      invariant S.HasBranch(proof, proofIndex) ==> Fold(K, node, Shr(path, i), sibs[i..]) == Fold(K, leaf, addr / 32, sibs)
    {
      AllBranchWords(proof, proofIndex, i + 1);
      CalldataEnds(proof, offset);
      var sibling := S.CalldataLoad(proof, offset);
      if sibling.None? {
        return None;
      }
      offset := offset + 32;
      PathBit(path, i);
      if S.HasBranch(proof, proofIndex) {
        FoldStep(K, node, Shr(path, i), sibs, i);
      }
      if And64(Wide, Shr64(Wide, i, path), 1) == 0 {
        node := HashPair(K, node, sibling.value);
      } else {
        node := HashPair(K, sibling.value, node);
      }
    }
    AllBranchWords(proof, proofIndex, 59);
    LastWord(proof, proofIndex);
    FoldNone(K, node, Shr(path, 59), sibs[59..]);
    return Some(node);
  }

  lemma LastWord(proof: seq<byte>, idx: nat)
    ensures S.ProofOffset(idx) + 32 * 59 <= |proof| ==> S.HasBranch(proof, idx)
  {
  }

  lemma ShrNone(path: nat)
    ensures Shr(path, 0) == path
  {
  }

  lemma FoldNone(K: Hash, node: Bytes32, path: nat, sibs: seq<Bytes32>)
    ensures |sibs| == 0 ==> Fold(K, node, path, sibs) == node
  {
  }

  lemma CalldataEnds(proof: seq<byte>, offset: nat)
    ensures S.CalldataLoad(proof, offset).None? <==> offset > |proof|
  {
  }

  // ----- loading -----

  /** Taking the lowest byte of a right-aligned word. */
  lemma TakeByte(s: seq<byte>)
    requires 0 < |s| <= 32
    ensures FromBE(s) < TWO256 && Evm.And(FromBE(s), 0xff) == s[|s| - 1]
    ensures Evm.Shr(8, FromBE(s)) == FromBE(s[..|s| - 1])
  {
    hide FromBE, And, Pow2;
    var h := s[..|s| - 1];
    LastByte(s);
    WordSize(s);
    EightBits();
    AndOnes(FromBE(s), 8);
    DigitsUnique(FromBE(s), 8, FromBE(h), s[|s| - 1]);
  }

  lemma EightBits()
    ensures Pow2(8) == 256
  {
  }

  lemma WordSize(s: seq<byte>)
    requires |s| <= 32
    ensures FromBE(s) < TWO256
  {
    FromBEBound(s);
    PowValues();
    PowMonotone(8 * |s|, 256);
  }

  lemma ByteRoom(v: nat, n: nat)
    requires n < 8 && v < Pow2(8 * n)
    ensures 256 * v < TWO64 - 255
  {
    hide Pow2;
    PowMonotone(8 * n, 56);
    PowValues();
    PowAdd(56, 8);
    EightBits();
  }

  lemma TimesByte(v: nat, b: byte)
    requires 256 * v < TWO64 - 255
    ensures Fast.Shl64(8, v) == 256 * v && Fast.Or64(256 * v, b) == 256 * v + b
  {
    hide Pow2, Shl, Or;
    EightBits();
    ShlIsMul(v, 8);
    OrDisjoint(v, b, 8);
  }

  /** Appending a byte below the bytes collected so far. */
  lemma AppendByte(t: seq<byte>, b: byte)
    requires |t| < 8
    ensures FromLE([b] + t) < TWO64
    ensures FromLE(t) < TWO64 && Or64(Wide, Shl64(Wide, 8, FromLE(t)), b) == FromLE([b] + t)
  {
    assert ([b] + t)[1..] == t;
    assert FromLE([b] + t) == b + 256 * FromLE(t);
    FromLEBound(t);
    hide Fast.Shl64, Fast.Or64, FromLE, Pow2;
    ByteRoom(FromLE(t), |t|);
    TimesByte(FromLE(t), b);
  }

  lemma SignExtended(s: seq<byte>)
    requires 1 <= |s| <= 8
    ensures FromLE(s) < TWO64 && Fast.SignExtend64(FromLE(s), 8 * |s| - 1) == LoadValue(s, true)
    ensures LoadValue(s, false) == FromLE(s)
  {
    hide Pow2, Fast.SignExtend64, FromLE;
    var bit := 8 * |s| - 1;
    FromLEBound(s);
    Fast.PowBelow(bit);
    Fast.SignExtendMeans(FromLE(s), bit);
    SmallResidue(FromLE(s), Pow2(bit + 1));
    SmallResidue(FromLE(s), TWO64);
  }

  lemma AddressBack(addr: u64, size: nat, i: nat)
    requires i < size <= 8
    ensures Sub64(Wide, Sub64(Wide, Add64(Wide, addr, size), 1), i) == AddrAdd(addr, size - 1 - i)
  {
    hide Add64, Sub64;
    SumIs(Wide, addr, size);
    SumIs(Wide, AddrAdd(addr, size), 1);
    SumIs(Wide, AddrSub(AddrAdd(addr, size), 1), i);
  }

  /** The address of the byte that the loop takes next. */
  lemma EffectiveAddress(addr: u64, size: nat, i: nat)
    requires i < size <= 8
    ensures var x := Sub64(Wide, Sub64(Wide, Add64(Wide, addr, size), 1), i);
      (LeafStart(Wide, x) == addr - addr % 32 <==> addr % 32 + size - 1 - i < 32)
  {
    hide *;
    AddressBack(addr, size, i);
    NextByte(addr, size - 1 - i);
    RightIsElsewhere(addr);
  }

  /** The byte loop of loadMem, over the two right-aligned words. T is the left leaf, followed
      by the right one if the access needs it. */
  method TakeBytes(addr: u64, size: nat, leftWord: u256, rightWord: u256, ghost T: seq<byte>) returns (out: u64)
    requires 1 <= size <= 8 && addr % 32 + size <= |T| <= 64
    requires var e := addr % 32 + size;
      leftWord == FromBE(T[..if e < 32 then e else 32]) && rightWord == FromBE(if e > 32 then T[32..e] else [])
    ensures out == FromLE(T[addr % 32..addr % 32 + size])
  {
    hide FromBE, FromLE, Evm.And, Evm.Shr, Or64, Shl64, LeafStart, Sub64, Add64;
    var left, right := leftWord, rightWord;
    ghost var a := addr % 32;
    ghost var e := a + size;
    out := 0;
    NoBytes();
    assert T[e..a + size] == [];
    for i := 0 to size
      invariant e == a + size - i
      invariant left == FromBE(T[..if e < 32 then e else 32]) && right == FromBE(if e > 32 then T[32..e] else [])
      invariant out == FromLE(T[e..a + size])
    {
      var effAddr := LeafStart(Wide, Sub64(Wide, Sub64(Wide, Add64(Wide, addr, size), 1), i));
      EffectiveAddress(addr, size, i);
      var b: u256;
      if effAddr == addr - addr % 32 {
        TakeByte(T[..e]);
        assert T[..e][..e - 1] == T[..e - 1];
        b := Evm.And(left, 0xff);
        left := Evm.Shr(8, left);
      } else {
        TakeByte(T[32..e]);
        assert T[32..e][..e - 33] == if e - 1 > 32 then T[32..e - 1] else [];
        b := Evm.And(right, 0xff);
        right := Evm.Shr(8, right);
      }
      AppendByte(T[e..a + size], T[e - 1]);
      assert T[e - 1..a + size] == [T[e - 1]] + T[e..a + size];
      out := Or64(Wide, Shl64(Wide, 8, out), U256ToU64(Wide, b));
      e := e - 1;
    }
  }

  lemma NoBytes()
    ensures FromLE([]) == 0
  {
  }

  // ----- storing -----

  /** Byte k of a value in memory order. */
  lemma ValueByte(value: u256, k: nat)
    requires k < 32
    ensures Evm.And(Evm.Shr(8 * k, value), 0xff) == ToLE(value, 32)[k]
  {
    hide And, Shr, Pow2;
    ToLEAt(value, 32, k);
    EightBits();
    AndOnes(Shr(value, 8 * k), 8);
    ShrIsDiv(Shr(value, 8 * k), 8);
  }

  /** The 64 bytes of two leaves that a store fills in, zero elsewhere. */
  ghost function PatchOf(a: nat, data: seq<byte>): (s: seq<byte>)
    ensures |s| == 64
  {
    seq(64, j => if InWindow(a, |data|, j) then data[j - a] else 0)
  }

  ghost function MaskOf(a: nat, n: nat): (s: seq<byte>)
    ensures |s| == 64
  {
    seq(64, j => if InWindow(a, n, j) then 255 else 0)
  }

  lemma PushValue(v: nat, b: byte)
    requires 256 * v + b < TWO256
    ensures Evm.Shl(8, v) == 256 * v && Evm.Or(256 * v, b) == 256 * v + b
  {
    hide Pow2, Shl, Or;
    EightBits();
    ShlIsMul(v, 8);
    OrDisjoint(v, b, 8);
  }

  /** Shifting a word left by a byte and putting a byte in. */
  lemma PushByte(s: seq<byte>, b: byte)
    requires |s| < 32
    ensures FromBE(s) < TWO256 && FromBE(s + [b]) < TWO256
    ensures Evm.Or(Evm.Shl(8, FromBE(s)), b) == FromBE(s + [b])
    ensures b == 0 ==> Evm.Shl(8, FromBE(s)) == FromBE(s + [b])
  {
    hide Pow2, Evm.Shl, Evm.Or;
    assert (s + [b])[..|s|] == s;
    assert FromBE(s + [b]) == 256 * FromBE(s) + b;
    hide FromBE;
    WordSize(s);
    WordSize(s + [b]);
    PushValue(FromBE(s), b);
  }

  /** leftAndRight: the patch and the mask of each of the two leaves. */
  method LeftAndRight(alignment: u64, size: u64, value: u256)
      returns (leftMask: u256, rightMask: u256, leftPatch: u256, rightPatch: u256)
    requires alignment < 32 && size <= 32
    ensures leftMask == FromBE(MaskOf(alignment, size)[..32]) && rightMask == FromBE(MaskOf(alignment, size)[32..])
    ensures leftPatch == FromBE(PatchOf(alignment, ToLE(value, size))[..32])
    ensures rightPatch == FromBE(PatchOf(alignment, ToLE(value, size))[32..])
  {
    hide FromBE, ToLE, Evm.And, Evm.Shr, Evm.Or, Evm.Shl, Add64, PatchOf, MaskOf, InWindow;
    leftMask, rightMask, leftPatch, rightPatch := 0, 0, 0, 0;
    ghost var M, P := MaskOf(alignment, size), PatchOf(alignment, ToLE(value, size));
    EmptyValue(M[..0]);
    EmptyValue(P[..0]);
    EmptyValue(M[32..32]);
    EmptyValue(P[32..32]);
    var end := Add64(Wide, alignment, size);
    SmallSum(alignment, size);
    for i := 0 to 64
      invariant leftMask == FromBE(M[..Left(i)]) && leftPatch == FromBE(P[..Left(i)])
      invariant rightMask == FromBE(M[32..Right(i)]) && rightPatch == FromBE(P[32..Right(i)])
    {
      var leftSide := Lt64(Wide, i, 32);
      var hit := Lt64(Wide, i, alignment) == 0 && Lt64(Wide, i, end) != 0; // alignment <= i < alignment + size
      var b := 0;
      if hit {
        b := StoredByte(alignment, size, value, i);
      }
      FilledByte(alignment, ToLE(value, size), i);
      if leftSide == 1 {
        leftPatch := Push(leftPatch, hit, b, P[..i]);
        leftMask := Push(leftMask, hit, 0xff, M[..i]);
        OneMore(P, 0, i);
        OneMore(M, 0, i);
      } else {
        rightPatch := Push(rightPatch, hit, b, P[32..i]);
        rightMask := Push(rightMask, hit, 0xff, M[32..i]);
        OneMore(P, 32, i);
        OneMore(M, 32, i);
      }
    }
    assert M[32..64] == M[32..] && P[32..64] == P[32..];
  }

  lemma OneMore(s: seq<byte>, from: nat, i: nat)
    requires from <= i < |s|
    ensures s[from..i + 1] == s[from..i] + [s[i]] && s[..i] == s[0..i]
  {
  }

  lemma FilledByte(a: nat, data: seq<byte>, i: nat)
    requires i < 64
    ensures PatchOf(a, data)[i] == (if a <= i < a + |data| then data[i - a] else 0)
    ensures MaskOf(a, |data|)[i] == (if a <= i < a + |data| then 255 else 0)
  {
  }

  lemma SmallSum(x: u64, y: u64)
    requires x + y < TWO64
    ensures Add64(Wide, x, y) == x + y
  {
  }

  /** How much of the left leaf the first i bytes cover, and where they end if they go on. */
  function Left(i: nat): nat {
    if i < 32 then i else 32
  }

  function Right(i: nat): nat {
    if i < 32 then 32 else i
  }

  method StoredByte(alignment: u64, size: u64, value: u256, i: nat) returns (b: u256)
    requires alignment < 32 && size <= 32 && alignment <= i < alignment + size && i < 64
    ensures b == ToLE(value, size)[i - alignment] < 256
  {
    hide FromBE, ToLE, Evm.And, Evm.Shr, Shl64;
    ShiftByEight(i - alignment);
    ValueByte(value, i - alignment);
    ToLEPrefix(value, size, 32);
    assert ToLE(value, size)[i - alignment] == ToLE(value, 32)[i - alignment];
    b := Evm.And(Evm.Shr(Shl64(Wide, 3, Sub64(Wide, i, alignment)), value), 0xff);
  }

  lemma ShiftByEight(x: u64)
    requires x <= 32
    ensures Shl64(Wide, 3, x) == 8 * x
  {
    EightTimes(x);
  }

  method Push(word: u256, hit: bool, b: u256, ghost s: seq<byte>) returns (w: u256)
    requires |s| < 32 && word == FromBE(s) && b < 256
    ensures w == FromBE(s + [if hit then b else 0])
  {
    hide FromBE, Evm.Or, Evm.Shl;
    PushByte(s, if hit then b else 0);
    w := Evm.Shl(8, word);
    if hit {
      w := Evm.Or(w, b);
    }
  }

  // ----- words of the stored leaves -----

  /** Applying mask and patch to the word of a leaf replaces the stored bytes. */
  lemma LeafPatched(leaf: Bytes32, a: nat, data: seq<byte>, left: bool, mask: u256, patch: u256)
    requires a < 32 && |data| <= 32
    requires mask == FromBE(if left then MaskOf(a, |data|)[..32] else MaskOf(a, |data|)[32..])
    requires patch == FromBE(if left then PatchOf(a, data)[..32] else PatchOf(a, data)[32..])
    ensures var word := Evm.Or(Evm.And(Evm.B32AsBEWord(leaf), Evm.Not(mask)), patch);
      Evm.BEWordAsB32(word)
      == if !left then (if a + |data| > 32 then Patched(leaf, 0, data[32 - a..]) else leaf)
         else Patched(leaf, a, if a + |data| > 32 then data[..32 - a] else data)
  {
    hide FromBE, ToBE, Evm.And, Evm.Or;
    var o := if left then 0 else 32;
    var m := seq(32, i => InWindow(a, |data|, o + i));
    var p: Bytes32 := PatchOf(a, data)[o..o + 32];
    assert Mask(m) == MaskOf(a, |data|)[o..o + 32];
    assert PatchOf(a, data)[32..] == PatchOf(a, data)[32..64] && MaskOf(a, |data|)[32..] == MaskOf(a, |data|)[32..64];
    PatchKept(leaf, p, m);
    Evm.WordRoundTrip(0, Mix(leaf, p, m));
    assert Mix(leaf, p, m) == if !left then (if a + |data| > 32 then Patched(leaf, 0, data[32 - a..]) else leaf)
                              else Patched(leaf, a, if a + |data| > 32 then data[..32 - a] else data);
  }

  // ----- the state buffer -----

  lemma ChangedRoot(root: Bytes32, c: Cpu, v: Bytes32)
    ensures Parts(v, c) == Parts(root, c)[MEM_ROOT := v]
  {
  }

  lemma ChangedFields(root: Bytes32, c: Cpu, k: Bytes32, v: u64, b: byte)
    ensures Parts(root, c.(preimageKey := k)) == Parts(root, c)[PREIMAGE_KEY := k]
    ensures Parts(root, c.(preimageOffset := v)) == Parts(root, c)[PREIMAGE_OFFSET := U64Bytes(v)]
    ensures Parts(root, c.(pc := v)) == Parts(root, c)[PC := U64Bytes(v)]
    ensures Parts(root, c.(exitCode := b)) == Parts(root, c)[EXIT_CODE := [b]]
    ensures Parts(root, c.(exited := true)) == Parts(root, c)[EXITED := [1]]
    ensures Parts(root, c.(step := v)) == Parts(root, c)[STEP := U64Bytes(v)]
    ensures Parts(root, c.(heap := v)) == Parts(root, c)[HEAP := U64Bytes(v)]
    ensures Parts(root, c.(loadReservation := v)) == Parts(root, c)[LOAD_RESERVATION := U64Bytes(v)]
  {
    hide U64Bytes;
  }

  lemma ChangedRegister(root: Bytes32, c: Cpu, reg: nat, v: u64)
    requires reg < 32
    ensures Parts(root, c.(registers := c.registers[reg := v])) == Parts(root, c)[REGISTERS + reg := U64Bytes(v)]
  {
    hide U64Bytes;
    assert RegisterBytes(c.registers[reg := v]) == RegisterBytes(c.registers)[reg := U64Bytes(v)];
  }

  /** The registers after a leaf was shifted into the preimage key. */
  function KeyAppended(c: Cpu, leaf: Bytes32, addr: u64, count: u64): Cpu {
    var key := AppendToKey(Wide, c.preimageKey, leaf, Alignment(Wide, addr), ClampToLeaf(Wide, addr, count));
    c.(preimageKey := key, preimageOffset := 0)
  }

  class Vm {
    const K: Hash
    const oracle: Oracle
    const proof: seq<byte>
    const stateData: array<byte>
    /** What the buffer encodes. */
    ghost var root: Bytes32
    ghost var cpu: Cpu

    ghost predicate Valid()
      reads this, stateData
    {
      stateData.Length == STATE_SIZE && stateData[..] == Encode(root, cpu)
    }

    /** Copies the state out of the calldata. */
    constructor (K: Hash, oracle: Oracle, state: seq<byte>, proof: seq<byte>)
      requires |state| == STATE_SIZE
      ensures fresh(stateData) && stateData[..] == state
      ensures this.K == K && this.oracle == oracle && this.proof == proof
      ensures root == DecodeRoot(state) && cpu == DecodeCpu(state)
      ensures state[81] <= 1 ==> Valid()
    {
      this.K, this.oracle, this.proof := K, oracle, proof;
      stateData := new byte[STATE_SIZE](i requires 0 <= i < STATE_SIZE => state[i]);
      root, cpu := DecodeRoot(state), DecodeCpu(state);
      new;
      hide Encode, DecodeCpu, DecodeRoot;
      assert stateData[..] == state;
      EncodeDecode(state);
    }

    // ----- fields -----

    method WriteState(offset: nat, data: seq<byte>)
      requires offset + |data| <= stateData.Length
      modifies stateData
      ensures stateData[..] == Spliced(old(stateData[..]), offset, data)
    {
      for k := 0 to |data|
        invariant forall j :: 0 <= j < stateData.Length ==>
          stateData[j] == if offset <= j < offset + k then data[j - offset] else old(stateData[j])
      {
        stateData[offset + k] := data[k];
      }
    }

    method SetField(field: nat, data: seq<byte>, ghost root': Bytes32, ghost cpu': Cpu)
      requires Valid() && field < 41 && |data| == Size(field)
      requires Parts(root', cpu') == Parts(root, cpu)[field := data]
      modifies stateData, `root, `cpu
      ensures Valid() && root == root' && cpu == cpu'
    {
      hide Parts, Encode, Offset, Size, Spliced;
      WritesField(root, cpu, field, data, root', cpu');
      WriteState(Offset(field), data);
      root, cpu := root', cpu';
    }

    function FieldAt(field: nat): (data: seq<byte>)
      requires Valid() && field < 41
      reads this, stateData
      ensures data == Parts(root, cpu)[field]
    {
      ReadsField(root, cpu, field);
      stateData[..][Offset(field)..Offset(field) + Size(field)]
    }

    method GetMemRoot() returns (v: Bytes32)
      requires Valid()
      ensures v == root
    {
      hide Encode;
      v := FieldAt(MEM_ROOT);
    }

    method SetMemRoot(v: Bytes32)
      requires Valid()
      modifies stateData, `root, `cpu
      ensures Valid() && root == v && cpu == old(cpu)
    {
      hide Encode, Parts;
      ChangedRoot(root, cpu, v);
      SetField(MEM_ROOT, v, v, cpu);
    }

    method GetPreimageKey() returns (k: Bytes32)
      requires Valid()
      ensures k == cpu.preimageKey
    {
      hide Encode;
      k := FieldAt(PREIMAGE_KEY);
    }

    method SetPreimageKey(k: Bytes32)
      requires Valid()
      modifies stateData, `root, `cpu
      ensures Valid() && root == old(root) && cpu == old(cpu).(preimageKey := k)
    {
      hide Encode, Parts;
      ChangedFields(root, cpu, k, 0, 0);
      SetField(PREIMAGE_KEY, k, root, cpu.(preimageKey := k));
    }

    method GetPreimageOffset() returns (v: u64)
      requires Valid()
      ensures v == cpu.preimageOffset
    {
      hide Encode, U64At;
      DecodeEncode(root, cpu);
      v := U64At(stateData[..], Offset(PREIMAGE_OFFSET));
    }

    method SetU64(field: nat, v: u64, ghost cpu': Cpu)
      requires Valid() && field < 41 && Size(field) == 8
      requires Parts(root, cpu') == Parts(root, cpu)[field := U64Bytes(v)]
      modifies stateData, `root, `cpu
      ensures Valid() && root == old(root) && cpu == cpu'
    {
      SetField(field, U64Bytes(v), root, cpu');
    }

    method SetPreimageOffset(v: u64)
      requires Valid()
      modifies stateData, `root, `cpu
      ensures Valid() && root == old(root) && cpu == old(cpu).(preimageOffset := v)
    {
      hide Encode, Parts;
      ChangedFields(root, cpu, cpu.preimageKey, v, 0);
      SetU64(PREIMAGE_OFFSET, v, cpu.(preimageOffset := v));
    }

    method SetRegister(reg: nat, v: u64)
      requires Valid() && reg < 32
      modifies stateData, `root, `cpu
      ensures Valid() && root == old(root) && cpu == Switch.SetRegister(old(cpu), reg, v)
    {
      hide Encode, Parts;
      if reg == 0 { // writes to x0 have no effect
        return;
      }
      ChangedRegister(root, cpu, reg, v);
      SetU64(REGISTERS + reg, v, cpu.(registers := cpu.registers[reg := v]));
    }

    /** The switch works on the decoded registers; this writes its result back, field by field. */
    method Commit(next: Cpu)
      requires Valid() && (cpu.exited ==> next.exited)
      modifies stateData, `root, `cpu
      ensures Valid() && root == old(root) && cpu == next
    {
      hide Encode, Parts;
      ChangedFields(root, cpu, next.preimageKey, next.preimageOffset, 0);
      SetU64(PREIMAGE_OFFSET, next.preimageOffset, cpu.(preimageOffset := next.preimageOffset));
      SetPreimageKey(next.preimageKey);
      ChangedFields(root, cpu, next.preimageKey, next.pc, next.exitCode);
      SetU64(PC, next.pc, cpu.(pc := next.pc));
      ChangedFields(root, cpu, next.preimageKey, next.pc, next.exitCode);
      SetField(EXIT_CODE, [next.exitCode], root, cpu.(exitCode := next.exitCode));
      if next.exited {
        ChangedFields(root, cpu, next.preimageKey, next.pc, next.exitCode);
        SetField(EXITED, [1], root, cpu.(exited := true));
      }
      CommitRest(next);
    }

    method CommitRest(next: Cpu)
      requires Valid() && next.(step := cpu.step, heap := cpu.heap, loadReservation := cpu.loadReservation,
                                registers := cpu.registers) == cpu
      modifies stateData, `root, `cpu
      ensures Valid() && root == old(root) && cpu == next
    {
      hide Encode, Parts;
      ChangedFields(root, cpu, next.preimageKey, next.step, 0);
      SetU64(STEP, next.step, cpu.(step := next.step));
      ChangedFields(root, cpu, next.preimageKey, next.heap, 0);
      SetU64(HEAP, next.heap, cpu.(heap := next.heap));
      ChangedFields(root, cpu, next.preimageKey, next.loadReservation, 0);
      SetU64(LOAD_RESERVATION, next.loadReservation, cpu.(loadReservation := next.loadReservation));
      for r := 0 to 32
        invariant Valid() && root == old(root) && cpu == next.(registers := cpu.registers)
        invariant forall k :: 0 <= k < r ==> cpu.registers[k] == next.registers[k]
      {
        ChangedRegister(root, cpu, r, next.registers[r]);
        SetU64(REGISTERS + r, next.registers[r], cpu.(registers := cpu.registers[r := next.registers[r]]));
      }
      assert cpu.registers == next.registers;
    }

    // ----- memory -----

    method GetMemoryB32(addr: u64, proofIndex: nat) returns (out: Option<Bytes32>)
      requires Valid()
      ensures out == S.GetMemoryB32(K, root, proof, addr, proofIndex)
    {
      hide Encode, Parts, Fold, S.Siblings59;
      if Alignment(Wide, addr) != 0 {
        return None;
      }
      var leaf := S.CalldataLoad(proof, S.ProofOffset(proofIndex));
      if leaf.None? {
        return None;
      }
      var node := FoldBranch(K, proof, leaf.value, addr, proofIndex);
      var memRoot := GetMemRoot();
      if node.None? || Evm.B32AsBEWord(node.value) != Evm.B32AsBEWord(memRoot) { // not a branch of this memory
        if node.Some? {
          assert node.value != memRoot;
        }
        return None;
      }
      BEInjective(node.value, memRoot);
      return leaf;
    }

    /** Does not verify the branch: it has been verified with getMemoryB32 before. */
    method SetMemoryB32(addr: u64, v: Bytes32, proofIndex: nat) returns (ok: bool)
      requires Valid() && S.ProofOffset(proofIndex) <= |proof|
      modifies stateData, `root, `cpu
      ensures Valid() && cpu == old(cpu)
      ensures ok == S.SetMemoryB32(K, proof, addr, v, proofIndex).Some?
      ensures ok ==> root == S.SetMemoryB32(K, proof, addr, v, proofIndex).value
    {
      hide Encode, Parts, Fold, S.Siblings59;
      if Alignment(Wide, addr) != 0 {
        return false;
      }
      var node := FoldBranch(K, proof, v, addr, proofIndex);
      if node.None? {
        return false;
      }
      SetMemRoot(node.value);
      return true;
    }

    method LoadMem(addr: u64, size: nat, signed: bool, proofIndexL: nat, proofIndexR: nat) returns (out: Option<u64>)
      requires Valid() && 1 <= size <= 8
      ensures out == S.LoadMem(K, root, proof, addr, size, signed, proofIndexL, proofIndexR)
    {
      hide Encode, Parts, S.GetMemoryB32, LoadValue, RightLeaf, FromBE, FromLE, Evm.Shr, LeafStart;
      var leftAddr := LeafStart(Wide, addr);
      var l := GetMemoryB32(leftAddr, proofIndexL);
      if l.None? {
        return None;
      }
      var left := Evm.B32AsBEWord(l.value);
      var a := addr - leftAddr;
      var rightAddr := LeafStart(Wide, Add64(Wide, addr, Sub64(Wide, size, 1)));
      LastLeaf(Wide, addr, size);
      var v: u64;
      ghost var T: seq<byte> := l.value;
      if leftAddr == rightAddr {
        ShrBytes(l.value, 32 - a - size);
        EmptyValue([]);
        assert T[..a + size] == l.value[..32 - (32 - a - size)];
        left := Evm.Shr(8 * (32 - a - size), left);
        v := TakeBytes(addr, size, left, 0, T);
      } else {
        if proofIndexR == 0xff {
          return None; // no second branch is allowed for
        }
        var r := GetMemoryB32(rightAddr, proofIndexR);
        if r.None? {
          return None;
        }
        T := l.value + r.value;
        ShrBytes(r.value, 64 - a - size);
        var right := Evm.Shr(8 * (64 - a - size), Evm.B32AsBEWord(r.value));
        assert T[..32] == l.value && T[32..a + size] == r.value[..a + size - 32];
        v := TakeBytes(addr, size, left, right, T);
      }
      SignExtended(T[a..a + size]);
      if signed {
        v := SignExtend64(Wide, v, 8 * size - 1);
      }
      return Some(v);
    }

    method PatchLeaf(addr: u64, mask: u256, patch: u256, proofIndex: nat, ghost at: nat, ghost data: seq<byte>) returns (ok: bool)
      requires Valid() && at + |data| <= 32
      requires forall leaf: Bytes32 ::
        Evm.BEWordAsB32(Evm.Or(Evm.And(Evm.B32AsBEWord(leaf), Evm.Not(mask)), patch)) == Patched(leaf, at, data)
      modifies stateData, `root, `cpu
      ensures Valid() && cpu == old(cpu)
      ensures ok == S.PatchLeaf(K, old(root), proof, addr, at, data, proofIndex).Some?
      ensures ok ==> root == S.PatchLeaf(K, old(root), proof, addr, at, data, proofIndex).value
    {
      hide Encode, Parts, S.SetMemoryB32, Evm.B32AsBEWord, Evm.BEWordAsB32, Evm.Or, Evm.And, Patched;
      var base := GetMemoryB32(addr, proofIndex);
      Verified(root, addr, proofIndex);
      hide S.GetMemoryB32;
      if base.None? {
        return false;
      }
      var word := Evm.Or(Evm.And(Evm.B32AsBEWord(base.value), Evm.Not(mask)), patch);
      ok := SetMemoryB32(addr, Evm.BEWordAsB32(word), proofIndex);
    }

    lemma Verified(root: Bytes32, addr: u64, proofIndex: nat)
      ensures S.GetMemoryB32(K, root, proof, addr, proofIndex).Some? ==> S.ProofOffset(proofIndex) <= |proof|
    {
    }

    method StoreMemUnaligned(addr: u64, size: nat, value: u256, proofIndexL: nat, proofIndexR: nat) returns (ok: bool)
      requires Valid() && 1 <= size <= 32
      modifies stateData, `root, `cpu
      ensures Valid() && cpu == old(cpu)
      ensures ok == S.StoreMem(K, old(root), proof, addr, ToLE(value, size), proofIndexL, proofIndexR).Some?
      ensures ok ==> root == S.StoreMem(K, old(root), proof, addr, ToLE(value, size), proofIndexL, proofIndexR).value
    {
      hide Encode, Parts, S.PatchLeaf, RightLeaf, FromBE, ToLE, LeafStart, MaskOf, PatchOf, Patched, Evm.B32AsBEWord, Evm.BEWordAsB32;
      hide Evm.And, Evm.Or;
      ghost var data := ToLE(value, size);
      var leftAddr := LeafStart(Wide, addr);
      var rightAddr := LeafStart(Wide, Add64(Wide, addr, Sub64(Wide, size, 1)));
      LastLeaf(Wide, addr, size);
      var a := addr - leftAddr;
      var leftMask, rightMask, leftPatch, rightPatch := LeftAndRight(a, size, value);
      ghost var dataL := if TwoSided(addr, size) then data[..32 - a] else data;
      forall leaf: Bytes32
        ensures Evm.BEWordAsB32(Evm.Or(Evm.And(Evm.B32AsBEWord(leaf), Evm.Not(leftMask)), leftPatch)) == Patched(leaf, a, dataL)
        ensures TwoSided(addr, size) ==>
          Evm.BEWordAsB32(Evm.Or(Evm.And(Evm.B32AsBEWord(leaf), Evm.Not(rightMask)), rightPatch)) == Patched(leaf, 0, data[32 - a..])
      {
        LeafPatched(leaf, a, data, true, leftMask, leftPatch);
        LeafPatched(leaf, a, data, false, rightMask, rightPatch);
      }
      ok := PatchLeaf(leftAddr, leftMask, leftPatch, proofIndexL, a, dataL);
      if !ok || leftAddr == rightAddr { // failed, or within one leaf
        return;
      }
      if proofIndexR == 0xff {
        return false;
      }
      ok := PatchLeaf(rightAddr, rightMask, rightPatch, proofIndexR, 0, data[32 - a..]); // against the root of the half-written memory
    }

    // ----- the preimage oracle -----

    method WritePreimageKey(addr: u64, count: u64) returns (out: Option<u64>)
      requires Valid()
      modifies stateData, `root, `cpu
      ensures Valid() && root == old(root)
      ensures match S.GetMemoryB32(K, root, proof, addr - Alignment(Wide, addr), 1)
        case None => out.None?
        case Some(leaf) => out == Some(ClampToLeaf(Wide, addr, count)) && cpu == KeyAppended(old(cpu), leaf, addr, count)
    {
      hide Encode, Parts, S.GetMemoryB32, AppendToKey, Alignment, ClampToLeaf;
      var alignment := Alignment(Wide, addr);
      var n := ClampToLeaf(Wide, addr, count);
      var dat := GetMemoryB32(addr - alignment, 1);
      if dat.None? {
        return None;
      }
      var key := GetPreimageKey();
      SetPreimageKey(AppendToKey(Wide, key, dat.value, alignment, n));
      SetPreimageOffset(0);
      return Some(n);
    }

    method ReadPreimageValue(addr: u64, count: u64) returns (out: Option<u64>)
      requires Valid()
      modifies stateData, `root, `cpu
      ensures Valid()
      ensures var at := Alignment(Wide, addr);
        match oracle(old(cpu).preimageKey, old(cpu).preimageOffset)
        case None => out.None?
        case Some(c) =>
          if c.len == 0 then out == Some(0) && cpu == old(cpu) && root == old(root)
          else
            var n := ReadCount(Wide, addr, count, c.len);
            match S.GetMemoryB32(K, old(root), proof, addr - at, 1)
            case None => out.None?
            case Some(leaf) =>
              var root' := S.SetMemoryB32(K, proof, addr - at, MergePreimage(Wide, leaf, c.dat, at, n), 1);
              && out == (if root'.Some? then Some(n) else None)
              && (out.Some? ==> root == root'.value)
              && (out.Some? ==> cpu == old(cpu).(preimageOffset := Add64(Wide, old(cpu).preimageOffset, n)))
    {
      hide *;
      var key := GetPreimageKey();
      var offset := GetPreimageOffset();
      var part := oracle(key, offset);
      if part.None? {
        return None;
      }
      if part.value.len == 0 { // end of the preimage
        return Some(0);
      }
      var alignment := Alignment(Wide, addr);
      var n := ReadCount(Wide, addr, count, part.value.len);
      SetPreimageOffset(Add64(Wide, offset, n));
      var node := GetMemoryB32(addr - alignment, 1);
      Verified(root, addr - alignment, 1);
      if node.None? {
        return None;
      }
      var ok := SetMemoryB32(addr - alignment, MergePreimage(Wide, node.value, part.value.dat, alignment, n), 1);
      return if ok then Some(n) else None;
    }

    // ----- the step -----

    method Perform(a: Action) returns (ok: bool)
      requires Valid() && !cpu.exited && WellFormed(a)
      modifies stateData, `root, `cpu
      ensures Valid()
      ensures ok == S.Perform(K, oracle, proof, old(root), a).Some?
      ensures ok ==> cpu == S.Perform(K, oracle, proof, old(root), a).value.cpu
      ensures ok ==> root == S.Perform(K, oracle, proof, old(root), a).value.root
    {
      hide Encode, Parts, S.GetMemoryB32, S.SetMemoryB32, S.LoadMem, S.StoreMem, S.SideInputs, S.BranchInputs, AtomicValue;
      hide ToLE, AppendToKey, MergePreimage;
      Commit(a.next);
      match a
      case Done(_) =>
        ok := true;
      case Output(_, _, _, _) =>
        ok := true;
      case LoadTo(rd, addr, size, signed, _) =>
        var v := LoadMem(addr, size, signed, 1, 2);
        if v.None? {
          return false;
        }
        SetRegister(rd, v.value);
        ok := true;
      case StoreAt(addr, size, value, _) =>
        ok := StoreMemUnaligned(addr, size, value, 1, 2);
      case AtomicAt(op, rd, addr, size, operand, _) =>
        var v := LoadMem(addr, size, true, 1, 2);
        if v.None? {
          return false;
        }
        ok := StoreMemUnaligned(addr, size, AtomicValue(Wide, op, v.value, operand), 1, 3);
        SetRegister(rd, v.value);
      case KeyWrite(addr, count, _) =>
        var n := WritePreimageKey(addr, count);
        if n.None? {
          return false;
        }
        SetRegister(10, n.value);
        ok := true;
      case PreimageRead(addr, count, _) =>
        var n := ReadPreimageValue(addr, count);
        if n.None? {
          return false;
        }
        SetRegister(10, n.value);
        ok := true;
    }

    /** One instruction, from the state that the calldata holds. */
    method Step() returns (ok: bool)
      requires Valid() && !cpu.exited
      modifies stateData, `root, `cpu
      ensures Valid()
      ensures ok == S.Step(K, oracle, proof, old(cpu), old(root)).Some?
      ensures ok ==> cpu == S.Step(K, oracle, proof, old(cpu), old(root)).value.cpu
      ensures ok ==> root == S.Step(K, oracle, proof, old(cpu), old(root)).value.root
    {
      hide Encode, Parts, S.LoadMem, S.Perform, Decode, WellFormed, DecodeCpu;
      DecodeEncode(root, cpu);
      var step := Add64(Wide, DecodeCpu(stateData[..]).step, 1);
      ChangedFields(root, cpu, cpu.preimageKey, step, 0);
      SetU64(STEP, step, cpu.(step := step));
      DecodeEncode(root, cpu);
      var c := DecodeCpu(stateData[..]);
      var instr := LoadMem(c.pc, 4, false, 0, 0xff);
      if instr.None? {
        return false;
      }
      S.SwitchWellFormed(c, instr.value);
      var a := Decode(Wide, c, instr.value);
      if a.None? {
        return false;
      }
      ok := Perform(a.value);
    }
  }

  // ----- the whole call -----

  /** The state bytes after one slow step, for any 362 bytes. */
  function StepBytes(K: Hash, oracle: Oracle, state: seq<byte>, proof: seq<byte>): Option<seq<byte>>
    requires |state| == STATE_SIZE
  {
    if state[81] != 0 then Some(state)
    else
      match S.Step(K, oracle, proof, DecodeCpu(state), DecodeRoot(state))
      case None => None
      case Some(o) => Some(Encode(o.root, o.cpu))
  }

  lemma StepBytesLength(K: Hash, oracle: Oracle, state: seq<byte>, proof: seq<byte>)
    requires |state| == STATE_SIZE
    ensures StepBytes(K, oracle, state, proof).Some? ==> |StepBytes(K, oracle, state, proof).value| == STATE_SIZE
  {
    hide S.Step, Encode;
    if state[81] == 0 && S.Step(K, oracle, proof, DecodeCpu(state), DecodeRoot(state)).Some? {
      var o := S.Step(K, oracle, proof, DecodeCpu(state), DecodeRoot(state)).value;
      WitnessLength(o.root, o.cpu);
    }
  }

  /** Step of the slow VM: from calldata to the hash of the state afterwards. */
  method Step(K: Hash, oracle: Oracle, state: seq<byte>, proof: seq<byte>) returns (hash: Option<Bytes32>)
    ensures |state| != STATE_SIZE ==> hash.None?
    ensures |state| == STATE_SIZE ==>
      match StepBytes(K, oracle, state, proof)
      case None => hash.None?
      case Some(after) => |after| == STATE_SIZE && hash == Some(SlowStateHash(K, after))
  {
    hide S.Step, Encode, DecodeCpu, DecodeRoot, SlowStateHash;
    if |state| != STATE_SIZE {
      return None; // not a state
    }
    StepBytesLength(K, oracle, state, proof);
    var vm := new Vm(K, oracle, state, proof);
    if vm.stateData[81] == 0 { // an exited VM stays as it is
      ExitedByte(state);
      var ok := vm.Step();
      if !ok {
        return None;
      }
    }
    hash := Some(SlowStateHash(K, vm.stateData[..]));
  }

  lemma ExitedByte(state: seq<byte>)
    requires |state| == STATE_SIZE
    ensures DecodeCpu(state).exited <==> state[81] != 0
  {
  }
}
