/** The 362-byte state witness: its layout (rvgo/fast/state.go, rvgo/slow/vm.go), its hash,
    and the masked word access of the Solidity VM (rvsol/src/RISCV.sol). */
module Witness {
  import opened Words
  import opened Bytes
  import opened FlatMemory
  import opened Cpu
  import opened WordBytes
  import Evm

  // ----- packed fields -----

  function Pack(parts: seq<seq<byte>>): seq<byte> {
    if |parts| == 0 then [] else parts[0] + Pack(parts[1..])
  }

  function Start(parts: seq<seq<byte>>, i: nat): nat
    requires i <= |parts|
  {
    if i == 0 then 0 else |parts[0]| + Start(parts[1..], i - 1)
  }

  lemma {:induction false} PackAt(parts: seq<seq<byte>>, i: nat)
    requires i < |parts|
    ensures Start(parts, i) + |parts[i]| <= |Pack(parts)|
    ensures Pack(parts)[Start(parts, i)..Start(parts, i) + |parts[i]|] == parts[i]
    decreases i
  {
    var head, tail := parts[0], Pack(parts[1..]);
    assert Pack(parts) == head + tail;
    if i > 0 {
      PackAt(parts[1..], i - 1);
      var n := Start(parts[1..], i - 1);
      assert Start(parts, i) == |head| + n;
      Behind(head, tail, n, n + |parts[i]|);
    } else {
      assert (head + tail)[..|head|] == head;
    }
  }

  lemma {:induction false} PackPut(parts: seq<seq<byte>>, i: nat, v: seq<byte>)
    requires i < |parts| && |v| == |parts[i]|
    ensures Start(parts, i) + |v| <= |Pack(parts)|
    ensures Spliced(Pack(parts), Start(parts, i), v) == Pack(parts[i := v])
    decreases i
  {
    PackAt(parts, i);
    var head, tail := parts[0], Pack(parts[1..]);
    assert Pack(parts) == head + tail;
    if i == 0 {
      assert parts[0 := v][1..] == parts[1..];
      assert Pack(parts[0 := v]) == v + tail;
    } else {
      PackPut(parts[1..], i - 1, v);
      PackAt(parts[1..], i - 1);
      assert parts[i := v][1..] == parts[1..][i - 1 := v];
      assert Start(parts, i) == |head| + Start(parts[1..], i - 1);
      PutBehind(head, tail, Start(parts[1..], i - 1), v);
    }
  }

  lemma Behind(a: seq<byte>, b: seq<byte>, from: nat, to: nat)
    requires from <= to <= |b|
    ensures (a + b)[|a| + from..|a| + to] == b[from..to]
  {
  }

  lemma PutBehind(a: seq<byte>, b: seq<byte>, at: nat, v: seq<byte>)
    requires at + |v| <= |b|
    ensures Spliced(a + b, |a| + at, v) == a + Spliced(b, at, v)
  {
  }

  lemma {:induction false} StartAppend(a: seq<seq<byte>>, b: seq<seq<byte>>, i: nat)
    requires i <= |b|
    ensures Start(a + b, |a| + i) == Start(a, |a|) + Start(b, i)
    decreases |a|
  {
    if |a| == 0 {
      assert a + b == b;
    } else {
      assert (a + b)[1..] == a[1..] + b;
      StartAppend(a[1..], b, i);
    }
  }

  lemma {:induction false} StartEven(parts: seq<seq<byte>>, n: nat, i: nat)
    requires i <= |parts| && forall j :: 0 <= j < |parts| ==> |parts[j]| == n
    ensures Start(parts, i) == n * i
    decreases i
  {
    if i > 0 {
      StartEven(parts[1..], n, i - 1);
      MulAdd(i - 1, 1, n);
    }
  }

  lemma {:induction false} PackAppend(a: seq<seq<byte>>, b: seq<seq<byte>>)
    ensures Pack(a + b) == Pack(a) + Pack(b)
  {
    if |a| == 0 {
      assert a + b == b;
    } else {
      assert (a + b)[1..] == a[1..] + b;
      PackAppend(a[1..], b);
    }
  }

  // ----- the witness -----

  function U64Bytes(x: u64): (s: seq<byte>)
    ensures |s| == 8
  {
    ToBE(x, 8)
  }

  lemma U64RoundTrip(x: u64)
    ensures FromBE(U64Bytes(x)) == x
  {
    PowValues();
    BEFits(x, 8);
  }

  function Head(root: Bytes32, c: Cpu): seq<seq<byte>> {
    [root, c.preimageKey, U64Bytes(c.preimageOffset), U64Bytes(c.pc), [c.exitCode], [if c.exited then 1 else 0],
     U64Bytes(c.step), U64Bytes(c.heap), U64Bytes(c.loadReservation)]
  }

  function RegisterBytes(r: seq<u64>): (s: seq<seq<byte>>)
    ensures |s| == |r| && forall i :: 0 <= i < |s| ==> |s[i]| == 8
  {
    seq(|r|, i requires 0 <= i < |r| => U64Bytes(r[i]))
  }

  function Parts(root: Bytes32, c: Cpu): (s: seq<seq<byte>>)
    ensures |s| == 41
  {
    Head(root, c) + RegisterBytes(c.registers)
  }

  /** The witness of a state whose memory has this root. */
  function Encode(root: Bytes32, c: Cpu): seq<byte> {
    Pack(Parts(root, c))
  }

  const MEM_ROOT: nat := 0
  const PREIMAGE_KEY: nat := 1
  const PREIMAGE_OFFSET: nat := 2
  const PC: nat := 3
  const EXIT_CODE: nat := 4
  const EXITED: nat := 5
  const STEP: nat := 6
  const HEAP: nat := 7
  const LOAD_RESERVATION: nat := 8
  const REGISTERS: nat := 9

  const STATE_SIZE: nat := 362

  /** The offset tables of the slow VM and of the Solidity VM. */
  function Offset(field: nat): nat {
    if field == MEM_ROOT then 0
    else if field == PREIMAGE_KEY then 32
    else if field == PREIMAGE_OFFSET then 64
    else if field == PC then 72
    else if field == EXIT_CODE then 80
    else if field == EXITED then 81
    else if field == STEP then 82
    else if field == HEAP then 90
    else if field == LOAD_RESERVATION then 98
    else 106 + 8 * (field - REGISTERS)
  }

  function Size(field: nat): nat {
    if field <= PREIMAGE_KEY then 32 else if field == EXIT_CODE || field == EXITED then 1 else 8
  }

  lemma HeadStart(h: seq<seq<byte>>, i: nat)
    requires |h| == 9 && i <= 9
    requires forall j :: 0 <= j < 9 ==> |h[j]| == Size(j)
    ensures Start(h, i) == Offset(i)
  {
    assert Start(h, 0) == 0;
    assert i > 0 ==> Start(h, i) == |h[0]| + Start(h[1..], i - 1);
    assert i > 1 ==> Start(h[1..], i - 1) == |h[1]| + Start(h[2..], i - 2);
    assert i > 2 ==> Start(h[2..], i - 2) == |h[2]| + Start(h[3..], i - 3);
    assert i > 3 ==> Start(h[3..], i - 3) == |h[3]| + Start(h[4..], i - 4);
    assert i > 4 ==> Start(h[4..], i - 4) == |h[4]| + Start(h[5..], i - 5);
    assert i > 5 ==> Start(h[5..], i - 5) == |h[5]| + Start(h[6..], i - 6);
    assert i > 6 ==> Start(h[6..], i - 6) == |h[6]| + Start(h[7..], i - 7);
    assert i > 7 ==> Start(h[7..], i - 7) == |h[7]| + Start(h[8..], i - 8);
    assert i > 8 ==> Start(h[8..], i - 8) == |h[8]| + Start(h[9..], i - 9);
  }

  lemma {:induction false} StartPrefix(a: seq<seq<byte>>, b: seq<seq<byte>>, i: nat)
    requires i <= |a|
    ensures Start(a + b, i) == Start(a, i)
    decreases i
  {
    if i > 0 {
      assert (a + b)[1..] == a[1..] + b;
      StartPrefix(a[1..], b, i - 1);
    }
  }

  /** Every field stands where the offset table says. */
  lemma FieldPlace(root: Bytes32, c: Cpu, field: nat)
    requires field < 41
    ensures Start(Parts(root, c), field) == Offset(field) && |Parts(root, c)[field]| == Size(field)
  {
    var h, r := Head(root, c), RegisterBytes(c.registers);
    hide U64Bytes;
    if field < 9 {
      StartPrefix(h, r, field);
      HeadStart(h, field);
    } else {
      StartAppend(h, r, field - 9);
      HeadStart(h, 9);
      StartEven(r, 8, field - 9);
    }
  }

  lemma {:induction false} PackLength(parts: seq<seq<byte>>)
    ensures |Pack(parts)| == Start(parts, |parts|)
  {
    if |parts| > 0 {
      PackLength(parts[1..]);
    }
  }

  lemma WitnessLength(root: Bytes32, c: Cpu)
    ensures |Encode(root, c)| == STATE_SIZE
  {
    var h, r := Head(root, c), RegisterBytes(c.registers);
    PackLength(Parts(root, c));
    StartAppend(h, r, 32);
    HeadStart(h, 9);
    StartEven(r, 8, 32);
  }

  /** Reading a field of a witness gives the field. */
  lemma ReadsField(root: Bytes32, c: Cpu, field: nat)
    requires field < 41
    ensures |Encode(root, c)| == STATE_SIZE && Offset(field) + Size(field) <= STATE_SIZE
    ensures Encode(root, c)[Offset(field)..Offset(field) + Size(field)] == Parts(root, c)[field]
  {
    hide Parts, Pack, Start, Offset, Size;
    WitnessLength(root, c);
    FieldPlace(root, c, field);
    PackAt(Parts(root, c), field);
  }

  /** Writing a field of a witness gives the witness of the changed state: no other field moves. */
  lemma WritesField(root: Bytes32, c: Cpu, field: nat, v: seq<byte>, root': Bytes32, c': Cpu)
    requires field < 41 && |v| == Size(field) && Parts(root', c') == Parts(root, c)[field := v]
    ensures |Encode(root, c)| == STATE_SIZE && Offset(field) + Size(field) <= STATE_SIZE
    ensures Spliced(Encode(root, c), Offset(field), v) == Encode(root', c')
  {
    hide Parts, Pack, Start, Offset, Size;
    WitnessLength(root, c);
    FieldPlace(root, c, field);
    PackPut(Parts(root, c), field, v);
  }

  /** The registers that 362 bytes stand for. */
  function DecodeCpu(s: seq<byte>): Cpu
    requires |s| == STATE_SIZE
  {
    Cpu(s[32..64], U64At(s, 64), U64At(s, 72), s[80], s[81] != 0, U64At(s, 82), U64At(s, 90), U64At(s, 98),
        seq(32, i requires 0 <= i < 32 => U64At(s, 106 + 8 * i)))
  }

  function DecodeRoot(s: seq<byte>): Bytes32
    requires |s| == STATE_SIZE
  {
    s[..32]
  }

  function U64At(s: seq<byte>, offset: nat): u64
    requires offset + 8 <= |s|
  {
    FromBEBound(s[offset..offset + 8]);
    PowValues();
    FromBE(s[offset..offset + 8])
  }

  lemma U64Stored(s: seq<byte>, offset: nat, x: u64)
    requires offset + 8 <= |s| && s[offset..offset + 8] == U64Bytes(x)
    ensures U64At(s, offset) == x
  {
    U64RoundTrip(x);
  }

  /** Decoding takes a witness apart again. */
  lemma DecodeEncode(root: Bytes32, c: Cpu)
    ensures |Encode(root, c)| == STATE_SIZE
    ensures DecodeRoot(Encode(root, c)) == root && DecodeCpu(Encode(root, c)) == c
  {
    hide Encode, U64At, U64Bytes;
    forall i: nat | i < 41 ensures Offset(i) + Size(i) <= |Encode(root, c)| == STATE_SIZE
                           && Encode(root, c)[Offset(i)..Offset(i) + Size(i)] == Parts(root, c)[i] {
      ReadsField(root, c, i);
    }
    WitnessLength(root, c);
    var s := Encode(root, c);
    PartsAre(root, c);
    assert s[0..32] == root && s[32..64] == c.preimageKey;
    U64Stored(s, 64, c.preimageOffset);
    U64Stored(s, 72, c.pc);
    assert s[80..81][0] == s[80] && s[81..82][0] == s[81];
    U64Stored(s, 82, c.step);
    U64Stored(s, 90, c.heap);
    U64Stored(s, 98, c.loadReservation);
    forall i: nat | i < 32 ensures U64At(s, 106 + 8 * i) == c.registers[i] {
      assert Offset(9 + i) == 106 + 8 * i && Size(9 + i) == 8;
      U64Stored(s, 106 + 8 * i, c.registers[i]);
    }
    assert DecodeCpu(s).registers == c.registers;
  }

  lemma PartsAre(root: Bytes32, c: Cpu)
    ensures var p := Parts(root, c);
      && p[0] == root && p[1] == c.preimageKey && p[2] == U64Bytes(c.preimageOffset) && p[3] == U64Bytes(c.pc)
      && p[4] == [c.exitCode] && p[5] == [if c.exited then 1 else 0] && p[6] == U64Bytes(c.step)
      && p[7] == U64Bytes(c.heap) && p[8] == U64Bytes(c.loadReservation)
      && forall i: nat :: i < 32 ==> p[9 + i] == U64Bytes(c.registers[i])
  {
  }

  /** And a string is a witness exactly if its exited byte is 0 or 1. */
  lemma EncodeDecode(s: seq<byte>)
    requires |s| == STATE_SIZE
    ensures Encode(DecodeRoot(s), DecodeCpu(s)) == s <==> s[81] <= 1
  {
    var root, c := DecodeRoot(s), DecodeCpu(s);
    WitnessLength(root, c);
    EncodedByte(root, c);
    if s[81] <= 1 {
      hide Encode, U64Bytes, U64At;
      var e := Encode(root, c);
      PartsAre(root, c);
      forall i: nat | i < 41 ensures e[Offset(i)..Offset(i) + Size(i)] == s[Offset(i)..Offset(i) + Size(i)] {
        ReadsField(root, c, i);
        FieldBack(s, i);
      }
      forall k | 0 <= k < STATE_SIZE ensures e[k] == s[k] {
        var i := FieldAt(k);
        assert e[k] == e[Offset(i)..Offset(i) + Size(i)][k - Offset(i)];
        assert s[k] == s[Offset(i)..Offset(i) + Size(i)][k - Offset(i)];
      }
      assert e == s;
    }
  }

  lemma EncodedByte(root: Bytes32, c: Cpu)
    ensures |Encode(root, c)| == STATE_SIZE && Encode(root, c)[81] <= 1
  {
    hide Encode;
    ReadsField(root, c, EXITED);
    assert Encode(root, c)[81] == Encode(root, c)[81..82][0];
  }

  /** Which field byte k belongs to. */
  function FieldAt(k: nat): (i: nat)
    requires k < STATE_SIZE
    ensures i < 41 && Offset(i) <= k < Offset(i) + Size(i)
  {
    if k < 32 then 0 else if k < 64 then 1 else if k < 72 then 2 else if k < 80 then 3 else if k < 81 then 4
    else if k < 82 then 5 else if k < 90 then 6 else if k < 98 then 7 else if k < 106 then 8 else 9 + (k - 106) / 8
  }

  lemma FieldBack(s: seq<byte>, i: nat)
    requires |s| == STATE_SIZE && s[81] <= 1 && i < 41
    ensures Offset(i) + Size(i) <= STATE_SIZE
    ensures Parts(DecodeRoot(s), DecodeCpu(s))[i] == s[Offset(i)..Offset(i) + Size(i)]
  {
    hide U64Bytes, U64At;
    PartsAre(DecodeRoot(s), DecodeCpu(s));
    if Size(i) == 8 {
      BackToBytes(s, Offset(i));
    }
  }

  lemma BackToBytes(s: seq<byte>, offset: nat)
    requires offset + 8 <= |s|
    ensures U64Bytes(U64At(s, offset)) == s[offset..offset + 8]
  {
    BERoundTrip(s[offset..offset + 8]);
  }

  // ----- the state hash -----

  function VmStatus(exited: bool, exitCode: byte): byte {
    if !exited then 3 // unfinished
    else if exitCode == 0 then 0 // valid
    else if exitCode == 1 then 1 // invalid
    else 2 // panic
  }

  /** StateHash of the Go VM: exited means that the byte is exactly 1. */
  function StateHash(K: Hash, state: seq<byte>): Option<Bytes32> {
    if |state| != STATE_SIZE then None
    else
      var hash: Bytes32 := K(state)[0 := VmStatus(state[81] == 1, state[80])];
      Some(hash)
  }

  /** computeStateHash of the slow VM: exited means that the byte is not 0. */
  function SlowStateHash(K: Hash, state: seq<byte>): Bytes32
    requires |state| == STATE_SIZE
  {
    K(state)[0 := VmStatus(state[81] != 0, state[80])]
  }

  /** The two state hashes agree on exactly the states whose exited byte is 0 or 1, which are
      all that a VM ever encodes. (A hash whose first byte is replaced hides nothing else.) */
  lemma StateHashesAgree(K: Hash, state: seq<byte>)
    requires |state| == STATE_SIZE
    ensures StateHash(K, state) == Some(SlowStateHash(K, state)) <==> state[81] <= 1
  {
    if state[81] > 1 {
      assert StateHash(K, state).value[0] == 3;
      assert SlowStateHash(K, state)[0] <= 2;
    }
  }

  /** The hash of a state that a VM encodes. Its first byte tells the outcome: 3 while the program is
      running, 0 for the exit code 0, 1 for the exit code 1, 2 for any other. The other bytes are those of the
      hash of the state. */
  lemma EncodedHash(K: Hash, root: Bytes32, c: Cpu)
    ensures |Encode(root, c)| == STATE_SIZE && Encode(root, c)[81] <= 1
    ensures StateHash(K, Encode(root, c)) == Some(SlowStateHash(K, Encode(root, c)))
    ensures var hash := SlowStateHash(K, Encode(root, c));
      && (hash[0] == 3 <==> !c.exited)
      && (hash[0] == 0 <==> c.exited && c.exitCode == 0)
      && (hash[0] == 1 <==> c.exited && c.exitCode == 1)
      && (hash[0] == 2 <==> c.exited && c.exitCode >= 2)
      && hash[1..] == K(Encode(root, c))[1..]
  {
    hide Encode;
    ReadsField(root, c, EXITED);
    ReadsField(root, c, EXIT_CODE);
    var w := Encode(root, c);
    assert w[81] == w[81..82][0] && w[80] == w[80..81][0];
  }

  // ----- masked word access -----

  /** readState: a whole word is loaded and shifted down to the field. */
  function ReadState(mem: seq<byte>, offset: nat, length: nat): u256
    requires offset + 32 <= |mem| && length <= 32
  {
    Evm.Shr(Evm.Shl(3, 32 - length), Evm.B32AsBEWord(mem[offset..offset + 32]))
  }

  /** writeState: the field is merged into the word that starts at it. */
  function WriteState(mem: seq<byte>, offset: nat, length: nat, data: u256): seq<byte>
    requires offset + 32 <= |mem| && length <= 32
  {
    var mask := Evm.Shl(Evm.Shl(3, 32 - length), Evm.Not(0));
    var prev := Evm.B32AsBEWord(mem[offset..offset + 32]);
    var aligned := Evm.Shl(Evm.Shl(3, 32 - length), data);
    Spliced(mem, offset, Evm.BEWordAsB32(Evm.Or(Evm.And(prev, Evm.Not(mask)), aligned)))
  }

  lemma ReadStateIs(mem: seq<byte>, offset: nat, length: nat)
    requires offset + 32 <= |mem| && length <= 32
    ensures ReadState(mem, offset, length) == FromBE(mem[offset..offset + length])
  {
    hide Evm.Shl, Evm.Shr, FromBE;
    EightTimes(32 - length);
    var word: Bytes32 := mem[offset..offset + 32];
    ShrBytes(word, 32 - length);
    assert word[..length] == mem[offset..offset + length];
  }

  lemma FieldMask(length: nat)
    requires length <= 32
    ensures Evm.Shl(8 * (32 - length), Evm.Not(0)) == FromBE(Mask(Window(0, length)))
  {
    hide Pow2, Shl, FromBE, Window, Mask;
    var q := 8 * (32 - length);
    LeftOnes(length);
    if length > 0 {
      PowValues();
      PowMonotone(q, 248);
      PowAdd(248, 8);
      ShlIsMul(TWO256 - 1, q);
      var p := Pow2(q);
      assert (TWO256 - 1) * p == (TWO256 - p) + (p - 1) * TWO256;
      ModAddMul(TWO256 - p, p - 1, TWO256);
    } else {
      PowValues();
    }
  }

  lemma {:induction false} LowBytes(x: nat, k: nat, n: nat)
    requires k <= n
    ensures ToBE(x, n)[n - k..] == ToBE(x, k)
    decreases k
  {
    if k > 0 {
      LowBytes(x / 256, k - 1, n - 1);
    }
  }

  /** Whatever is written, exactly the bytes of the field change, also where the word loaded and
      stored back runs past the end of the state. */
  lemma WriteStateIs(mem: seq<byte>, offset: nat, length: nat, data: u256)
    requires offset + 32 <= |mem| && length <= 32
    ensures WriteState(mem, offset, length, data) == Spliced(mem, offset, ToBE(data, length))
  {
    hide Evm.Shl, Evm.Shr, Evm.And, Evm.Or, FromBE, ToBE, Mask, Window, Mix;
    EightTimes(32 - length);
    FieldMask(length);
    var word: Bytes32, k := mem[offset..offset + 32], 32 - length;
    var bytes := Evm.BEWordAsB32(data);
    Evm.WordRoundTrip(data, bytes);
    ShlBytes(bytes, k);
    LowBytes(data, length, 32);
    var patch: Bytes32 := bytes[k..] + Zeros(k);
    MergedField(word, patch, length);
    PatchKept(word, patch, Window(0, length));
    Evm.WordRoundTrip(0, patch[..length] + word[length..]);
    assert mem[offset + 32..] == mem[offset + length..][k..];
    assert word[length..] == mem[offset + length..][..k];
    assert mem[offset + length..] == mem[offset + length..][..k] + mem[offset + length..][k..];
    assert patch[..length] == ToBE(data, length);
  }

  lemma MergedField(word: Bytes32, patch: Bytes32, length: nat)
    requires length <= 32
    ensures Mix(word, patch, Window(0, length)) == patch[..length] + word[length..]
    ensures forall i :: 0 <= i < 32 && !Window(0, length)[i] ==> i >= length
  {
  }

  /** A word in EVM memory whose first 362 bytes are a state, for every field: reading gives the
      field, writing gives the state with that field, and no byte behind the state changes. */
  lemma MaskedAccess(mem: seq<byte>, root: Bytes32, c: Cpu, field: nat, data: u256, root': Bytes32, c': Cpu)
    requires |mem| >= STATE_SIZE + 32 && mem[..STATE_SIZE] == Encode(root, c) && field < 41
    requires Parts(root', c') == Parts(root, c)[field := ToBE(data, Size(field))]
    ensures Offset(field) + Size(field) <= STATE_SIZE
    ensures ReadState(mem, Offset(field), Size(field)) == FromBE(Parts(root, c)[field])
    ensures WriteState(mem, Offset(field), Size(field), data) == Encode(root', c') + mem[STATE_SIZE..]
  {
    hide Encode, Parts, ReadState, WriteState, ToBE, FromBE;
    var o, n := Offset(field), Size(field);
    ReadsField(root, c, field);
    WritesField(root, c, field, ToBE(data, n), root', c');
    ReadStateIs(mem, o, n);
    WriteStateIs(mem, o, n, data);
    assert mem[o..o + n] == mem[..STATE_SIZE][o..o + n];
    assert Spliced(mem, o, ToBE(data, n)) == Spliced(mem[..STATE_SIZE], o, ToBE(data, n)) + mem[STATE_SIZE..];
  }
}
