/** 256-bit words seen as 32 big-endian bytes: what shifting and masking does to the bytes.
    Both VMs append to the preimage key and patch memory leaves this way. */
module WordBytes {
  import opened Words
  import opened Bytes
  import opened Yul64
  import Evm
  import Fast = FastYul64

  function Zeros(n: nat): (s: seq<byte>)
    ensures |s| == n && forall i :: 0 <= i < n ==> s[i] == 0
  {
    if n == 0 then [] else Zeros(n - 1) + [0]
  }

  lemma {:induction false} ZerosValue(n: nat)
    ensures FromBE(Zeros(n)) == 0
    decreases n
  {
    hide *;
    ZerosLength(n);
    if n > 0 {
      ZerosStep(n);
      FromBEStep(Zeros(n));
      ZerosValue(n - 1);
    } else {
      EmptyValue(Zeros(0));
    }
  }

  lemma ZerosStep(n: nat)
    requires n > 0
    ensures |Zeros(n)| == n && Zeros(n)[..n - 1] == Zeros(n - 1) && Zeros(n)[n - 1] == 0
  {
  }

  // ----- shifts by whole bytes -----

  /** Shifting right drops bytes at the end. */
  lemma ShrBytes(b: Bytes32, k: nat)
    requires k <= 32
    ensures Evm.Shr(8 * k, Evm.B32AsBEWord(b)) == FromBE(b[..32 - k])
  {
    hide Pow2, Shl, Shr, FromBE;
    var hi, lo: seq<byte> := b[..32 - k], b[32 - k..];
    assert b == hi + lo;
    FromBEConcat(hi, lo);
    FromBEBound(lo);
    DigitsUnique(FromBE(b), 8 * k, FromBE(hi), FromBE(lo));
    if k == 32 {
      EmptyValue(hi);
    }
  }

  lemma EmptyValue(s: seq<byte>)
    requires |s| == 0
    ensures FromBE(s) == 0
  {
  }

  /** Shifting left drops bytes at the front and appends zeros. */
  lemma ShlBytes(b: Bytes32, k: nat)
    requires k <= 32
    ensures Evm.Shl(8 * k, Evm.B32AsBEWord(b)) == Shl(FromBE(b[k..]), 8 * k)
    ensures Shl(FromBE(b[k..]), 8 * k) == FromBE(b[k..] + Zeros(k))
  {
    hide Pow2, Shl, Shr, FromBE, Evm.Shl, Zeros;
    var hi, lo: seq<byte> := b[..k], b[k..];
    assert b == hi + lo;
    FromBEConcat(lo, Zeros(k));
    ZerosValue(k);
    ZerosLength(k);
    PowValues();
    FromBEBound(lo + Zeros(k));
    FromBEBound(b);
    if k == 32 {
      EmptyValue(lo);
      WholeShift(FromBE(b));
      ShlZeroOne(8 * k);
    } else {
      FromBEConcat(hi, lo);
      Evm.SmallShift(8 * k, FromBE(b));
      HighGone(FromBE(hi), FromBE(lo), 8 * |lo|, 8 * k);
    }
  }

  lemma ZerosLength(k: nat)
    ensures |Zeros(k)| == k
  {
  }

  lemma WholeShift(x: u256)
    ensures Evm.Shl(256, x) == 0
  {
  }

  /** What is shifted out at the top of a word is gone. */
  lemma HighGone(hi: nat, lo: nat, n: nat, q: nat)
    requires n + q == 256 && Shl(lo, q) < TWO256
    ensures Evm.Wrap256(Shl(Shl(hi, n) + lo, q)) == Shl(lo, q)
  {
    hide Shl, Pow2;
    ShlAdd(Shl(hi, n), lo, q);
    ShlShl(hi, n, q);
    ShlIsMul(hi, 256);
    PowValues();
    ModAddMul(Shl(lo, q), hi, TWO256);
    SmallResidue(Shl(lo, q), TWO256);
  }

  // ----- masks -----

  /** The bytes of a mask: ff where m says so. */
  function Mask(m: seq<bool>): (s: seq<byte>)
    ensures |s| == |m| && forall i :: 0 <= i < |m| ==> s[i] == (if m[i] then 255 else 0)
  {
    seq(|m|, i requires 0 <= i < |m| => if m[i] then 255 else 0)
  }

  function Complement(m: seq<bool>): (s: seq<bool>)
    ensures |s| == |m| && forall i :: 0 <= i < |m| ==> s[i] == !m[i]
  {
    seq(|m|, i requires 0 <= i < |m| => !m[i])
  }

  /** The bytes of x where m says so, zero elsewhere. */
  function Keep(x: seq<byte>, m: seq<bool>): (s: seq<byte>)
    requires |x| == |m|
    ensures |s| == |m| && forall i :: 0 <= i < |m| ==> s[i] == (if m[i] then x[i] else 0)
  {
    seq(|m|, i requires 0 <= i < |m| => if m[i] then x[i] else 0)
  }

  /** The bytes of p where m says so, those of x elsewhere. */
  function Mix(x: seq<byte>, p: seq<byte>, m: seq<bool>): (s: seq<byte>)
    requires |x| == |p| == |m|
    ensures |s| == |m| && forall i :: 0 <= i < |m| ==> s[i] == (if m[i] then p[i] else x[i])
  {
    seq(|m|, i requires 0 <= i < |m| => if m[i] then p[i] else x[i])
  }

  lemma LastByte(x: seq<byte>)
    requires |x| > 0
    ensures FromBE(x) == Shl(FromBE(x[..|x| - 1]), 8) + x[|x| - 1] && x[|x| - 1] < Pow2(8)
  {
    var h, l: seq<byte> := x[..|x| - 1], [x[|x| - 1]];
    assert x == h + l;
    FromBEConcat(h, l);
    assert FromBE(l) == 256 * FromBE(l[..0]) + l[0];
    assert Pow2(8) == 256;
  }

  lemma ByteMask(x: byte)
    ensures And(x, 255) == x && And(x, 0) == 0
  {
    assert Pow2(8) == 256;
    AndOnes(x, 8);
    LowSmall(x, 8);
  }

  lemma {:induction false} AndMaskBytes(x: seq<byte>, m: seq<bool>)
    requires |x| == |m|
    ensures And(FromBE(x), FromBE(Mask(m))) == FromBE(Keep(x, m))
    decreases |x|
  {
    hide And, FromBE;
    if |x| == 0 {
      EmptyValue(x);
      EmptyValue(Mask(m));
      EmptyValue(Keep(x, m));
      AndZero(0);
    } else {
      var n := |x| - 1;
      assert Mask(m)[..n] == Mask(m[..n]) && Keep(x, m)[..n] == Keep(x[..n], m[..n]);
      AndMaskBytes(x[..n], m[..n]);
      LastByte(x);
      LastByte(Mask(m));
      LastByte(Keep(x, m));
      AndDigits(FromBE(x[..n]), x[n], FromBE(Mask(m[..n])), Mask(m)[n], 8);
      ByteMask(x[n]);
    }
  }

  lemma {:induction false} OrMixBytes(x: seq<byte>, p: seq<byte>, m: seq<bool>)
    requires |x| == |p| == |m|
    ensures Or(FromBE(Keep(x, Complement(m))), FromBE(Keep(p, m))) == FromBE(Mix(x, p, m))
    decreases |x|
  {
    hide Or, FromBE;
    if |x| == 0 {
      EmptyValue(Keep(x, Complement(m)));
      EmptyValue(Keep(p, m));
      EmptyValue(Mix(x, p, m));
      AndZero(0);
    } else {
      var n := |x| - 1;
      var a, b := Keep(x, Complement(m)), Keep(p, m);
      assert a[..n] == Keep(x[..n], Complement(m[..n])) && b[..n] == Keep(p[..n], m[..n]);
      assert Mix(x, p, m)[..n] == Mix(x[..n], p[..n], m[..n]);
      OrMixBytes(x[..n], p[..n], m[..n]);
      LastByte(a);
      LastByte(b);
      LastByte(Mix(x, p, m));
      OrDigits(FromBE(a[..n]), a[n], FromBE(b[..n]), b[n], 8);
      AndZero(a[n]);
      AndZero(b[n]);
    }
  }

  lemma {:induction false} NotMaskBytes(m: seq<bool>)
    ensures FromBE(Mask(m)) + FromBE(Mask(Complement(m))) == Pow2(8 * |m|) - 1
    decreases |m|
  {
    if |m| > 0 {
      var n := |m| - 1;
      assert Mask(m)[..n] == Mask(m[..n]) && Mask(Complement(m))[..n] == Mask(Complement(m[..n]));
      NotMaskBytes(m[..n]);
      Shl8(0, 8 * n);
    }
  }

  /** `or(and(x, not(mask)), and(p, mask))` replaces the masked bytes. */
  lemma PatchBytes(x: Bytes32, p: Bytes32, m: seq<bool>)
    requires |m| == 32
    ensures var mask := Evm.B32AsBEWord(Mask(m));
      && Evm.Or(Evm.And(Evm.B32AsBEWord(x), Evm.Not(mask)), Evm.And(Evm.B32AsBEWord(p), mask)) == Evm.B32AsBEWord(Mix(x, p, m))
  {
    hide And, Or, FromBE, Pow2;
    PowValues();
    NotMaskBytes(m);
    AndMaskBytes(x, Complement(m));
    AndMaskBytes(p, m);
    OrMixBytes(x, p, m);
  }

  /** A patch that is zero outside the mask need not be masked. */
  lemma PatchKept(x: Bytes32, p: Bytes32, m: seq<bool>)
    requires |m| == 32 && (forall i :: 0 <= i < 32 && !m[i] ==> p[i] == 0)
    ensures var mask := Evm.B32AsBEWord(Mask(m));
      && Evm.Or(Evm.And(Evm.B32AsBEWord(x), Evm.Not(mask)), Evm.B32AsBEWord(p)) == Evm.B32AsBEWord(Mix(x, p, m))
  {
    hide And, Or, FromBE, Pow2;
    assert Keep(p, m) == p;
    PatchBytes(x, p, m);
    AndMaskBytes(p, m);
  }

  // ----- where bytes lie in a leaf -----

  /** How far addr lies behind the start of its leaf. */
  function Alignment(w: Arith, addr: u64): (a: u64)
    ensures a == addr % 32
  {
    AlignmentIs(addr);
    And64(w, addr, 31)
  }

  lemma AlignmentIs(addr: u64)
    ensures Fast.And64(addr, 31) == addr % 32
  {
    PowValues();
    AndOnes(addr, 5);
    ShrIsDiv(addr, 5);
  }

  /** The first address of the leaf of addr. */
  function LeafStart(w: Arith, addr: u64): (a: u64)
    ensures a == addr - addr % 32
  {
    LeafStartIs(addr);
    And64(w, addr, Not64(w, 31))
  }

  lemma LeafStartIs(addr: u64)
    ensures Fast.And64(addr, Fast.Not64(31)) == addr - addr % 32
  {
    hide Pow2, And, Shl, Shr, Low;
    PowValues();
    PowAdd(59, 5);
    ShlIsMul(Pow2(59) - 1, 5);
    assert (Pow2(59) - 1) * 32 == TWO64 - 32;
    AndMask(addr, 59, 5);
    ShrIsDiv(addr, 5);
    assert addr / 32 < Pow2(59);
    LowSmall(addr / 32, 59);
    ShlIsMul(addr / 32, 5);
  }

  // ----- the four limbs of a 256-bit value -----

  function Limb(value: u256, k: nat): u64 {
    Shr(value, 64 * k) % TWO64
  }

  /** PutUint64 of each limb, the lowest first. */
  function LimbBytes(value: u256): (s: seq<byte>)
    ensures |s| == 32
  {
    ToLE(Limb(value, 0), 8) + ToLE(Limb(value, 1), 8) + ToLE(Limb(value, 2), 8) + ToLE(Limb(value, 3), 8)
  }

  lemma {:induction false} ToLELow(x: nat, n: nat)
    ensures ToLE(Low(x, 8 * n), n) == ToLE(x, n)
    decreases n
  {
    if n > 0 {
      Shl8(x, 8 * (n - 1));
      LowBytes(x % 256, Low(x / 256, 8 * (n - 1)));
      ToLELow(x / 256, n - 1);
    }
  }

  lemma LowBytes(b: nat, rest: nat)
    requires b < 256
    ensures (b + 256 * rest) % 256 == b && (b + 256 * rest) / 256 == rest
  {
  }

  lemma LimbIs(value: u256, k: nat)
    ensures ToLE(Limb(value, k), 8) == ToLE(Shr(value, 64 * k), 8)
  {
    ShrIsDiv(Shr(value, 64 * k), 64);
    PowValues();
    ToLELow(Shr(value, 64 * k), 8);
  }

  lemma TakeLimb(x: nat, n: nat)
    requires n >= 8
    ensures ToLE(x, n) == ToLE(x, 8) + ToLE(Shr(x, 64), n - 8)
  {
    hide ToLE, Shr;
    ToLEPrefix(x, 8, n);
    assert ToLE(x, n) == ToLE(x, n)[..8] + ToLE(x, n)[8..];
  }

  /** The limbs, one after the other, are the little-endian bytes of the value, and their first bytes
      are those of a shorter store. */
  lemma LimbsAreBytes(value: u256, size: nat)
    requires size <= 32
    ensures LimbBytes(value) == ToLE(value, 32) && LimbBytes(value)[..size] == ToLE(value, size)
  {
    hide ToLE, Limb, Shr, Pow2;
    var b0, b1, b2, b3 := ToLE(Limb(value, 0), 8), ToLE(Limb(value, 1), 8), ToLE(Limb(value, 2), 8), ToLE(Limb(value, 3), 8);
    LimbIs(value, 0);
    LimbIs(value, 1);
    LimbIs(value, 2);
    LimbIs(value, 3);
    NoShift(value);
    ShrShr(value, 64, 64);
    ShrShr(value, 128, 64);
    TakeLimb(value, 32);
    TakeLimb(Shr(value, 64), 24);
    TakeLimb(Shr(value, 128), 16);
    ToLEPrefix(value, size, 32);
    hide *;
    Regroup(b0, b1, b2, b3);
  }

  lemma Regroup(a: seq<byte>, b: seq<byte>, c: seq<byte>, d: seq<byte>)
    ensures a + (b + (c + d)) == a + b + c + d
  {
  }

  lemma FitsWord(v: u64)
    ensures v < TWO256
  {
  }

  lemma NoShift(x: nat)
    ensures Shr(x, 0) == x
  {
  }

  /** A 32-byte leaf with some bytes replaced. */
  function Patched(leaf: Bytes32, at: nat, data: seq<byte>): Bytes32
    requires at + |data| <= 32
  {
    Spliced(leaf, at, data)
  }

  predicate InWindow(at: nat, n: nat, i: int) {
    at <= i < at + n
  }

  function Window(at: nat, n: nat): (m: seq<bool>)
    ensures |m| == 32
  {
    seq(32, i => InWindow(at, n, i))
  }

  /** The count of bytes a system call handles at once: up to the end of the leaf. */
  function ClampToLeaf(w: Arith, addr: u64, count: u64): (n: u64)
    ensures n <= 32 - addr % 32 && n == (if count > 32 - addr % 32 then 32 - addr % 32 else count)
  {
    var maxData := Sub64(w, 32, Alignment(w, addr));
    if Gt64(w, count, maxData) != 0 then maxData else count
  }

  // ----- the preimage key -----

  /** writePreimageKey: appends the count bytes of the leaf from alignment on to the key. */
  function AppendToKey(w: Arith, key: Bytes32, leaf: Bytes32, alignment: u64, count: u64): Bytes32
    requires alignment + count <= 32
  {
    var dat := Evm.Shl(Shl64(w, 3, alignment), Evm.B32AsBEWord(leaf)); // without the bytes before the chosen ones
    var right := Evm.Shr(Shl64(w, 3, Sub64(w, 32, count)), dat); // without those behind them
    var bits := Evm.Shl(3, count);
    Evm.BEWordAsB32(Evm.Or(Evm.Shl(bits, Evm.B32AsBEWord(key)), right))
  }

  lemma EightTimes(x: u64)
    requires x <= 32
    ensures Fast.Shl64(3, x) == 8 * x && Evm.Shl(3, x) == 8 * x
  {
    ShlIsMul(x, 3);
    assert Pow2(3) == 8;
  }

  /** The key is a shift register of 32 bytes. */
  lemma AppendToKeyShifts(w: Arith, key: Bytes32, leaf: Bytes32, alignment: u64, count: u64)
    requires alignment + count <= 32
    ensures AppendToKey(w, key, leaf, alignment, count) == key[count..] + leaf[alignment..alignment + count]
  {
    hide Pow2, Shl, Shr, FromBE, ToBE, Or, Evm.Shl, Evm.Shr, Shl64, Sub64;
    var taken := leaf[alignment..alignment + count];
    BitCounts(w, alignment, count);
    TakesWindow(leaf, alignment, count);
    ShlBytes(key, count);
    FromBEBound(taken);
    OrDisjoint(FromBE(key[count..]), FromBE(taken), 8 * count);
    FromBEConcat(key[count..], taken);
    Evm.WordRoundTrip(0, key[count..] + taken);
  }

  lemma BitCounts(w: Arith, alignment: u64, count: u64)
    requires alignment + count <= 32
    ensures Shl64(w, 3, alignment) == 8 * alignment && Shl64(w, 3, Sub64(w, 32, count)) == 8 * (32 - count)
    ensures Evm.Shl(3, count) == 8 * count
  {
    hide Shl64, Sub64, Evm.Shl, Fast.Shl64;
    NarrowShift(w, alignment);
    NarrowShift(w, 32 - count);
    NarrowRest(w, count);
    EightTimes(count);
  }

  lemma NarrowShift(w: Arith, x: u64)
    requires x <= 32
    ensures Shl64(w, 3, x) == 8 * x
  {
    hide Fast.Shl64, Evm.Shl;
    EightTimes(x);
  }

  lemma NarrowRest(w: Arith, x: u64)
    requires x <= 32
    ensures Sub64(w, 32, x) == 32 - x
  {
  }

  /** A shift to the left and one to the right leave the bytes between. */
  lemma TakesWindow(leaf: Bytes32, alignment: nat, count: nat)
    requires alignment + count <= 32
    ensures Evm.Shr(8 * (32 - count), Evm.Shl(8 * alignment, Evm.B32AsBEWord(leaf))) == FromBE(leaf[alignment..alignment + count])
  {
    hide Pow2, Shl, Shr, FromBE, ToBE, Evm.Shl, Evm.Shr;
    ShlBytes(leaf, alignment);
    var moved: Bytes32 := leaf[alignment..] + Zeros(alignment);
    ShrBytes(moved, 32 - count);
    assert moved[..count] == leaf[alignment..alignment + count];
  }

  // ----- preimage data into a leaf -----

  /** readPreimageValue: the leaf with count bytes of preimage data at the alignment. */
  function MergePreimage(w: Arith, node: Bytes32, pdat: Bytes32, alignment: u64, count: u64): Bytes32
    requires alignment + count <= 32
  {
    var bits := Shl64(w, 3, Sub64(w, 32, count));
    var leftMask := Evm.Not(Evm.Sub(Evm.Shl(bits, 1), 1)); // ones in the first count bytes
    var alignmentBits := Shl64(w, 3, alignment);
    var mask := Evm.Shr(alignmentBits, leftMask);
    var dat := Evm.Shr(alignmentBits, Evm.B32AsBEWord(pdat));
    Evm.BEWordAsB32(Evm.Or(Evm.And(Evm.B32AsBEWord(node), Evm.Not(mask)), Evm.And(dat, mask)))
  }

  lemma {:induction false} OnesValue(n: nat)
    ensures FromBE(Mask(seq(n, _ => true))) == Pow2(8 * n) - 1
    decreases n
  {
    if n > 0 {
      OnesValue(n - 1);
      assert Mask(seq(n, _ => true))[..n - 1] == Mask(seq(n - 1, _ => true));
      Shl8(0, 8 * (n - 1));
    }
  }

  /** Ones on the left of a word. */
  lemma LeftOnes(count: nat)
    requires count <= 32
    ensures FromBE(Mask(Window(0, count))) == TWO256 - Pow2(8 * (32 - count))
  {
    hide Pow2, Shl, FromBE;
    var r := 32 - count;
    var ones := Mask(seq(count, _ => true));
    OnesValue(count);
    ZerosValue(r);
    FromBEConcat(ones, Zeros(r));
    assert Mask(Window(0, count)) == ones + Zeros(r);
    PowValues();
    PowAdd(8 * count, 8 * r);
    ShlIsMul(Pow2(8 * count) - 1, 8 * r);
    MulAdd(Pow2(8 * count), -1, Pow2(8 * r));
  }

  lemma LeftMask(count: nat)
    requires count <= 32
    ensures Evm.Not(Evm.Sub(Evm.Shl(8 * (32 - count), 1), 1)) == FromBE(Mask(Window(0, count)))
  {
    hide Pow2, Shl, FromBE, Window, Mask;
    var q := 8 * (32 - count);
    LeftOnes(count);
    ShlZeroOne(q);
    PowValues();
    if count > 0 {
      PowMonotone(q, 248);
      PowAdd(248, 8);
    }
  }

  lemma MergePreimagePatches(w: Arith, node: Bytes32, pdat: Bytes32, alignment: u64, count: u64)
    requires alignment + count <= 32
    ensures MergePreimage(w, node, pdat, alignment, count) == Patched(node, alignment, pdat[..count])
  {
    hide Pow2, Shl, Shr, FromBE, ToBE, Or, And, Evm.Shl, Evm.Shr, Evm.And, Evm.Or, Evm.Not, Evm.Sub, Fast.Shl64;
    EightTimes(alignment);
    EightTimes(32 - count);
    LeftMask(count);
    var z, k := Zeros(alignment), 32 - alignment;
    ShrBytes(Mask(Window(0, count)), alignment);
    ShrBytes(pdat, alignment);
    var mask, dat: Bytes32 := z + Mask(Window(0, count))[..k], z + pdat[..k];
    ZerosValue(alignment);
    FromBEConcat(z, Mask(Window(0, count))[..k]);
    FromBEConcat(z, pdat[..k]);
    ShlOfZero(8 * k);
    assert mask == Mask(Window(alignment, count));
    PatchBytes(node, dat, Window(alignment, count));
    assert Mix(node, dat, Window(alignment, count)) == Patched(node, alignment, pdat[..count]);
    Evm.WordRoundTrip(0, Patched(node, alignment, pdat[..count]));
  }

  lemma ShlOfZero(q: nat)
    ensures Shl(0, q) == 0
  {
    ShlZeroOne(q);
  }
}
