/** The fields of an instruction word, as the instruction formats of the RISC-V Unprivileged ISA
    (20191213, sections 2.2 and 2.3) place them, and that parse.go finds them there. */
module Fields {
  import opened Words
  import opened Yul64
  import opened Cpu
  import Fast = FastYul64

  // ----- the formats, in plain arithmetic -----

  function OpcodeOf(i: nat): nat {
    i % 0x80
  }

  function RdOf(i: nat): (r: nat)
    ensures r < 32
  {
    i / 0x80 % 32
  }

  function Funct3Of(i: nat): (r: nat)
    ensures r < 8
  {
    i / 0x1000 % 8
  }

  function Rs1Of(i: nat): (r: nat)
    ensures r < 32
  {
    i / 0x8000 % 32
  }

  function Rs2Of(i: nat): (r: nat)
    ensures r < 32
  {
    i / 0x10_0000 % 32
  }

  function Funct7Of(i: nat): nat {
    i / 0x200_0000
  }

  /** Bits 31 to 20. */
  function ImmI(i: nat): int {
    var u := i / 0x10_0000;
    if u < 0x800 then u else u - 0x1000
  }

  /** Bits 31 to 25 above bits 11 to 7. */
  function ImmS(i: nat): int {
    var u := 32 * (i / 0x200_0000) + i / 0x80 % 32;
    if u < 0x800 then u else u - 0x1000
  }

  /** Bit 31, bit 7, bits 30 to 25 and bits 11 to 8, in units of two bytes. */
  function ImmB(i: nat): int {
    2 * (i / 0x100 % 16) + 32 * (i / 0x200_0000 % 64) + 2048 * (i / 0x80 % 2) - 4096 * (i / 0x8000_0000)
  }

  /** Bits 31 to 12, in units of 4096. */
  function ImmU(i: nat): int {
    var u := i / 0x1000;
    4096 * (if u < 0x8_0000 then u else u - 0x10_0000)
  }

  /** Bit 31, bits 19 to 12, bit 20 and bits 30 to 21, in units of two bytes. */
  function ImmJ(i: nat): int {
    2 * (i / 0x20_0000 % 1024) + 2048 * (i / 0x10_0000 % 2) + 4096 * (i / 0x1000 % 256) - 0x10_0000 * (i / 0x8000_0000)
  }

  // ----- parse.go finds them -----

  lemma Powers()
    ensures Pow2(1) == 2 && Pow2(2) == 4 && Pow2(3) == 8 && Pow2(4) == 16 && Pow2(5) == 32 && Pow2(6) == 64 && Pow2(7) == 128
    ensures Pow2(8) == 0x100 && Pow2(10) == 1024 && Pow2(11) == 0x800 && Pow2(12) == 0x1000 && Pow2(13) == 0x2000
    ensures Pow2(15) == 0x8000 && Pow2(19) == 0x8_0000 && Pow2(20) == 0x10_0000 && Pow2(21) == 0x20_0000
    ensures Pow2(25) == 0x200_0000 && Pow2(31) == 0x8000_0000 && Pow2(32) == TWO32
  {
    hide Pow2;
    PowSmall();
    PowAdd(1, 1);
    PowAdd(2, 1);
    PowAdd(4, 1);
    PowAdd(5, 1);
    PowAdd(6, 1);
    PowAdd(7, 1);
    PowAdd(8, 2);
    PowAdd(10, 1);
    PowAdd(11, 1);
    PowAdd(12, 1);
    PowAdd(10, 5);
    PowAdd(15, 4);
    PowAdd(10, 10);
    PowAdd(20, 1);
    PowAdd(20, 5);
    PowAdd(25, 6);
    PowAdd(31, 1);
  }

  /** A field of n bits, of which d and e are the powers of two. */
  lemma FieldIs(i: u64, shift: u64, d: nat, e: nat)
    requires shift < 64 && d == Pow2(shift) && exists n: nat :: e == Pow2(n)
    ensures 1 <= e <= TWO64 ==> Field(Native, i, shift, e - 1) == i / d % e
    ensures Shr64(Native, shift, i) == i / d
  {
    hide Pow2, Shr, Low, And;
    var n: nat :| e == Pow2(n);
    ShrIsDiv(i, shift);
    AndOnes(i / d, n);
    ShrIsDiv(i / d, n);
  }

  lemma RegistersParsed(i: u64)
    ensures ParseOpcode(Native, i) == OpcodeOf(i) && ParseRd(Native, i) == RdOf(i) && ParseFunct3(Native, i) == Funct3Of(i)
    ensures ParseRs1(Native, i) == Rs1Of(i) && ParseRs2(Native, i) == Rs2Of(i) && ParseFunct7(Native, i) == Funct7Of(i)
  {
    hide Pow2, Field, Shr64, And;
    Powers();
    FieldIs(i, 7, 0x80, 32);
    FieldIs(i, 12, 0x1000, 8);
    FieldIs(i, 15, 0x8000, 32);
    FieldIs(i, 20, 0x10_0000, 32);
    FieldIs(i, 25, 0x200_0000, 32);
    AndOnes(i, 7);
    ShrIsDiv(i, 7);
  }

  /** Or-ing a small number to a shifted one adds it; p is the power of two. */
  lemma OrAdds(hi: u64, lo: u64, q: nat, p: nat)
    requires q < 64 && p == Pow2(q) && lo < p && hi * p < TWO64
    ensures Shl64(Native, q, hi) == hi * p
    ensures Or64(Native, lo, Shl64(Native, q, hi)) == hi * p + lo
    ensures Or64(Native, Shl64(Native, q, hi), lo) == hi * p + lo
  {
    hide Pow2, Shl, Or;
    ShlIsMul(hi, q);
    SmallResidue(hi * p, TWO64);
    OrDisjoint(hi, lo, q);
  }

  /** A number of bit + 1 bits, sign-extended; p is the power of two for bit. */
  lemma ExtendIs(v: u64, bit: nat, p: nat)
    requires bit < 63 && p == Pow2(bit) && v < 2 * p
    ensures SignExtend64(Native, v, bit) == Wrap(if v < p then v else v - 2 * p)
  {
    hide Pow2, Fast.SignExtend64;
    Doubled(bit);
    Fast.SignExtendMeans(v, bit);
    SmallResidue(v, 2 * p);
  }

  lemma Doubled(bit: nat)
    ensures Pow2(bit + 1) == 2 * Pow2(bit)
  {
  }

  /** Sign-extending once more changes nothing. */
  lemma ExtendAgain(z: int, bit: nat, p: nat)
    requires bit < 63 && p == Pow2(bit) && 0 - p <= z < p
    ensures SignExtend64(Native, Wrap(z), bit) == Wrap(z)
  {
    hide Pow2, Fast.SignExtend64, Wrap;
    Doubled(bit);
    Fast.SignExtendMeans(Wrap(z), bit);
    Fast.PowBelow(bit);
    if z < 0 {
      PowAdd(63 - bit, bit + 1);
      TopResidue(z, 2 * p, Pow2(63 - bit));
      WrapNegative(z);
    } else {
      WrapSmall(z);
      SmallResidue(z, 2 * p);
    }
  }

  lemma TopResidue(z: int, p: nat, q: nat)
    requires p > 0 && q * p == TWO64 && 0 - p <= z < 0
    ensures (z + TWO64) % p == z + p
  {
    MulAdd(q, -1, p);
    DivUnique(z + TWO64, p, q - 1, z + p);
  }

  lemma WrapSmall(z: int)
    requires 0 <= z < TWO64
    ensures Wrap(z) == z
  {
  }

  lemma WrapNegative(z: int)
    requires 0 - TWO64 <= z < 0
    ensures Wrap(z) == z + TWO64
  {
  }

  lemma ImmIParsed(i: u64)
    requires i < TWO32
    ensures ParseImmTypeI(Native, i) == Wrap(ImmI(i)) && -0x800 <= ImmI(i) < 0x800
    ensures SignExtend64(Native, Wrap(ImmI(i)), 11) == Wrap(ImmI(i))
  {
    hide Pow2, Shr64, SignExtend64;
    Powers();
    FieldIs(i, 20, 0x10_0000, 2);
    ExtendIs(i / 0x10_0000, 11, 0x800);
    ExtendAgain(ImmI(i), 11, 0x800);
  }

  lemma ImmSParsed(i: u64)
    requires i < TWO32
    ensures ParseImmTypeS(Native, i) == Wrap(ImmS(i)) && -0x800 <= ImmS(i) < 0x800
    ensures SignExtend64(Native, Wrap(ImmS(i)), 11) == Wrap(ImmS(i))
  {
    hide Pow2, Shr64, Shl64, Or64, SignExtend64, Field;
    Powers();
    FieldIs(i, 25, 0x200_0000, 32);
    FieldIs(i, 7, 0x80, 32);
    OrAdds(i / 0x200_0000, i / 0x80 % 32, 5, 32);
    ExtendIs(32 * (i / 0x200_0000) + i / 0x80 % 32, 11, 0x800);
    ExtendAgain(ImmS(i), 11, 0x800);
  }

  lemma ImmBParsed(i: u64)
    requires i < TWO32
    ensures ParseImmTypeB(Native, i) == Wrap(ImmB(i))
  {
    hide Pow2, Shr64, Shl64, Or64, SignExtend64, Field;
    Powers();
    var a, b, s, t := i / 0x100 % 16, i / 0x200_0000 % 64, i / 0x80 % 2, i / 0x8000_0000;
    FieldIs(i, 8, 0x100, 16);
    FieldIs(i, 25, 0x200_0000, 64);
    FieldIs(i, 7, 0x80, 2);
    FieldIs(i, 31, 0x8000_0000, 2);
    OrAdds(a, 0, 1, 2);
    OrAdds(b, 2 * a, 5, 32);
    OrAdds(s, 0, 11, 0x800);
    OrAdds(t, 2048 * s, 12, 0x1000);
    OrAdds(s + 2 * t, 2 * a + 32 * b, 11, 0x800);
    ExtendIs(2 * a + 32 * b + 2048 * s + 4096 * t, 12, 0x1000);
  }

  lemma ImmUParsed(i: u64)
    requires i < TWO32
    ensures Shl64(Native, 12, ParseImmTypeU(Native, i)) == Wrap(ImmU(i))
    ensures SignExtend64(Native, Wrap(ImmU(i)), 31) == Wrap(ImmU(i))
  {
    hide Pow2, Shr64, SignExtend64, Shl;
    Powers();
    FieldIs(i, 12, 0x1000, 2);
    ExtendIs(i / 0x1000, 19, 0x8_0000);
    ShiftWraps(ImmU(i) / 4096, 12);
    ExtendAgain(ImmU(i), 31, 0x8000_0000);
  }

  /** Shifting the 64-bit form of a number. */
  lemma ShiftWraps(z: int, q: nat)
    requires q < 64
    ensures Shl64(Native, q, Wrap(z)) == Wrap(z * Pow2(q))
  {
    hide Pow2, Shl;
    ShlIsMul(Wrap(z), q);
    DivMod(z, TWO64);
    var k, p := z / TWO64, Pow2(q);
    MulAdd(k * TWO64, Wrap(z), p);
    MulAssoc(k, TWO64, p);
    MulCommutes(TWO64, p);
    MulAssoc(k, p, TWO64);
    ModAddMul(Wrap(z) * p, k * p, TWO64);
  }

  /** The parts of a jump offset do not overlap. */
  lemma FourParts(a: u64, b: u64, s: u64, t: u64)
    requires a < 1024 && b < 2 && s < 256 && t < 2
    ensures Or64(Native, Or64(Native, a, Shl64(Native, 10, b)), Or64(Native, Shl64(Native, 11, s), Shl64(Native, 19, t)))
         == a + 1024 * b + 2048 * s + 0x8_0000 * t
  {
    hide Pow2, Shl64, Or64;
    Powers();
    OrAdds(b, a, 10, 1024);
    OrAdds(s, 0, 11, 0x800);
    OrAdds(t, 2048 * s, 19, 0x8_0000);
    OrAdds(s + 256 * t, a + 1024 * b, 11, 0x800);
  }

  lemma ImmJParsed(i: u64)
    requires i < TWO32
    ensures SignExtend64(Native, Shl64(Native, 1, ParseImmTypeJ(Native, i)), 20) == Wrap(ImmJ(i))
  {
    hide Pow2, Shr64, Shl64, Or64, SignExtend64, Field;
    Powers();
    var a, b, s, t := i / 0x20_0000 % 1024, i / 0x10_0000 % 2, i / 0x1000 % 256, i / 0x8000_0000;
    FieldIs(i, 21, 0x20_0000, 1024);
    FieldIs(i, 20, 0x10_0000, 2);
    FieldIs(i, 12, 0x1000, 256);
    FieldIs(i, 31, 0x8000_0000, 2);
    FourParts(a, b, s, t);
    ExtendIs(a + 1024 * b + 2048 * s + 0x8_0000 * t, 19, 0x8_0000);
    var z := a + 1024 * b + 2048 * s - 0x8_0000 * t;
    ShiftWraps(z, 1);
    ExtendAgain(2 * z, 20, 0x10_0000);
  }
}
