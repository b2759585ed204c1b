/** The EVM word operations that both packages use (rvgo/slow/yul256.go and
    rvgo/fast/yul256.go), on integers below 2^256. */
module Evm {
  import opened Words
  import opened Bytes

  const TWO255: int := 0x8000_0000_0000_0000_0000_0000_0000_0000_0000_0000_0000_0000_0000_0000_0000_0000

  function Signed256(x: u256): int {
    if x < TWO255 then x else x - TWO256
  }

  function Wrap256(z: int): u256 {
    z % TWO256
  }

  function Add(x: u256, y: u256): u256 {
    Wrap256(x + y)
  }

  function Sub(x: u256, y: u256): u256 {
    Wrap256(x - y)
  }

  function Mul(x: u256, y: u256): u256 {
    Wrap256(x * y)
  }

  function Div(x: u256, y: u256): u256 {
    if y == 0 then 0 else QuotientBound(x, y); x / y
  }

  function SDiv(x: u256, y: u256): u256 {
    if y == 0 then 0 else Wrap256(TruncDiv(Signed256(x), Signed256(y)))
  }

  function Mod(x: u256, y: u256): u256 {
    if y == 0 then 0 else x % y
  }

  function SMod(x: u256, y: u256): u256 {
    if y == 0 then 0 else Wrap256(TruncMod(Signed256(x), Signed256(y)))
  }

  function Not(x: u256): u256 {
    TWO256 - 1 - x
  }

  function Flag(b: bool): u64 {
    if b then 1 else 0
  }

  function And(x: u256, y: u256): u256 {
    AndBound(x, y); Words.And(x, y)
  }

  function Or(x: u256, y: u256): u256 {
    WordBound(x, y); Words.Or(x, y)
  }

  function Xor(x: u256, y: u256): u256 {
    WordBound(x, y); Words.Xor(x, y)
  }

  /** The shift amount as the source takes it: the low 64 bits of x. An x of more than
      64 bits gives no shift at all but a zero word, unless its low 64 bits are below 256. */
  predicate ShiftsOut(x: u256) {
    x >= TWO64 && x % TWO64 >= 256
  }

  /** y << x */
  function Shl(x: u256, y: u256): u256 {
    if ShiftsOut(x) || x % TWO64 >= 256 then 0 else Wrap256(Words.Shl(y, x % TWO64))
  }

  /** y >> x */
  function Shr(x: u256, y: u256): u256 {
    if ShiftsOut(x) || x % TWO64 >= 256 then 0 else ShrBound(y, x % TWO64); Words.Shr(y, x % TWO64)
  }

  /** Shifts by less than the width. */
  lemma SmallShift(s: nat, x: u256)
    requires s < 256
    ensures Shl(s, x) == Wrap256(Words.Shl(x, s)) && Shr(s, x) == Words.Shr(x, s)
  {
    SmallResidue(s, TWO64);
  }

  /** y >> x, keeping the sign */
  function Sar(x: u256, y: u256): u256 {
    if ShiftsOut(x) then 0
    else if x % TWO64 >= 256 then (if y < TWO255 then 0 else TWO256 - 1)
    else Wrap256(Signed256(y) / Pow2(x % TWO64))
  }

  function B32AsBEWord(v: Bytes32): u256 {
    FromBEBound(v); PowValues(); FromBE(v)
  }

  function BEWordAsB32(v: u256): Bytes32 {
    ToBE(v, 32)
  }

  lemma QuotientBound(x: nat, y: nat)
    requires y > 0
    ensures 0 <= x / y <= x
  {
    DivMod(x, y);
    if x / y > x {
      MulAtLeast(y, x / y);
    }
  }

  lemma WordBound(x: u256, y: u256)
    ensures Words.Or(x, y) < TWO256 && Words.Xor(x, y) < TWO256
  {
    PowValues();
    OrXorBound(x, y, 256);
  }

  lemma ShrBound(y: nat, q: nat)
    ensures Words.Shr(y, q) <= y
  {
    ShrIsDiv(y, q);
    QuotientBound(y, Pow2(q));
  }

  /** Words and their 32 bytes are the same thing. */
  lemma WordRoundTrip(v: u256, b: Bytes32)
    ensures B32AsBEWord(BEWordAsB32(v)) == v
    ensures BEWordAsB32(B32AsBEWord(b)) == b
  {
    PowValues();
    BEFits(v, 32);
    BERoundTrip(b);
  }
}
