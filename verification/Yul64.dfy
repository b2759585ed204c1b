/** The instruction switch is one text in both packages, over two sets of 64-bit operations.
    It is therefore written once, over the operations of either package. */
module Yul64 {
  import opened Words
  import Fast = FastYul64
  import Slow = SlowYul64

  /** Which package's arithmetic: native uint64 operators, or 256-bit words. */
  datatype Arith = Native | Wide

  function Add64(w: Arith, x: u64, y: u64): u64 {
    if w.Native? then Fast.Add64(x, y) else Slow.Add64(x, y)
  }

  function Sub64(w: Arith, x: u64, y: u64): u64 {
    if w.Native? then Fast.Sub64(x, y) else Slow.Sub64(x, y)
  }

  function Mul64(w: Arith, x: u64, y: u64): u64 {
    if w.Native? then Fast.Mul64(x, y) else Slow.Mul64(x, y)
  }

  function Div64(w: Arith, x: u64, y: u64): u64 {
    if w.Native? then Fast.Div64(x, y) else Slow.Div64(x, y)
  }

  function SDiv64(w: Arith, x: u64, y: u64): u64 {
    if w.Native? then Fast.SDiv64(x, y) else Slow.SDiv64(x, y)
  }

  function Mod64(w: Arith, x: u64, y: u64): u64 {
    if w.Native? then Fast.Mod64(x, y) else Slow.Mod64(x, y)
  }

  function SMod64(w: Arith, x: u64, y: u64): u64 {
    if w.Native? then Fast.SMod64(x, y) else Slow.SMod64(x, y)
  }

  function Not64(w: Arith, x: u64): u64 {
    if w.Native? then Fast.Not64(x) else Slow.Not64(x)
  }

  function Lt64(w: Arith, x: u64, y: u64): u64 {
    if w.Native? then Fast.Lt64(x, y) else Slow.Lt64(x, y)
  }

  function Gt64(w: Arith, x: u64, y: u64): u64 {
    if w.Native? then Fast.Gt64(x, y) else Slow.Gt64(x, y)
  }

  function Slt64(w: Arith, x: u64, y: u64): u64 {
    if w.Native? then Fast.Slt64(x, y) else Slow.Slt64(x, y)
  }

  function Sgt64(w: Arith, x: u64, y: u64): u64 {
    if w.Native? then Fast.Sgt64(x, y) else Slow.Sgt64(x, y)
  }

  function Eq64(w: Arith, x: u64, y: u64): u64 {
    if w.Native? then Fast.Eq64(x, y) else Slow.Eq64(x, y)
  }

  function And64(w: Arith, x: u64, y: u64): u64 {
    if w.Native? then Fast.And64(x, y) else Slow.And64(x, y)
  }

  function Or64(w: Arith, x: u64, y: u64): u64 {
    if w.Native? then Fast.Or64(x, y) else Slow.Or64(x, y)
  }

  function Xor64(w: Arith, x: u64, y: u64): u64 {
    if w.Native? then Fast.Xor64(x, y) else Slow.Xor64(x, y)
  }

  function Shl64(w: Arith, x: u64, y: u64): u64 {
    if w.Native? then Fast.Shl64(x, y) else Slow.Shl64(x, y)
  }

  function Shr64(w: Arith, x: u64, y: u64): u64 {
    if w.Native? then Fast.Shr64(x, y) else Slow.Shr64(x, y)
  }

  function Sar64(w: Arith, x: u64, y: u64): u64 {
    if w.Native? then Fast.Sar64(x, y) else Slow.Sar64(x, y)
  }

  function SignExtend64(w: Arith, v: u64, bit: u64): u64 {
    if w.Native? then Fast.SignExtend64(v, bit) else Slow.SignExtend64(v, bit)
  }

  function Mask32Signed64(w: Arith, v: u64): u64 {
    if w.Native? then Fast.Mask32Signed64(v) else Slow.Mask32Signed64(v)
  }

  function SignExtend64To256(w: Arith, v: u64): u256 {
    if w.Native? then Fast.SignExtend64To256(v) else Slow.SignExtend64To256(v)
  }

  function U256ToU64(w: Arith, v: u256): u64 {
    if w.Native? then Fast.U256ToU64(v) else Slow.U256ToU64(v)
  }

  function U64Mask(w: Arith): u64 {
    if w.Native? then Fast.U64_MASK else Slow.U64Mask()
  }

  function U32Mask(w: Arith): u64 {
    if w.Native? then Fast.U32_MASK else Slow.U32Mask()
  }

  /** All 64-bit operations of the two packages are the same functions. */
  lemma OperationsAgree(x: u64, y: u64, v: u256)
    ensures Add64(Wide, x, y) == Add64(Native, x, y) && Sub64(Wide, x, y) == Sub64(Native, x, y)
    ensures Mul64(Wide, x, y) == Mul64(Native, x, y) && Div64(Wide, x, y) == Div64(Native, x, y)
    ensures SDiv64(Wide, x, y) == SDiv64(Native, x, y) && Mod64(Wide, x, y) == Mod64(Native, x, y)
    ensures SMod64(Wide, x, y) == SMod64(Native, x, y) && Not64(Wide, x) == Not64(Native, x)
    ensures Lt64(Wide, x, y) == Lt64(Native, x, y) && Gt64(Wide, x, y) == Gt64(Native, x, y)
    ensures Slt64(Wide, x, y) == Slt64(Native, x, y) && Sgt64(Wide, x, y) == Sgt64(Native, x, y)
    ensures Eq64(Wide, x, y) == Eq64(Native, x, y) && And64(Wide, x, y) == And64(Native, x, y)
    ensures Or64(Wide, x, y) == Or64(Native, x, y) && Xor64(Wide, x, y) == Xor64(Native, x, y)
    ensures Shl64(Wide, x, y) == Shl64(Native, x, y) && Shr64(Wide, x, y) == Shr64(Native, x, y)
    ensures Sar64(Wide, x, y) == Sar64(Native, x, y) && SignExtend64(Wide, x, y) == SignExtend64(Native, x, y)
    ensures Mask32Signed64(Wide, x) == Mask32Signed64(Native, x)
    ensures SignExtend64To256(Wide, x) == SignExtend64To256(Native, x)
    ensures U256ToU64(Wide, v) == U256ToU64(Native, v)
    ensures U64Mask(Wide) == U64Mask(Native) && U32Mask(Wide) == U32Mask(Native)
  {
  }
}
