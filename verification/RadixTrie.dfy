/** The nodes of the radix trie over the pages (rvgo/fast/radix.go). The three Go
    node types differ only in their branching factor, so one class serves all six levels. */
module RadixTrie {
  import opened Words
  import opened Bytes
  import opened TreeIndex

  /** Address bits consumed above a level; level 6 stands for the pages. */
  function DepthOf(bf: seq<nat>, level: nat): nat
    requires level <= |bf|
  {
    if level == 0 then 0 else DepthOf(bf, level - 1) + bf[level - 1]
  }

  /** Six levels that together consume the 52 bits of a page index. */
  ghost predicate Factors(bf: seq<nat>) {
    |bf| == 6 && (forall l :: 0 <= l < 6 ==> bf[l] > 0) && DepthOf(bf, 6) == 52
  }

  /** The branching factors in use. */
  lemma DefaultFactors()
    ensures Factors([16, 16, 6, 6, 4, 4])
  {
    var bf: seq<nat> := [16, 16, 6, 6, 4, 4];
    assert DepthOf(bf, 6) == DepthOf(bf, 5) + 4 == DepthOf(bf, 4) + 8;
    assert DepthOf(bf, 4) == DepthOf(bf, 3) + 6 == DepthOf(bf, 2) + 12;
    assert DepthOf(bf, 2) == DepthOf(bf, 1) + 16;
    assert DepthOf(bf, 1) == DepthOf(bf, 0) + 16;
  }

  lemma {:induction false} DepthMonotone(bf: seq<nat>, l: nat, h: nat)
    requires l <= h <= |bf|
    ensures DepthOf(bf, l) <= DepthOf(bf, h)
    decreases h
  {
    if l < h {
      DepthMonotone(bf, l, h - 1);
    }
  }

  lemma DepthStep(bf: seq<nat>, level: nat)
    requires Factors(bf) && level < 6
    ensures DepthOf(bf, level + 1) == DepthOf(bf, level) + bf[level] <= 52
  {
    DepthMonotone(bf, level + 1, 6);
  }

  /** The lowest index that is hashed from a child at the given branch. */
  function Bottom(branch: nat, bits: nat): nat {
    (branch + Pow2(bits)) / 2
  }

  /** Where a child pointer leads: nowhere, to a node of the next level, or (below
      level 5) to the memory itself, which finds the page in its page table. */
  datatype Child = Nil | Inner(node: RadixNode) | ToMemory

  /** The bitmaps of the source, one bit for each index, are the sets of their ones. */
  class RadixNode {
    const Level: nat
    const Bits: nat
    const Depth: nat
    ghost const Prefix: nat // the address bits above this node
    var Children: seq<Child>
    var Hashes: seq<Bytes32>
    var HashExists: set<nat>
    var HashValid: set<nat>

    function Size(): nat {
      Pow2(Bits)
    }

    constructor (level: nat, bits: nat, depth: nat, ghost prefix: nat)
      ensures Level == level && Bits == bits && Depth == depth && Prefix == prefix
      ensures |Children| == |Hashes| == Size() && HashExists == {} && HashValid == {}
      ensures forall i :: 0 <= i < Size() ==> Children[i] == Nil
    {
      Level, Bits, Depth, Prefix := level, bits, depth, prefix;
      Children := seq(Pow2(bits), _ => Nil);
      Hashes := seq(Pow2(bits), _ => ZERO32);
      HashExists, HashValid := {}, {};
    }

    /** Marks every index above the given branch as existing and as not valid. */
    method InvalidateNode(branch: nat)
      requires Bits > 0 && branch < Size()
      modifies this`HashExists, this`HashValid
      ensures HashExists >= old(HashExists)
      ensures forall g :: g in HashExists <==> g in old(HashExists) || (g >= 1 && OnPath(g, Bottom(branch, Bits)))
      ensures forall g :: g in HashValid <==> g in old(HashValid) && !(g >= 1 && OnPath(g, Bottom(branch, Bits)))
    {
      ghost var bottom := (branch + Size()) / 2;
      assert Size() >= 2;
      var index := (branch + Size()) / 2;
      while index > 0
        invariant 0 <= index < Size()
        invariant forall g: nat :: g >= 1 && OnPath(g, bottom) && (index == 0 || !OnPath(g, index)) ==>
          g in HashExists && g !in HashValid
        invariant forall g: nat :: g == 0 || !OnPath(g, bottom) ==>
          (g in HashExists <==> g in old(HashExists)) && (g in HashValid <==> g in old(HashValid))
        invariant forall g: nat :: g in old(HashExists) ==> g in HashExists
        invariant forall g: nat :: g in HashValid ==> g in old(HashValid)
        invariant forall g: nat :: g >= 1 && index > 0 && OnPath(g, index) ==> OnPath(g, bottom)
      {
        DivUnique(index, Size(), 0, index); // the index fits the bitmap
        var hashBit := index % Size();
        HashExists := HashExists + {hashBit};
        HashValid := HashValid - {hashBit};
        index := index / 2;
      }
    }
  }

  /** The ancestor at depth d of page pi. */
  function PageAnc(pi: nat, d: nat): nat {
    if d <= 52 then Shr(pi, 52 - d) else pi
  }

  lemma PageAncParent(pi: nat, d: nat)
    requires d < 52
    ensures PageAnc(pi, d) == PageAnc(pi, d + 1) / 2
  {
    ShrShr(pi, 51 - d, 1);
    assert Shr(PageAnc(pi, d + 1), 1) == Shr(PageAnc(pi, d + 1) / 2, 0);
  }

  /** The address bits of page pi above the given level. */
  function PathPrefix(bf: seq<nat>, pi: nat, level: nat): nat
    requires level <= |bf|
  {
    PageAnc(pi, DepthOf(bf, level))
  }

  /** addressToRadixPath: the branch page pi takes at a level. */
  function Branch(bf: seq<nat>, pi: nat, level: nat): (b: nat)
    requires level < |bf|
    ensures b < Pow2(bf[level])
  {
    Digits(PathPrefix(bf, pi, level + 1), bf[level]);
    Low(PathPrefix(bf, pi, level + 1), bf[level])
  }

  /** Go's addressToRadixPath: count bits of a 64-bit address, starting at a position from the top. */
  function AddressToRadixPath(addr: u64, position: nat, count: nat): nat
    requires position + count <= 64
  {
    Low(Shr(addr, 64 - position - count), count)
  }

  /** addr >> (64 - depth): the address bits above a node. */
  function AddressPrefix(addr: u64, depth: nat): nat
    requires depth <= 64
  {
    Shr(addr, 64 - depth)
  }

  lemma PathOfAddress(bf: seq<nat>, addr: u64, level: nat)
    requires Factors(bf) && level < 6
    ensures DepthOf(bf, level) + bf[level] <= 52
    ensures AddressToRadixPath(addr, DepthOf(bf, level), bf[level]) == Branch(bf, addr / 4096, level)
    ensures AddressPrefix(addr, DepthOf(bf, level)) == PathPrefix(bf, addr / 4096, level)
  {
    DepthStep(bf, level);
    PageOfAddress(addr);
    ShrShr(addr, 12, 52 - DepthOf(bf, level + 1));
    ShrShr(addr, 12, 52 - DepthOf(bf, level));
  }

  lemma PageOfAddress(addr: u64)
    ensures Shr(addr, 12) == addr / 4096
  {
    PowValues();
    ShrIsDiv(addr, 12);
  }
}
