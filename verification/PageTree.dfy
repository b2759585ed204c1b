/** Where pages sit in the whole hash tree: arithmetic on page indices, and the
    step from the tree over one page to the tree over all of memory. */
module PageTree {
  import opened Words
  import opened Bytes
  import opened FlatMemory
  import opened TreeIndex
  import opened Page
  import opened RadixTrie

  const PAGES: int := 0x10_0000_0000_0000 // 2^52

  lemma PathSplit(bf: seq<nat>, pi: nat, level: nat)
    requires Factors(bf) && level < 6
    ensures PathPrefix(bf, pi, level + 1) == Shl(PathPrefix(bf, pi, level), bf[level]) + Branch(bf, pi, level)
  {
    DepthStep(bf, level);
    Digits(PathPrefix(bf, pi, level + 1), bf[level]);
    ShrShr(pi, 52 - DepthOf(bf, level + 1), bf[level]);
  }

  lemma PathTop(pi: nat)
    requires pi < PAGES
    ensures PageAnc(pi, 0) == 0 && PageAnc(pi, 52) == pi
  {
    LeavesPow();
    LowSmall(pi, 52);
  }

  lemma TopPrefix(bf: seq<nat>, pi: nat)
    requires Factors(bf) && pi < PAGES
    ensures PathPrefix(bf, pi, 0) == 0 && PathPrefix(bf, pi, 6) == pi
  {
    PathTop(pi);
  }

  lemma PreTop(p: nat, g: nat)
    requires g >= 1
    ensures Shr(Pre(p, g), Dep(g)) == p
  {
    PreShr(p, g, Dep(g));
    DepShr(g, Dep(g));
  }

  lemma DepInNode(g: nat, bits: nat)
    requires 1 <= g < Pow2(bits)
    ensures Dep(g) < bits
  {
    DepBounds(g);
    if Dep(g) >= bits {
      PowMonotone(bits, Dep(g));
    }
  }

  /** In a node at depth D, index g is above the branch of pi exactly when it is on
      the path of pi in the whole tree. */
  lemma PathInNode(pi: nat, D: nat, bits: nat, g: nat)
    requires D + bits <= 52 && 1 <= g < Pow2(bits)
    ensures Dep(g) < bits
    ensures OnPath(g, (Low(Shr(pi, 52 - D - bits), bits) + Pow2(bits)) / 2)
      <==> Shr(pi, 52 - D - Dep(g)) == Pre(Shr(pi, 52 - D), g)
  {
    hide *;
    var q, x := Shr(pi, 52 - D), Shr(pi, 52 - D - bits);
    var bottom := Low(x, bits) + Pow2(bits);
    Digits(x, bits);
    ShrShr(pi, 52 - D - bits, bits);
    DepInNode(g, bits);
    DepUnique(bottom, bits);
    PreBottom(q, bottom, bits);
    ShrShr(pi, 52 - D - bits, bits - Dep(g));
    OnPathIsAncestor(q, g, bottom);
    OnPathHalf(g, bottom);
  }

  lemma OnPathHalf(g: nat, l: nat)
    requires l > 1 && g != l
    ensures OnPath(g, l) <==> OnPath(g, l / 2)
  {
  }

  lemma PathAbove(pi: nat, D: nat, p: nat, g: nat)
    requires g >= 1 && D + Dep(g) <= 52
    requires Shr(pi, 52 - D - Dep(g)) == Pre(p, g)
    ensures Shr(pi, 52 - D) == p
  {
    PreTop(p, g);
    ShrShr(pi, 52 - D - Dep(g), Dep(g));
  }

  /** Page pi lies below index g of a node with path bits p exactly when the node is on
      the path of pi and g is above the branch that pi takes there. */
  lemma BelowNode(pi: nat, D: nat, bits: nat, p: nat, g: nat)
    requires D + bits <= 52 && 1 <= g < Pow2(bits)
    ensures D + Dep(g) < 52
    ensures PageAnc(pi, D + Dep(g)) == Pre(p, g)
      <==> PageAnc(pi, D) == p && OnPath(g, Bottom(Low(PageAnc(pi, D + bits), bits), bits))
  {
    PathInNode(pi, D, bits, g);
    assert PageAnc(pi, D + Dep(g)) == Shr(pi, 52 - D - Dep(g));
    if PageAnc(pi, D + Dep(g)) == Pre(p, g) {
      PathAbove(pi, D, p, g);
    }
  }

  /** Only branch i of node (level, p) leads to the pages below its child i. */
  lemma BranchAt(bf: seq<nat>, pi: nat, level: nat, p: nat, i: nat)
    requires Factors(bf) && level < 6 && i < Pow2(bf[level])
    ensures PathPrefix(bf, pi, level + 1) == Shl(p, bf[level]) + i
      <==> PathPrefix(bf, pi, level) == p && Branch(bf, pi, level) == i
  {
    PathSplit(bf, pi, level);
    if PathPrefix(bf, pi, level + 1) == Shl(p, bf[level]) + i {
      DigitsUnique(PathPrefix(bf, pi, level + 1), bf[level], p, i);
      DigitsUnique(PathPrefix(bf, pi, level + 1), bf[level], PathPrefix(bf, pi, level), Branch(bf, pi, level));
    }
  }

  /** A bottom-row index of a node: its place in the whole tree. */
  lemma ChildPlace(bits: nat, p: nat, g: nat)
    requires Pow2(bits) <= g < 2 * Pow2(bits)
    ensures Dep(g) == bits
    ensures Pre(p, g) == Shl(p, bits) + g - Pow2(bits)
  {
    DepUnique(g, bits);
    PreBottom(p, g, bits);
  }

  // ----- from one page to the whole tree -----

  ghost function PageData(m: Flat, pi: nat): (data: seq<byte>)
    requires pi < PAGES
    ensures |data| == 4096
  {
    m[4096 * pi..4096 * pi + 4096]
  }

  lemma Shl7(pi: nat)
    ensures Shl(pi, 7) == 128 * pi && Shr(pi, 7) == pi / 128
  {
    ShlIsMul(pi, 7);
    ShrIsDiv(pi, 7);
    assert Pow2(7) == 128;
  }

  /** Memory with page pi filled with zeros. */
  ghost function ZeroPage(m: Flat, pi: nat): Flat {
    seq(TWO64, x requires 0 <= x < TWO64 => if x / 4096 == pi then 0 else m[x])
  }

  lemma ZeroElsewhere(m: Flat, pi: nat)
    ensures forall x :: 0 <= x < TWO64 && x / 4096 != pi ==> m[x] == ZeroPage(m, pi)[x]
  {
  }

  lemma ZeroPageData(m: Flat, pi: nat)
    requires pi < PAGES
    ensures forall i :: 0 <= i < 4096 ==> PageData(ZeroPage(m, pi), pi)[i] == 0
  {
    forall i | 0 <= i < 4096 ensures PageData(ZeroPage(m, pi), pi)[i] == 0 {
      assert (4096 * pi + i) / 4096 == pi;
    }
  }

  lemma SliceSlice(m: seq<byte>, a: nat, b: nat, c: nat, d: nat)
    requires a <= b <= |m| && c <= d <= b - a
    ensures m[a..b][c..d] == m[a + c..a + d]
  {
    var s, t := m[a..b][c..d], m[a + c..a + d];
    forall k | 0 <= k < d - c ensures s[k] == t[k] {
      assert s[k] == m[a..b][c + k];
    }
  }

  lemma PageLeaf(K: Hash, m: Flat, pi: nat, g: nat)
    requires pi < PAGES && 128 <= g < 256
    ensures PageNode(K, PageData(m, pi), g) == Sub(K, m, 52 + Dep(g), Pre(pi, g))
  {
    Dep7(g);
    assert Pow2(7) == 128;
    PreBottom(pi, g, 7);
    Shl7(pi);
    LeafNode(K, PageData(m, pi), g);
    var i := 128 * pi + g - 128;
    assert Pre(pi, g) == i;
    SliceSlice(m, 4096 * pi, 4096 * pi + 4096, 32 * (g - 128), 32 * (g - 128) + 32);
    assert Sub(K, m, 59, i) == Leaf(m, i);
  }

  lemma DepSix(g: nat)
    requires 1 <= g < 128
    ensures Dep(g) < 7
  {
    assert Pow2(7) == 128;
    DepInNode(g, 7);
  }

  lemma PageInner(K: Hash, m: Flat, pi: nat, g: nat)
    requires pi < PAGES && 1 <= g < 128
    requires PageNode(K, PageData(m, pi), 2 * g) == Sub(K, m, 52 + Dep(2 * g), Pre(pi, 2 * g))
    requires PageNode(K, PageData(m, pi), 2 * g + 1) == Sub(K, m, 52 + Dep(2 * g + 1), Pre(pi, 2 * g + 1))
    ensures PageNode(K, PageData(m, pi), g) == Sub(K, m, 52 + Dep(g), Pre(pi, g))
  {
    hide *;
    DepSix(g);
    SubStep(K, m, 52 + Dep(g), Pre(pi, g));
    BelowPlace(pi, g);
    PageStep(K, PageData(m, pi), g);
  }

  lemma BelowPlace(p: nat, g: nat)
    requires g >= 1
    ensures Dep(2 * g) == Dep(g) + 1 && Pre(p, 2 * g) == 2 * Pre(p, g)
    ensures Dep(2 * g + 1) == Dep(g) + 1 && Pre(p, 2 * g + 1) == 2 * Pre(p, g) + 1
  {
  }

  lemma PageStep(K: Hash, data: seq<byte>, g: nat)
    requires |data| == 4096 && 1 <= g < 128
    ensures PageNode(K, data, g) == HashPair(K, PageNode(K, data, 2 * g), PageNode(K, data, 2 * g + 1))
  {
  }

  /** The hash tree over a page is the part of the whole tree below that page. */
  lemma {:induction false} PageIsSub(K: Hash, m: Flat, pi: nat, g: nat)
    requires pi < PAGES && 1 <= g < 256
    ensures PageNode(K, PageData(m, pi), g) == Sub(K, m, 52 + Dep(g), Pre(pi, g))
    decreases 256 - g
  {
    hide PageNode, Sub, Dep, Pre, PageData;
    if g >= 128 {
      PageLeaf(K, m, pi, g);
    } else {
      PageIsSub(K, m, pi, 2 * g);
      PageIsSub(K, m, pi, 2 * g + 1);
      PageInner(K, m, pi, g);
    }
  }

  lemma SubStep(K: Hash, m: Flat, d: nat, p: nat)
    requires d < 59
    ensures Sub(K, m, d, p) == HashPair(K, Sub(K, m, d + 1, 2 * p), Sub(K, m, d + 1, 2 * p + 1))
  {
  }

  /** Leaf i lies in page i / 128. */
  lemma LeafInPage(i: nat, d: nat)
    requires d <= 52
    ensures LeafAnc(i, d) == PageAnc(i / 128, d)
  {
    Shl7(i);
    ShrShr(i, 7, 52 - d);
  }

  lemma ZeroLeaf(m: Flat, i: nat)
    requires i < LEAVES
    requires forall x :: 4096 * (i / 128) <= x < 4096 * (i / 128) + 4096 ==> m[x] == 0
    ensures Leaf(m, i) == ZERO32
  {
    forall k | 0 <= k < 32 ensures m[32 * i..32 * i + 32][k] == ZERO32[k] {
      assert m[32 * i..32 * i + 32][k] == m[32 * i + k];
    }
  }

  /** Changing the bytes of page pi only leaves every subtree without pi alone. */
  lemma SubOtherPage(K: Hash, m: Flat, m': Flat, pi: nat, d: nat, p: nat)
    requires pi < PAGES && d <= 52
    requires forall x :: 0 <= x < TWO64 && x / 4096 != pi ==> m[x] == m'[x]
    requires PageAnc(pi, d) != p
    ensures Sub(K, m, d, p) == Sub(K, m', d, p)
  {
    forall i: nat | LeafAnc(i, d) == p ensures Leaf(m, i) == Leaf(m', i) {
      LeafInPage(i, d);
      if i < LEAVES {
        forall k | 32 * i <= k < 32 * i + 32 ensures m[k] == m'[k] {
          assert k / 4096 == i / 128;
        }
        assert m[32 * i..32 * i + 32] == m'[32 * i..32 * i + 32];
      }
    }
    SubFrame(K, m, m', d, p);
  }

  // ----- branches through a page -----

  lemma SiblingPlace(p: nat, g: nat)
    requires g > 1
    ensures Sibling(g) >= 1 && Dep(Sibling(g)) == Dep(g) && Pre(p, Sibling(g)) == Sibling(Pre(p, g))
  {
    assert Sibling(g) / 2 == g / 2;
  }

  lemma SiblingInNode(g: nat, bits: nat)
    requires 1 < g < 2 * Pow2(bits)
    ensures 1 < Sibling(g) < 2 * Pow2(bits)
  {
  }

  /** One step up the path of leaf i, from index g of a node at depth D. */
  lemma StepUp(p: nat, D: nat, g: nat, i: nat)
    requires g > 1 && D + Dep(g) <= 59 && Pre(p, g) == LeafAnc(i, D + Dep(g))
    ensures Sibling(g) >= 1 && Dep(Sibling(g)) == Dep(g) && Pre(p, Sibling(g)) == Sibling(LeafAnc(i, D + Dep(g)))
    ensures Dep(g / 2) == Dep(g) - 1 && Pre(p, g / 2) == LeafAnc(i, D + Dep(g / 2))
  {
    SiblingPlace(p, g);
    LeafAncParent(i, D + Dep(g) - 1);
  }

  lemma {:induction false} PageSiblingsAt(K: Hash, m: Flat, pi: nat, g: nat, t: nat)
    requires pi < PAGES && 1 <= g < 256 && t < Dep(g) <= 7
    ensures PageSiblings(K, PageData(m, pi), g)[t] == Sub(K, m, 52 + Dep(g) - t, Sibling(Shr(Pre(pi, g), t)))
    decreases t
  {
    if t == 0 {
      SiblingPlace(pi, g);
      SiblingInPage(g);
      PageIsSub(K, m, pi, Sibling(g));
    } else {
      assert Pre(pi, g) / 2 == Pre(pi, g / 2);
      PageSiblingsAt(K, m, pi, g / 2, t - 1);
    }
  }

  lemma SiblingInPage(g: nat)
    requires 1 < g < 256
    ensures 1 < Sibling(g) < 256
  {
  }

  /** The eight words a page contributes to a branch. */
  lemma PageProofWords(K: Hash, m: Flat, i: nat, j: nat)
    requires i < LEAVES && j < 8
    ensures 128 <= 128 + i % 128 < 256 && Dep(128 + i % 128) == 7
    ensures ([PageNode(K, PageData(m, i / 128), 128 + i % 128)] + PageSiblings(K, PageData(m, i / 128), 128 + i % 128))[j]
         == ProofWord(K, m, i, j)
  {
    var pi, g := i / 128, 128 + i % 128;
    Dep7(g);
    assert Pow2(7) == 128;
    PreBottom(pi, g, 7);
    Shl7(pi);
    assert Pre(pi, g) == i;
    if j == 0 {
      PageIsSub(K, m, pi, g);
    } else {
      PageSiblingsAt(K, m, pi, g, j - 1);
    }
  }

  // ----- writes inside one page -----

  lemma WriteInPage(m: Flat, addr: u64, data: seq<byte>)
    requires addr % 4096 + |data| <= 4096
    ensures PageData(WriteBytes(m, addr, data), addr / 4096) == Spliced(PageData(m, addr / 4096), addr % 4096, data)
    ensures forall x :: 0 <= x < TWO64 && x / 4096 != addr / 4096 ==> m[x] == WriteBytes(m, addr, data)[x]
  {
    var pi, a := addr / 4096, addr % 4096;
    var l, r := PageData(WriteBytes(m, addr, data), pi), PageData(m, pi)[..a] + data + PageData(m, pi)[a + |data|..];
    forall i | 0 <= i < 4096 ensures l[i] == r[i] {
      var x := 4096 * pi + i;
      assert l[i] == WriteBytes(m, addr, data)[x];
      if a <= i < a + |data| {
        assert AddrSub(x, addr) == i - a;
      } else {
        assert AddrSub(x, addr) >= |data|;
        assert r[i] == m[x];
      }
    }
  }

  lemma OtherPageData(m: Flat, m': Flat, pi: nat, qi: nat)
    requires pi != qi && qi < PAGES
    requires forall x :: 0 <= x < TWO64 && x / 4096 != pi ==> m[x] == m'[x]
    ensures PageData(m, qi) == PageData(m', qi)
  {
    forall i | 0 <= i < 4096 ensures PageData(m, qi)[i] == PageData(m', qi)[i] {
      assert (4096 * qi + i) / 4096 == qi;
    }
  }

  /** How many of n bytes from addr on lie in its page. */
  function InPage(addr: u64, n: nat): nat {
    if addr % 4096 + n <= 4096 then n else 4096 - addr % 4096
  }

  /** The pages that a write of n bytes at addr reaches. */
  function Touched(addr: u64, n: nat): set<nat> {
    {addr / 4096} + (if InPage(addr, n) < n && InPage(addr, n) < TWO64 then {AddrAdd(addr, InPage(addr, n)) / 4096} else {})
  }

  lemma PageInRange(addr: u64)
    ensures addr / 4096 < PAGES
  {
  }

  /** Where the part of a string that does not fit its page goes on. */
  lemma NextPage(addr: u64, n: nat)
    requires n <= 32
    ensures var d := InPage(addr, n); var next := AddrAdd(addr, d);
      && d <= n && addr % 4096 + d <= 4096
      && (d < n ==> next / 4096 != addr / 4096 && next % 4096 == 0 && n - d <= 32)
  {
  }
}
