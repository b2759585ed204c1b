/** The reference memory: 2^64 bytes, and the binary hash tree over its 2^59
    leaves of 32 bytes. Every other memory of the project is measured against it. */
module FlatMemory {
  import opened Words
  import opened Bytes

  /** Keccak-256, of which nothing is assumed. */
  type Hash = seq<byte> -> Bytes32

  /** Memory before anything was written. */
  ghost const EMPTY: seq<byte> := seq(TWO64, _ => 0)

  type Flat = s: seq<byte> | |s| == TWO64 ghost witness EMPTY

  const LEAVES: int := 0x800_0000_0000_0000 // 2^59

  function HashPair(K: Hash, l: Bytes32, r: Bytes32): Bytes32 {
    K(l + r)
  }

  // ----- bytes; addresses wrap around at 2^64 -----

  function AddrAdd(a: u64, i: u64): u64 {
    if a + i < TWO64 then a + i else a + i - TWO64
  }

  /** How far x lies behind a. */
  function AddrSub(x: u64, a: u64): u64 {
    if x >= a then x - a else x - a + TWO64
  }

  lemma AddrInverse(a: u64, x: u64)
    ensures AddrAdd(a, AddrSub(x, a)) == x && AddrSub(AddrAdd(a, x), a) == x
  {
  }

  ghost function ReadBytes(m: Flat, a: u64, n: nat): (s: seq<byte>)
    requires n <= TWO64
    ensures |s| == n
  {
    seq(n, i requires 0 <= i < n => m[AddrAdd(a, i)])
  }

  ghost function WriteBytes(m: Flat, a: u64, data: seq<byte>): Flat
    requires |data| < TWO64
  {
    seq(TWO64, x requires 0 <= x < TWO64 =>
      if AddrSub(x, a) < |data| then data[AddrSub(x, a)] else m[x])
  }

  /** Writing a string in two pieces is writing it at once. */
  lemma WriteTwice(m: Flat, a: u64, d1: seq<byte>, d2: seq<byte>)
    requires |d1| + |d2| < TWO64
    ensures WriteBytes(WriteBytes(m, a, d1), AddrAdd(a, |d1|), d2) == WriteBytes(m, a, d1 + d2)
  {
    var b := AddrAdd(a, |d1|);
    var l, r := WriteBytes(WriteBytes(m, a, d1), b, d2), WriteBytes(m, a, d1 + d2);
    forall x | 0 <= x < TWO64 ensures l[x] == r[x] {
      var k := AddrSub(x, a);
      if |d1| <= k < |d1| + |d2| {
        assert AddrSub(x, b) == k - |d1|;
      } else {
        assert AddrSub(x, b) >= |d2|;
      }
    }
  }

  lemma ReadTwice(m: Flat, a: u64, n1: nat, n2: nat)
    requires n1 < TWO64 && n1 + n2 <= TWO64
    ensures ReadBytes(m, a, n1) + ReadBytes(m, AddrAdd(a, n1), n2) == ReadBytes(m, a, n1 + n2)
  {
  }

  /** What was written last is what is read. */
  lemma ReadWrite(m: Flat, a: u64, data: seq<byte>)
    requires |data| < TWO64
    ensures ReadBytes(WriteBytes(m, a, data), a, |data|) == data
  {
    forall i | 0 <= i < |data| ensures ReadBytes(WriteBytes(m, a, data), a, |data|)[i] == data[i] {
      AddrInverse(a, i);
    }
  }

  // ----- the hash tree -----

  ghost function Leaf(m: Flat, i: nat): Bytes32 {
    if i < LEAVES then m[32 * i..32 * i + 32] else ZERO32
  }

  /** The node at depth d (0 is the root, 59 the leaves) with path bits p. */
  ghost function Sub(K: Hash, m: Flat, d: nat, p: nat): Bytes32
    decreases 59 - d, |m|
  {
    if d >= 59 then Leaf(m, p)
    else HashPair(K, Sub(K, m, d + 1, 2 * p), Sub(K, m, d + 1, 2 * p + 1))
  }

  ghost function Root(K: Hash, m: Flat): Bytes32 {
    Sub(K, m, 0, 0)
  }

  /** The root of an all-zero subtree with 2^level leaves. */
  function ZeroHash(K: Hash, level: nat): Bytes32 {
    if level == 0 then ZERO32 else HashPair(K, ZeroHash(K, level - 1), ZeroHash(K, level - 1))
  }

  /** The ancestor at depth d of leaf i. */
  function LeafAnc(i: nat, d: nat): nat
    requires d <= 59
  {
    Shr(i, 59 - d)
  }

  lemma LeafAncParent(i: nat, d: nat)
    requires d < 59
    ensures LeafAnc(i, d) == LeafAnc(i, d + 1) / 2
  {
    ShrShr(i, 58 - d, 1);
    assert Shr(LeafAnc(i, d + 1), 1) == Shr(LeafAnc(i, d + 1) / 2, 0);
  }

  /** A node depends on the leaves below it and on nothing else. */
  lemma {:induction false} SubFrame(K: Hash, m: Flat, m': Flat, d: nat, p: nat)
    requires d <= 59
    requires forall i: nat :: LeafAnc(i, d) == p ==> Leaf(m, i) == Leaf(m', i)
    ensures Sub(K, m, d, p) == Sub(K, m', d, p)
    decreases 59 - d, |m|
  {
    if d == 59 {
      assert LeafAnc(p, 59) == p;
    } else {
      forall i: nat | LeafAnc(i, d + 1) == 2 * p || LeafAnc(i, d + 1) == 2 * p + 1
        ensures Leaf(m, i) == Leaf(m', i)
      {
        LeafAncParent(i, d);
      }
      SubFrame(K, m, m', d + 1, 2 * p);
      SubFrame(K, m, m', d + 1, 2 * p + 1);
    }
  }

  lemma {:induction false} SubZero(K: Hash, m: Flat, d: nat, p: nat)
    requires d <= 59
    requires forall i: nat :: LeafAnc(i, d) == p ==> Leaf(m, i) == ZERO32
    ensures Sub(K, m, d, p) == ZeroHash(K, 59 - d)
    decreases 59 - d, |m|
  {
    if d == 59 {
      assert LeafAnc(p, 59) == p;
    } else {
      forall i: nat | LeafAnc(i, d + 1) == 2 * p || LeafAnc(i, d + 1) == 2 * p + 1
        ensures Leaf(m, i) == ZERO32
      {
        LeafAncParent(i, d);
      }
      SubZero(K, m, d + 1, 2 * p);
      SubZero(K, m, d + 1, 2 * p + 1);
    }
  }

  // ----- Merkle branches -----

  function Sibling(p: nat): nat {
    if p % 2 == 0 then p + 1 else p - 1
  }

  /** The siblings met on the way from (d, p) up to the root. */
  ghost function Siblings(K: Hash, m: Flat, d: nat, p: nat): (s: seq<Bytes32>)
    ensures |s| == d
  {
    if d == 0 then [] else [Sub(K, m, d, Sibling(p))] + Siblings(K, m, d - 1, p / 2)
  }

  /** The 60 words of a branch: the leaf, then its 59 siblings from the bottom up. */
  ghost function ProofOf(K: Hash, m: Flat, i: nat): (s: seq<Bytes32>)
    ensures |s| == 60
  {
    [Leaf(m, i)] + Siblings(K, m, 59, i)
  }

  /** Word j of a branch, by index. */
  ghost function ProofWord(K: Hash, m: Flat, i: nat, j: nat): Bytes32
    requires j < 60
  {
    if j == 0 then Leaf(m, i) else Sub(K, m, 60 - j, Sibling(Shr(i, j - 1)))
  }

  lemma {:induction false} SiblingsAt(K: Hash, m: Flat, d: nat, p: nat, t: nat)
    requires t < d
    ensures Siblings(K, m, d, p)[t] == Sub(K, m, d - t, Sibling(Shr(p, t)))
    decreases t
  {
    if t > 0 {
      SiblingsAt(K, m, d - 1, p / 2, t - 1);
    }
  }

  lemma ProofOfAt(K: Hash, m: Flat, i: nat, j: nat)
    requires j < 60
    ensures ProofOf(K, m, i)[j] == ProofWord(K, m, i, j)
  {
    if j > 0 {
      SiblingsAt(K, m, 59, i, j - 1);
    }
  }

  lemma SiblingAbove(p: nat, t: nat)
    requires t > 0
    ensures Shr(Sibling(p), t) == Shr(p, t)
  {
  }

  function Combine(K: Hash, node: Bytes32, sibling: Bytes32, path: nat): Bytes32 {
    if path % 2 == 0 then HashPair(K, node, sibling) else HashPair(K, sibling, node)
  }

  /** Folding siblings into a node, lowest path bit first. */
  function Fold(K: Hash, node: Bytes32, path: nat, sibs: seq<Bytes32>): Bytes32
    decreases |sibs|
  {
    if |sibs| == 0 then node
    else Fold(K, Combine(K, node, sibs[0], path), path / 2, sibs[1..])
  }

  lemma CombineChildren(K: Hash, m: Flat, d: nat, p: nat)
    requires 0 < d <= 59
    ensures Combine(K, Sub(K, m, d, p), Sub(K, m, d, Sibling(p)), p) == Sub(K, m, d - 1, p / 2)
  {
    assert p == 2 * (p / 2) + p % 2;
  }

  /** A branch of the reference tree folds to its root. */
  lemma {:induction false} FoldSiblings(K: Hash, m: Flat, d: nat, p: nat)
    requires d <= 59 && p < Pow2(d)
    ensures Fold(K, Sub(K, m, d, p), p, Siblings(K, m, d, p)) == Root(K, m)
    decreases d
  {
    if d == 0 {
      assert p == 0;
    } else {
      var s := Siblings(K, m, d, p);
      assert s[1..] == Siblings(K, m, d - 1, p / 2);
      CombineChildren(K, m, d, p);
      FoldSiblings(K, m, d - 1, p / 2);
    }
  }

  lemma LeavesPow()
    ensures Pow2(59) == LEAVES && Pow2(52) == 0x10_0000_0000_0000
  {
    PowValues();
    assert Pow2(64) == 32 * Pow2(59) by { PowAdd(5, 59); }
    assert Pow2(64) == 4096 * Pow2(52) by { PowAdd(12, 52); }
  }

  /** Completeness of the reference branches. */
  lemma ProofFolds(K: Hash, m: Flat, i: nat)
    requires i < LEAVES
    ensures Fold(K, ProofOf(K, m, i)[0], i, ProofOf(K, m, i)[1..]) == Root(K, m)
  {
    LeavesPow();
    assert ProofOf(K, m, i)[1..] == Siblings(K, m, 59, i);
    FoldSiblings(K, m, 59, i);
  }

  /** Changing one leaf leaves every sibling of its branch alone. */
  lemma {:induction false} SiblingsFrame(K: Hash, m: Flat, m': Flat, i: nat, d: nat)
    requires d <= 59
    requires forall j: nat :: j != i ==> Leaf(m, j) == Leaf(m', j)
    ensures Siblings(K, m, d, LeafAnc(i, d)) == Siblings(K, m', d, LeafAnc(i, d))
    decreases d
  {
    if d > 0 {
      LeafAncParent(i, d - 1);
      SiblingsFrame(K, m, m', i, d - 1);
      SubFrame(K, m, m', d, Sibling(LeafAnc(i, d)));
    }
  }

  /** Folding a new leaf through the old siblings gives the root of the changed memory. */
  lemma UpdateFolds(K: Hash, m: Flat, m': Flat, i: nat)
    requires i < LEAVES
    requires forall j: nat :: j != i ==> Leaf(m, j) == Leaf(m', j)
    ensures Fold(K, Leaf(m', i), i, ProofOf(K, m, i)[1..]) == Root(K, m')
  {
    assert LeafAnc(i, 59) == i;
    SiblingsFrame(K, m, m', i, 59);
    assert ProofOf(K, m, i)[1..] == ProofOf(K, m', i)[1..];
    ProofFolds(K, m', i);
  }

  // ----- binding -----

  /** The 64 bytes hashed to combine a node with its sibling. */
  function CombineInput(node: Bytes32, sibling: Bytes32, path: nat): seq<byte> {
    if path % 2 == 0 then node + sibling else sibling + node
  }

  /** Every string hashed while folding. */
  function FoldInputs(K: Hash, node: Bytes32, path: nat, sibs: seq<Bytes32>): set<seq<byte>>
    decreases |sibs|
  {
    if |sibs| == 0 then {}
    else {CombineInput(node, sibs[0], path)} + FoldInputs(K, Combine(K, node, sibs[0], path), path / 2, sibs[1..])
  }

  /** K does not collide on the strings of S. (No hash is injective on all strings,
      so binding is stated relative to the strings the folds hash.) */
  ghost predicate CollisionFree(K: Hash, S: set<seq<byte>>) {
    forall x, y :: x in S && y in S && K(x) == K(y) ==> x == y
  }

  lemma CombineInjective(K: Hash, n1: Bytes32, s1: Bytes32, n2: Bytes32, s2: Bytes32, path: nat, S: set<seq<byte>>)
    requires CollisionFree(K, S)
    requires CombineInput(n1, s1, path) in S && CombineInput(n2, s2, path) in S
    requires Combine(K, n1, s1, path) == Combine(K, n2, s2, path)
    ensures n1 == n2 && s1 == s2
  {
    var x, y := CombineInput(n1, s1, path), CombineInput(n2, s2, path);
    assert x == y;
    assert x[..32] == y[..32] && x[32..] == y[32..];
    assert path % 2 == 0 ==> x[..32] == n1 && x[32..] == s1 && y[..32] == n2 && y[32..] == s2;
    assert path % 2 != 0 ==> x[..32] == s1 && x[32..] == n1 && y[..32] == s2 && y[32..] == n2;
  }

  /** Two branches along one path that fold to one root are the same branch. */
  lemma {:induction false} FoldInjective(K: Hash, n1: Bytes32, s1: seq<Bytes32>, n2: Bytes32, s2: seq<Bytes32>,
                                         path: nat, S: set<seq<byte>>)
    requires |s1| == |s2| && CollisionFree(K, S)
    requires FoldInputs(K, n1, path, s1) <= S && FoldInputs(K, n2, path, s2) <= S
    requires Fold(K, n1, path, s1) == Fold(K, n2, path, s2)
    ensures n1 == n2 && s1 == s2
    decreases |s1|
  {
    if |s1| == 0 {
    } else {
      FoldInjective(K, Combine(K, n1, s1[0], path), s1[1..], Combine(K, n2, s2[0], path), s2[1..], path / 2, S);
      CombineInjective(K, n1, s1[0], n2, s2[0], path, S);
      assert s1 == [s1[0]] + s1[1..] && s2 == [s2[0]] + s2[1..];
    }
  }
}
