/** The fast memory: a page table under a radix trie of cached hashes
    (rvgo/fast/memory.go and the Memory parts of rvgo/fast/radix.go). */
module CachedMemory {
  import opened Words
  import opened Bytes
  import opened FlatMemory
  import opened TreeIndex
  import opened Page
  import opened RadixTrie
  import opened PageTree

  const NO_KEY: int := 0xFFFF_FFFF_FFFF_FFFF

  // ----- what one trie node may contain -----

  /** None of the given pages lies below the tree node at depth d with path bits p. */
  ghost predicate NoneBelow(pis: set<nat>, d: nat, p: nat) {
    forall pi :: pi in pis ==> PageAnc(pi, d) != p
  }

  /** Child pointers of node (level, p) lead to the right nodes and to existing pages. */
  ghost predicate ChildrenOk(tree: map<(nat, nat), RadixNode>, pis: set<nat>, level: nat, bits: nat, p: nat,
                             children: seq<Child>)
  {
    && |children| == Pow2(bits)
    && forall i {:trigger children[i]} :: 0 <= i < |children| ==>
      match children[i]
      case Nil => true
      case Inner(c) =>
        var k := (level + 1, Shl(p, bits) + i);
        level < 5 && k in tree && tree[k] == c
      case ToMemory => level == 5 && Shl(p, bits) + i in pis
  }

  /** An index without a hash has no page below it. */
  ghost predicate ExistsOk(pis: set<nat>, depth: nat, bits: nat, p: nat, exists_: set<nat>) {
    forall g: nat {:trigger g in exists_} :: 1 <= g < Pow2(bits) && g !in exists_ ==>
      NoneBelow(pis, depth + Dep(g), Pre(p, g))
  }

  /** Valid hashes are right, and no page below them has lost its own root hash. */
  ghost predicate HashesOk(K: Hash, m: Flat, dirty: set<nat>, depth: nat, bits: nat, p: nat,
                           exists_: set<nat>, valid: set<nat>, hashes: seq<Bytes32>)
  {
    && |hashes| == Pow2(bits)
    && forall g: nat {:trigger g in valid} :: 1 <= g < |hashes| && g in exists_ && g in valid ==>
      && hashes[g] == Sub(K, m, depth + Dep(g), Pre(p, g))
      && NoneBelow(dirty, depth + Dep(g), Pre(p, g))
  }

  lemma HashesFewerDirty(K: Hash, m: Flat, dirty: set<nat>, dirty': set<nat>, depth: nat, bits: nat, p: nat,
                         exists_: set<nat>, valid: set<nat>, hashes: seq<Bytes32>)
    requires dirty' <= dirty && HashesOk(K, m, dirty, depth, bits, p, exists_, valid, hashes)
    ensures HashesOk(K, m, dirty', depth, bits, p, exists_, valid, hashes)
  {
  }

  lemma HashesStore(K: Hash, m: Flat, dirty: set<nat>, depth: nat, bits: nat, p: nat,
                    exists_: set<nat>, valid: set<nat>, hashes: seq<Bytes32>, g: nat, r: Bytes32)
    requires HashesOk(K, m, dirty, depth, bits, p, exists_, valid, hashes) && 1 <= g < Pow2(bits)
    requires r == Sub(K, m, depth + Dep(g), Pre(p, g))
    requires NoneBelow(dirty, depth + Dep(g), Pre(p, g))
    ensures HashesOk(K, m, dirty, depth, bits, p, exists_, valid + {g}, hashes[g := r])
  {
    hide Sub, Dep, Pre, NoneBelow, Pow2;
  }

  /** The indices above a branch are marked as existing, and none of them as valid. */
  ghost predicate Marked(bits: nat, branch: nat, exists_: set<nat>, valid: set<nat>) {
    forall g: nat {:trigger OnPath(g, Bottom(branch, bits))} ::
      g >= 1 && OnPath(g, Bottom(branch, bits)) ==> g in exists_ && g !in valid
  }

  lemma MarksSpread(depth: nat, bits: nat, p: nat, pis: set<nat>, pi: nat, exists_: set<nat>, valid: set<nat>)
    requires depth + bits <= 52 && ExistsOk(pis, depth, bits, p, exists_)
    requires PageAnc(pi, depth) == p ==> Marked(bits, Low(PageAnc(pi, depth + bits), bits), exists_, valid)
    ensures ExistsOk(pis + {pi}, depth, bits, p, exists_)
  {
    forall g: nat | 1 <= g < Pow2(bits) && g !in exists_ ensures NoneBelow(pis + {pi}, depth + Dep(g), Pre(p, g)) {
      BelowNode(pi, depth, bits, p, g);
    }
  }

  lemma MarksDirty(K: Hash, m: Flat, dirty: set<nat>, depth: nat, bits: nat, p: nat, pi: nat,
                   exists_: set<nat>, valid: set<nat>, hashes: seq<Bytes32>)
    requires depth + bits <= 52 && HashesOk(K, m, dirty, depth, bits, p, exists_, valid, hashes)
    requires PageAnc(pi, depth) == p ==> Marked(bits, Low(PageAnc(pi, depth + bits), bits), exists_, valid)
    ensures HashesOk(K, m, dirty + {pi}, depth, bits, p, exists_, valid, hashes)
  {
    forall g: nat | 1 <= g < |hashes| && g in exists_ && g in valid
      ensures NoneBelow(dirty + {pi}, depth + Dep(g), Pre(p, g))
    {
      BelowNode(pi, depth, bits, p, g);
    }
  }

  /** Hashes that stand above no dirty page survive any change to a dirty page. */
  lemma HashesOtherPage(K: Hash, m: Flat, m': Flat, dirty: set<nat>, depth: nat, bits: nat, p: nat, pi: nat,
                        exists_: set<nat>, valid: set<nat>, hashes: seq<Bytes32>)
    requires depth + bits <= 52 && pi < PAGES && pi in dirty
    requires HashesOk(K, m, dirty, depth, bits, p, exists_, valid, hashes)
    requires forall x :: 0 <= x < TWO64 && x / 4096 != pi ==> m[x] == m'[x]
    ensures HashesOk(K, m', dirty, depth, bits, p, exists_, valid, hashes)
  {
    forall g: nat | 1 <= g < |hashes| && g in exists_ && g in valid
      ensures hashes[g] == Sub(K, m', depth + Dep(g), Pre(p, g))
    {
      DepInNode(g, bits);
      SubOtherPage(K, m, m', pi, depth + Dep(g), Pre(p, g));
    }
  }

  /** More indices known to exist and fewer valid ones never make the hashes wrong. */
  lemma HashesFewerValid(K: Hash, m: Flat, dirty: set<nat>, depth: nat, bits: nat, p: nat,
                         e: set<nat>, v: set<nat>, e': set<nat>, v': set<nat>, hashes: seq<Bytes32>)
    requires e <= e' && v' <= v && v' * e' <= e
    requires HashesOk(K, m, dirty, depth, bits, p, e, v, hashes)
    ensures HashesOk(K, m, dirty, depth, bits, p, e', v', hashes)
  {
  }

  /** No flag that is set stands above any of the n bytes from offset a on. */
  ghost predicate ChunksClear(ok: seq<bool>, a: nat, n: nat) {
    forall i, g {:trigger OnPath(g, 64 + i / 64), ok[g]} :: a <= i < a + n && 1 <= g < |ok| && ok[g] ==> !OnPath(g, 64 + i / 64)
  }

  /** The guard for writing data at offset a of a page: of the hashes that SetUnaligned leaves
      marked as valid, none stands above a byte that changes. ok are the flags of the page before
      the write, empty for a page that does not exist. */
  ghost predicate Harmless(ok: seq<bool>, before: seq<byte>, a: nat, data: seq<byte>)
    requires a + |data| <= |before| == 4096
  {
    ChangesClear(before, Spliced(before, a, data), Written(ok, a / 64))
  }

  /** A guard that does not look at the bytes. */
  ghost predicate WriteGuard(ok: seq<bool>, a: nat, n: nat) {
    ChunksClear(Written(ok, a / 64), a, n)
  }

  lemma ClearChanges(before: seq<byte>, a: nat, data: seq<byte>, ok: seq<bool>)
    requires a + |data| <= |before| == 4096 && |ok| == 128 && ChunksClear(ok, a, |data|)
    ensures ChangesClear(before, Spliced(before, a, data), ok)
  {
  }

  lemma GuardIsHarmless(ok: seq<bool>, before: seq<byte>, a: nat, data: seq<byte>)
    requires a + |data| <= |before| == 4096 && WriteGuard(ok, a, |data|)
    ensures Harmless(ok, before, a, data)
  {
    hide ChangesClear, ChunksClear, Spliced;
    ClearChanges(before, a, data, Written(ok, a / 64));
  }

  /** The guard is exact: from a sound cache, the cache is sound after the write if and only if
      the write is harmless. (The hash must not collide on what the two contents hash.) */
  lemma HarmlessIff(K: Hash, before: seq<byte>, a: nat, data: seq<byte>, cache: seq<Bytes32>, ok: seq<bool>)
    requires a + |data| <= |before| == 4096 && CacheSound(K, before, cache, ok)
    requires CollisionFree(K, PageInputs(K, before, 1) + PageInputs(K, Spliced(before, a, data), 1))
    ensures CacheSound(K, Spliced(before, a, data), cache, Written(ok, a / 64)) <==> Harmless(ok, before, a, data)
  {
    hide ChangesClear, Spliced, PageInputs, CollisionFree, PageNode, OnPath;
    var after := Spliced(before, a, data);
    WriteSoundIff(K, before, after, cache, Written(ok, a / 64), PageInputs(K, before, 1) + PageInputs(K, after, 1));
  }

  /** The guard holds for a page with a valid root hash when the write stays in one chunk. */
  lemma FreshPageGuard(ok: seq<bool>, a: nat, n: nat)
    requires |ok| == 128 && ok[1] && a % 64 + n <= 64
    ensures WriteGuard(ok, a, n)
  {
    forall i | a <= i < a + n ensures i / 64 == a / 64 {
    }
  }

  /** The guard is needed. A page of zeros is hashed completely; then one byte is written in
      each of its first two chunks. The second write finds no valid root hash, so the hash
      of its chunk stays marked as valid and is wrong. */
  lemma TwoWritesGoStale(K: Hash, zeros: seq<byte>, cache: seq<Bytes32>, ok: seq<bool>)
    requires |zeros| == 4096 && (forall i :: 0 <= i < 4096 ==> zeros[i] == 0)
    requires CacheSound(K, zeros, cache, ok) && (forall g :: 0 <= g < 128 ==> ok[g])
    requires K(zeros[64..128]) != K([1] + zeros[65..128])
    ensures var ok1 := ForgetIfValid(ok, 0, 0, 0);
      var ok2 := ForgetIfValid(ok1, 0, 0, 1);
      CacheSound(K, zeros[0 := 1], cache, ok1) && !CacheSound(K, zeros[0 := 1][64 := 1], cache, ok2)
  {
    var ok1 := ForgetIfValid(ok, 0, 0, 0);
    OnPathTop(64);
    WriteKeepsSound(K, zeros, zeros[0 := 1], cache, ok1);
    var data := zeros[0 := 1][64 := 1];
    BottomNode(K, zeros, 65);
    BottomNode(K, data, 65);
    assert data[64..128] == [1] + zeros[65..128];
    assert ok1[65] by {
      assert OnPath(65, 64) == OnPath(65, 32) == OnPath(65, 16) == OnPath(65, 8);
      assert OnPath(65, 8) == OnPath(65, 4) == OnPath(65, 2) == OnPath(65, 1);
    }
  }

  /** Valid flags of one page after the path of a 64-byte chunk was cleared. */
  ghost function Forget(ok: seq<bool>, chunk: nat): seq<bool> {
    seq(|ok|, g requires 0 <= g < |ok| => ok[g] && !(g >= 1 && OnPath(g, 64 + chunk)))
  }

  /** The flags of a new page. */
  ghost function Blank(): seq<bool> {
    seq(128, _ => false)
  }

  /** What SetUnaligned does to the flags of the page it writes to: a page that did not exist has
      none set; a valid root hash and the path of the chunk are forgotten; where the root hash
      is not valid, the flags stay as they are. */
  ghost function Written(ok: seq<bool>, chunk: nat): (r: seq<bool>)
    ensures |r| == 128
  {
    if |ok| != 128 then Blank() else if ok[1] then Forget(ok, chunk) else ok
  }

  /** The same for any page qi. */
  ghost function WrittenAt(ok: seq<bool>, qi: nat, pi: nat, chunk: nat): seq<bool> {
    if qi == pi then Written(ok, chunk) else ok
  }

  /** The flags of page qi after a write of n bytes at addr. */
  ghost function FlagsAfter(ok: seq<bool>, qi: nat, addr: u64, n: nat): seq<bool> {
    if qi == addr / 4096 then Written(ok, addr % 4096 / 64)
    else if qi in Touched(addr, n) then Written(ok, 0)
    else ok
  }

  /** What Memory.Invalidate of a chunk of page pi does to the flags of page qi: the source
      leaves the page alone when its root hash is not valid. */
  ghost function ForgetIfValid(ok: seq<bool>, qi: nat, pi: nat, chunk: nat): seq<bool> {
    if qi == pi && |ok| == 128 && ok[1] then Forget(ok, chunk) else ok
  }

  lemma NotAbove(pis: set<nat>, qi: nat, bf: seq<nat>, l: nat, depth: nat, p: nat)
    requires Factors(bf) && l < 6 && qi in pis && NoneBelow(pis, depth, p)
    ensures depth == DepthOf(bf, l) ==> PathPrefix(bf, qi, l) != p
  {
  }

  lemma TopIndex(p: nat)
    ensures Dep(1) == 0 && Pre(p, 1) == p
  {
  }

  lemma NoneBelowFewer(pis: set<nat>, pis': set<nat>, d: nat, p: nat)
    requires pis' <= pis && NoneBelow(pis, d, p)
    ensures NoneBelow(pis', d, p)
  {
  }

  /** Clean children make a clean parent. */
  lemma NoneBelowParent(pis: set<nat>, d: nat, p: nat)
    requires d < 52 && NoneBelow(pis, d + 1, 2 * p) && NoneBelow(pis, d + 1, 2 * p + 1)
    ensures NoneBelow(pis, d, p)
  {
    forall pi | pi in pis ensures PageAnc(pi, d) != p {
      PageAncParent(pi, d);
    }
  }

  lemma NoneBelowUp(pis: set<nat>, d: nat, i: nat)
    requires 0 < d <= 52 && NoneBelow(pis, d, LeafAnc(i, d)) && NoneBelow(pis, d, Sibling(LeafAnc(i, d)))
    ensures NoneBelow(pis, d - 1, LeafAnc(i, d - 1))
  {
    hide NoneBelow, LeafAnc;
    LeafAncParent(i, d - 1);
    NoneBelowParent(pis, d - 1, LeafAnc(i, d - 1));
  }

  /** words has the siblings from start to k filled in, and is unchanged below start. */
  ghost predicate PartialBranch(words: seq<Bytes32>, before: seq<Bytes32>, branch: seq<Bytes32>, start: nat, k: nat) {
    && |words| == |before| == |branch| == 60 && start <= k <= 60
    && words[..start] == before[..start] && words[start..k] == branch[start..k]
  }

  lemma NothingFilled(words: seq<Bytes32>, branch: seq<Bytes32>, start: nat)
    requires |words| == |branch| == 60 && start <= 60
    ensures PartialBranch(words, words, branch, start, start)
  {
  }

  lemma PartialBranchStep(words: seq<Bytes32>, before: seq<Bytes32>, branch: seq<Bytes32>, start: nat, k: nat)
    requires PartialBranch(words, before, branch, start, k) && k < 60
    ensures PartialBranch(words[k := branch[k]], before, branch, start, k + 1)
  {
    var words' := words[k := branch[k]];
    assert words'[..start] == words[..start];
    assert words'[start..k + 1] == words[start..k] + [branch[k]];
    assert branch[start..k + 1] == branch[start..k] + [branch[k]];
  }

  method CopyBytes(data: seq<byte>, to: array<byte>, at: nat)
    requires at + |data| <= to.Length
    modifies to
    ensures to[..] == Spliced(old(to[..]), at, data)
  {
    for k := 0 to |data|
      invariant forall j :: 0 <= j < k ==> to[at + j] == data[j]
      invariant forall j :: 0 <= j < to.Length && !(at <= j < at + k) ==> to[j] == old(to[j])
    {
      to[at + k] := data[k];
    }
    assert forall j :: 0 <= j < |data| ==> to[..][at + j] == data[j];
  }

  lemma PartialBranchAt(words: seq<Bytes32>, before: seq<Bytes32>, branch: seq<Bytes32>, start: nat, k: nat, j: nat)
    requires PartialBranch(words, before, branch, start, k) && j < k
    requires forall i :: 0 <= i < start ==> before[i] == branch[i]
    ensures words[j] == branch[j]
  {
    if j < start {
      assert words[j] == words[..start][j] == before[..start][j];
    } else {
      assert words[j] == words[start..k][j - start] == branch[start..k][j - start];
    }
  }

  method CopyWords(words: seq<Bytes32>, to: array<Bytes32>)
    requires |words| <= to.Length
    modifies to
    ensures to[..|words|] == words
    ensures to[|words|..] == old(to[|words|..])
  {
    for k := 0 to |words|
      invariant forall j :: 0 <= j < k ==> to[j] == words[j]
      invariant forall j :: |words| <= j < to.Length ==> to[j] == old(to[j])
    {
      to[k] := words[k];
    }
  }

  /** The hashes of all-zero subtrees, by level. */
  method ZeroHashes(K: Hash) returns (out: seq<Bytes32>)
    ensures |out| == 256
    ensures forall i: nat :: i < 256 ==> out[i] == ZeroHash(K, i)
  {
    out := [ZERO32];
    for i := 1 to 256
      invariant |out| == i
      invariant forall j: nat :: j < i ==> out[j] == ZeroHash(K, j)
    {
      out := out + [HashPair(K, out[i - 1], out[i - 1])];
    }
  }

  class Memory {
    const K: Hash
    const zeroHashes: seq<Bytes32>
    const branchFactors: seq<nat>
    const radix: RadixNode
    var pages: map<nat, CachedPage>
    // the pages looked up last, most recent first
    var lastPageKey0: nat
    var lastPageKey1: nat
    var lastPage0: CachedPage?
    var lastPage1: CachedPage?
    /** All nodes of the trie, by level and address bits above them. */
    ghost var tree: map<(nat, nat), RadixNode>
    ghost var nodes: set<RadixNode>
    // the arrays of the pages
    ghost var dataArrays: set<array<byte>>
    ghost var cacheArrays: set<array<Bytes32>>
    ghost var okArrays: set<array<bool>>
    /** The bytes this memory stands for. */
    ghost var flat: Flat

    // ----- what the structure always satisfies -----

    ghost predicate TableOk()
      reads this`pages, this`dataArrays, this`cacheArrays, this`okArrays
    {
      && Factors(branchFactors)
      && |zeroHashes| == 256 && (forall i: nat :: i < 256 ==> zeroHashes[i] == ZeroHash(K, i))
      && (forall pi :: pi in pages ==> pi < PAGES && pages[pi].Valid())
      && (forall pi :: pi in pages ==> pages[pi].Data in dataArrays)
      && (forall pi :: pi in pages ==> pages[pi].Cache in cacheArrays && pages[pi].Ok in okArrays)
      && (forall i, j :: i in pages && j in pages && i != j ==>
            pages[i].Data != pages[j].Data && pages[i].Cache != pages[j].Cache && pages[i].Ok != pages[j].Ok)
    }

    /** The two most recently used pages, if any. */
    ghost predicate LookupOk()
      reads this`pages, this`lastPageKey0, this`lastPageKey1, this`lastPage0, this`lastPage1
    {
      && (lastPageKey0 == NO_KEY || (lastPageKey0 in pages && lastPage0 == pages[lastPageKey0]))
      && (lastPageKey1 == NO_KEY || (lastPageKey1 in pages && lastPage1 == pages[lastPageKey1]))
    }

    /** Node n is linked correctly, and marks a path to every page of pis below it. */
    ghost predicate NodeOk(n: RadixNode, pis: set<nat>)
      requires Factors(branchFactors)
      reads this`tree, this`nodes, this`pages, n`Children, n`HashExists
    {
      && n.Level < 6 && n.Bits == branchFactors[n.Level] && n.Depth == DepthOf(branchFactors, n.Level)
      && ChildrenOk(tree, pages.Keys, n.Level, n.Bits, n.Prefix, n.Children)
      && ExistsOk(pis, n.Depth, n.Bits, n.Prefix, n.HashExists)
    }

    ghost predicate NodesOk(pis: set<nat>)
      requires Factors(branchFactors)
      reads this`tree, this`nodes, this`pages, nodes`Children, nodes`HashExists
    {
      && (0, 0) in tree && tree[(0, 0)] == radix
      && (forall k :: k in tree ==> tree[k] in nodes && tree[k].Level == k.0 && tree[k].Prefix == k.1)
      && (forall k :: k in tree ==> NodeOk(tree[k], pis))
    }

    /** The trie leads onwards from level l to page pi. */
    ghost predicate StepOk(pi: nat, l: nat)
      requires Factors(branchFactors) && l < 6
      reads this`tree, this`nodes, nodes`Children
    {
      var k := (l, PathPrefix(branchFactors, pi, l));
      k in tree && tree[k] in nodes && |tree[k].Children| == Pow2(branchFactors[l]) && tree[k].Children[Branch(branchFactors, pi, l)] != Nil
    }

    ghost predicate StepsOk(pis: set<nat>)
      requires Factors(branchFactors)
      reads this`tree, this`nodes, nodes`Children
    {
      forall pi, l: nat :: pi in pis && l < 6 ==> StepOk(pi, l)
    }

    ghost predicate TreeOk()
      requires Factors(branchFactors)
      reads this`tree, this`nodes, this`pages, nodes`Children, nodes`HashExists
    {
      NodesOk(pages.Keys) && StepsOk(pages.Keys)
    }

    ghost predicate FlatOk()
      requires TableOk()
      reads this`pages, this`flat, this`dataArrays, this`cacheArrays, this`okArrays, dataArrays
    {
      && (forall pi :: pi in pages ==> PageData(flat, pi) == pages[pi].Data[..])
      && (forall x :: 0 <= x < TWO64 && x / 4096 !in pages ==> flat[x] == 0)
    }

    /** The structural invariant: kept by every operation. */
    ghost predicate Shape()
      reads this`pages, this`tree, this`nodes, this`flat, this`dataArrays, this`cacheArrays, this`okArrays
      reads nodes`Children, nodes`HashExists, dataArrays
    {
      TableOk() && FlatOk() && TreeOk()
    }

    // ----- what the caches satisfy when they are coherent -----

    /** The pages whose root hash is not valid. */
    ghost function Dirty(): set<nat>
      reads this`pages, this`okArrays, okArrays
    {
      set pi | pi in pages && !(pages[pi].Ok.Length == 128 && pages[pi].Ok in okArrays && pages[pi].Ok[1])
    }

    ghost predicate PagesSound()
      reads this`pages, this`dataArrays, this`cacheArrays, this`okArrays, dataArrays, cacheArrays, okArrays
    {
      TableOk() && forall pi :: pi in pages ==> pages[pi].Sound(K)
    }

    ghost predicate Hashed(n: RadixNode, m: Flat, dirty: set<nat>)
      reads n`HashExists, n`HashValid, n`Hashes
    {
      HashesOk(K, m, dirty, n.Depth, n.Bits, n.Prefix, n.HashExists, n.HashValid, n.Hashes)
    }

    ghost predicate AllHashed(m: Flat, dirty: set<nat>)
      reads this`tree, this`nodes, nodes`HashExists, nodes`HashValid, nodes`Hashes
    {
      forall k :: k in tree ==> tree[k] in nodes && Hashed(tree[k], m, dirty)
    }

    /** Every cached hash that is marked valid is the hash of the present memory. Operations
        that only compute hashes cannot break Shape, and say only this. */
    ghost predicate Coherent()
      reads this`pages, this`tree, this`nodes, this`flat, this`dataArrays, this`cacheArrays, this`okArrays
      reads nodes, dataArrays, cacheArrays, okArrays
    {
      PagesSound() && AllHashed(flat, Dirty())
    }

    /** Nodes and arrays are only ever added, and those added are new. */
    twostate predicate Grew()
      reads this
    {
      && nodes >= old(nodes) && fresh(nodes - old(nodes))
      && dataArrays >= old(dataArrays) && fresh(dataArrays - old(dataArrays))
      && cacheArrays >= old(cacheArrays) && fresh(cacheArrays - old(cacheArrays))
      && okArrays >= old(okArrays) && fresh(okArrays - old(okArrays))
    }

    ghost predicate IsNode(n: RadixNode)
      reads this`tree, this`nodes
    {
      (n.Level, n.Prefix) in tree && tree[(n.Level, n.Prefix)] == n
    }

    /** NewMemory: no pages, only the root node of the trie. */
    constructor (K: Hash)
      ensures Shape() && Coherent() && LookupOk() && this.K == K && branchFactors == [16, 16, 6, 6, 4, 4]
      ensures flat == EMPTY && pages == map[]
      ensures fresh(nodes)
      ensures lastPageKey0 == NO_KEY && lastPageKey1 == NO_KEY
    {
      hide Shape, Coherent, LookupOk, ZeroHash, Pow2, DepthOf, Factors;
      this.K := K;
      var z := ZeroHashes(K);
      zeroHashes := z;
      DefaultFactors();
      branchFactors := [16, 16, 6, 6, 4, 4];
      var root := new RadixNode(0, 16, 0, 0);
      radix := root;
      pages := map[];
      lastPageKey0, lastPageKey1 := NO_KEY, NO_KEY;
      lastPage0, lastPage1 := null, null;
      flat := EMPTY;
      dataArrays, cacheArrays, okArrays := {}, {}, {};
      new;
      tree := map[(0, 0) := radix];
      nodes := {radix};
      EmptyOk();
    }

    lemma EmptyOk()
      requires Factors(branchFactors) && |zeroHashes| == 256 && (forall i: nat :: i < 256 ==> zeroHashes[i] == ZeroHash(K, i))
      requires pages == map[] && flat == EMPTY && tree == map[(0, 0) := radix] && nodes == {radix}
      requires radix.Level == 0 && radix.Prefix == 0 && radix.Depth == 0 && radix.Bits == branchFactors[0]
      requires |radix.Children| == |radix.Hashes| == radix.Size() && radix.HashValid == {}
      requires forall i :: 0 <= i < radix.Size() ==> radix.Children[i] == Nil
      requires lastPageKey0 == NO_KEY && lastPageKey1 == NO_KEY
      ensures Shape() && Coherent() && LookupOk()
    {
      hide ZeroHash, Sub, PageAnc, Dep, Pre, Pow2, PageNode, PageData;
      assert DepthOf(branchFactors, 0) == 0;
      assert NodeOk(radix, pages.Keys);
    }

    // ----- consequences -----

    /** Where no page is, every subtree hash is the zero hash of its height. */
    lemma ZeroUnder(d: nat, q: nat, D: nat, p: nat)
      requires TableOk() && FlatOk() && D <= 52 && D <= d <= 59
      requires NoneBelow(pages.Keys, D, p) && Shr(q, d - D) == p
      ensures Sub(K, flat, d, q) == ZeroHash(K, 59 - d)
    {
      forall i: nat | LeafAnc(i, d) == q ensures Leaf(flat, i) == ZERO32 {
        ShrShr(i, 59 - d, d - D);
        LeafInPage(i, D);
        if i < LEAVES {
          assert i / 128 !in pages;
          assert forall x :: 4096 * (i / 128) <= x < 4096 * (i / 128) + 4096 ==> x / 4096 == i / 128;
          ZeroLeaf(flat, i);
        }
      }
      SubZero(K, flat, d, q);
    }

    lemma ZeroBelow(d: nat, p: nat)
      requires TableOk() && FlatOk() && d <= 52 && NoneBelow(pages.Keys, d, p)
      ensures Sub(K, flat, d, p) == ZeroHash(K, 59 - d)
    {
      ZeroUnder(d, p, d, p);
    }

    lemma NilBelow(n: RadixNode, i: nat, pis: set<nat>)
      requires Factors(branchFactors) && StepsOk(pis) && IsNode(n) && n.Level < 6
      requires i < |n.Children| == n.Size() && n.Bits == branchFactors[n.Level] && n.Children[i] == Nil
      ensures NoneBelow(pis, DepthOf(branchFactors, n.Level + 1), Shl(n.Prefix, n.Bits) + i)
    {
      forall pi | pi in pis
        ensures PageAnc(pi, DepthOf(branchFactors, n.Level + 1)) != Shl(n.Prefix, n.Bits) + i
      {
        assert StepOk(pi, n.Level);
        BranchAt(branchFactors, pi, n.Level, n.Prefix, i);
      }
    }

    /** What the structure says about one node. */
    lemma NodeFacts(n: RadixNode)
      requires Shape() && IsNode(n)
      ensures Factors(branchFactors) && n.Level < 6 && n.Bits == branchFactors[n.Level]
      ensures n.Depth == DepthOf(branchFactors, n.Level)
      ensures n.Depth + n.Bits == DepthOf(branchFactors, n.Level + 1) <= 52
      ensures |n.Children| == n.Size() && n in nodes
    {
      DepthStep(branchFactors, n.Level);
    }

    // ----- hashing -----

    /** Filling page caches disturbs nothing else. */
    twostate lemma PagesHashed()
      requires old(Shape() && Coherent())
      requires unchanged(this) && unchanged(nodes) && unchanged(dataArrays)
      requires PagesSound() && Dirty() <= old(Dirty())
      ensures Coherent()
    {
      forall k | k in tree ensures Hashed(tree[k], flat, Dirty()) {
        var n := tree[k];
        assert old(Hashed(n, flat, Dirty()));
        HashesFewerDirty(K, flat, old(Dirty()), Dirty(), n.Depth, n.Bits, n.Prefix, n.HashExists, n.HashValid, n.Hashes);
      }
    }

    /** Memory.MerkleizeNode: the hash of a page. The zero-hash branch of the source is
        unreachable, because the trie leads here only for pages that exist. */
    method MerkleizePage(pageIndex: nat) returns (r: Bytes32)
      requires Shape() && Coherent() && pageIndex in pages
      modifies cacheArrays, okArrays
      ensures Coherent()
      ensures r == Sub(K, flat, 52, pageIndex)
      ensures Dirty() <= old(Dirty()) - {pageIndex}
    {
      hide TreeOk, HashesOk, PageNode, Sub;
      var p := pages[pageIndex];
      PageIsSub(K, flat, pageIndex, 1);
      r := p.MerkleRoot(K, PageData(flat, pageIndex));
      assert p.Ok[1];
      assert PagesSound();
      PagesHashed();
    }

    /** Hashes a pair and remembers the result. */
    method StorePair(n: RadixNode, g: nat, left: Bytes32, right: Bytes32, ghost d: nat, ghost p: nat) returns (r: Bytes32)
      requires Coherent() && IsNode(n) && 1 <= g < n.Size()
      requires d == n.Depth + Dep(g) < 52 && p == Pre(n.Prefix, g)
      requires left == Sub(K, flat, d + 1, 2 * p) && NoneBelow(Dirty(), d + 1, 2 * p)
      requires right == Sub(K, flat, d + 1, 2 * p + 1) && NoneBelow(Dirty(), d + 1, 2 * p + 1)
      modifies n`Hashes, n`HashValid
      ensures Coherent()
      ensures r == Sub(K, flat, d, p) && NoneBelow(Dirty(), d, p)
    {
      hide Sub, NoneBelow, Dep, Pre, PagesSound;
      assert |n.Hashes| == n.Size();
      r := HashPair(K, left, right);
      SubStep(K, flat, d, p);
      NoneBelowParent(Dirty(), d, p);
      HashesStore(K, flat, Dirty(), n.Depth, n.Bits, n.Prefix, n.HashExists, n.HashValid, n.Hashes, g, r);
      n.Hashes := n.Hashes[g := r];
      n.HashValid := n.HashValid + {g};
    }

    /** The hash of index gindex of node n, which stands at depth d with path bits p.
        Values found in the cache are returned, missing ones are computed from both
        children and stored. */
    method MerkleizeNode(n: RadixNode, addr: nat, gindex: nat, ghost d: nat, ghost p: nat) returns (r: Bytes32)
      requires Shape() && Coherent() && IsNode(n) && addr == n.Prefix
      requires 1 <= gindex < 2 * n.Size()
      requires d == n.Depth + Dep(gindex) && p == Pre(n.Prefix, gindex)
      modifies nodes`Hashes, nodes`HashValid, cacheArrays, okArrays
      ensures Coherent()
      ensures r == Sub(K, flat, d, p)
      ensures NoneBelow(Dirty(), d, p) && Dirty() <= old(Dirty())
      decreases 6 - n.Level, 2 * n.Size() - gindex, 1
    {
      if gindex >= n.Size() {
        r := MerkleizeChild(n, addr, gindex, d, p);
      } else {
        DepthStep(branchFactors, n.Level);
        DepInNode(gindex, n.Bits);
        if gindex in n.HashExists {
          if gindex in n.HashValid {
            r := n.Hashes[gindex];
          } else {
            r := MerkleizePair(n, addr, gindex, d, p);
          }
        } else {
          ZeroBelow(d, p);
          r := zeroHashes[59 - (Dep(gindex) + n.Depth)];
        }
      }
    }

    /** The bottom row of a node: its children belong to the next level. */
    method MerkleizeChild(n: RadixNode, addr: nat, gindex: nat, ghost d: nat, ghost p: nat) returns (r: Bytes32)
      requires Shape() && Coherent() && IsNode(n) && addr == n.Prefix
      requires n.Size() <= gindex < 2 * n.Size()
      requires d == n.Depth + Dep(gindex) && p == Pre(n.Prefix, gindex)
      modifies nodes`Hashes, nodes`HashValid, cacheArrays, okArrays
      ensures Coherent()
      ensures r == Sub(K, flat, d, p)
      ensures NoneBelow(Dirty(), d, p) && Dirty() <= old(Dirty())
      decreases 6 - n.Level, 2 * n.Size() - gindex, 0
    {
      hide *;
      ChildFacts(n, gindex, d, p);
      var childIndex := gindex - n.Size();
      match n.Children[childIndex]
      case Nil =>
        r := zeroHashes[59 - (n.Bits + n.Depth)];
      case Inner(c) =>
        r := MerkleizeNode(c, Shl(addr, n.Bits) + childIndex, 1, d, p);
      case ToMemory =>
        r := MerkleizePage(Shl(addr, n.Bits) + childIndex);
    }

    /** What hangs below a bottom-row index. */
    lemma ChildFacts(n: RadixNode, gindex: nat, d: nat, p: nat)
      requires Shape() && IsNode(n) && n.Size() <= gindex < 2 * n.Size()
      requires d == n.Depth + Dep(gindex) && p == Pre(n.Prefix, gindex)
      ensures d == n.Depth + n.Bits <= 52 && 1 < 2 * Pow2(branchFactors[n.Level])
      ensures p == Shl(n.Prefix, n.Bits) + gindex - n.Size() && gindex - n.Size() < |n.Children| && n.Level < 6
      ensures match n.Children[gindex - n.Size()]
        case Nil => |zeroHashes| == 256 && zeroHashes[59 - d] == Sub(K, flat, d, p) && NoneBelow(Dirty(), d, p)
        case Inner(c) => IsNode(c) && c.Level == n.Level + 1 && 1 < 2 * c.Size()
          && c.Prefix == p && d == c.Depth + Dep(1) && p == Pre(p, 1)
        case ToMemory => d == 52 && p in pages && (forall s: set<nat> :: p !in s ==> NoneBelow(s, d, p))
    {
      hide Sub, Dep, Pre, FlatOk, PageNode, ExistsOk;
      NodeFacts(n);
      TopIndex(p);
      ChildPlace(n.Bits, n.Prefix, gindex);
      var i := gindex - n.Size();
      match n.Children[i] {
        case Nil =>
          NilBelow(n, i, pages.Keys);
          ZeroBelow(d, p);
        case Inner(c) =>
          NodeFacts(c);
        case ToMemory =>
          assert n.Level == 5;
      }
    }

    /** The upper rows of a node: hash both halves and remember the result. */
    method MerkleizePair(n: RadixNode, addr: nat, gindex: nat, ghost d: nat, ghost p: nat) returns (r: Bytes32)
      requires Shape() && Coherent() && IsNode(n) && addr == n.Prefix
      requires 1 <= gindex < n.Size()
      requires d == n.Depth + Dep(gindex) && p == Pre(n.Prefix, gindex)
      modifies nodes`Hashes, nodes`HashValid, cacheArrays, okArrays
      ensures Coherent()
      ensures r == Sub(K, flat, d, p)
      ensures NoneBelow(Dirty(), d, p) && Dirty() <= old(Dirty())
      decreases 6 - n.Level, 2 * n.Size() - gindex, 0
    {
      hide Shape, Coherent, Sub, NoneBelow, Pow2, Dep, Pre;
      NodeFacts(n);
      DepInNode(gindex, n.Bits);
      var l, r' := 2 * gindex, 2 * gindex + 1;
      BelowPlace(n.Prefix, gindex);
      assert d + 1 == n.Depth + Dep(l) == n.Depth + Dep(r') && 2 * p == Pre(n.Prefix, l) && 2 * p + 1 == Pre(n.Prefix, r');
      var left := MerkleizeNode(n, addr, l, d + 1, 2 * p);
      ghost var dirty := Dirty();
      var right := MerkleizeNode(n, addr, r', d + 1, 2 * p + 1);
      NoneBelowFewer(dirty, Dirty(), d + 1, 2 * p);
      r := StorePair(n, gindex, left, right, d, p);
    }

    method MerkleRoot() returns (r: Bytes32)
      requires Shape() && Coherent()
      modifies nodes`Hashes, nodes`HashValid, cacheArrays, okArrays
      ensures Coherent()
      ensures r == Root(K, flat)
      ensures Dirty() == {}
    {
      r := MerkleizeNode(radix, 0, 1, 0, 0);
      forall pi | pi in pages ensures PageAnc(pi, 0) == 0 {
        PathTop(pi);
      }
    }

    // ----- lookup -----

    /** pageLookup: the two-entry cache in front of the page table never changes the answer. */
    method PageLookup(pageIndex: nat) returns (p: CachedPage?)
      requires LookupOk() && pageIndex < PAGES
      modifies this`lastPageKey0, this`lastPageKey1, this`lastPage0, this`lastPage1
      ensures LookupOk()
      ensures p != null <==> pageIndex in pages
      ensures p != null ==> p == pages[pageIndex]
      ensures Shape() == old(Shape()) && Coherent() == old(Coherent()) && Dirty() == old(Dirty())
      ensures forall qi :: OkOf(qi) == old(OkOf(qi))
      ensures pageIndex !in pages ==> lastPageKey0 == old(lastPageKey0) && lastPageKey1 == old(lastPageKey1)
    {
      hide Shape, Coherent;
      if pageIndex == lastPageKey0 {
        return lastPage0;
      }
      if pageIndex == lastPageKey1 {
        return lastPage1;
      }
      if pageIndex in pages {
        p := pages[pageIndex];
        lastPageKey1, lastPage1 := lastPageKey0, lastPage0;
        lastPageKey0, lastPage0 := pageIndex, p;
      } else {
        p := null;
      }
    }
    // ----- branches -----

    lemma RootFacts(addr: u64)
      requires Shape()
      ensures IsNode(radix) && radix.Depth == 0 && Factors(branchFactors) && radix.Level < 6
      ensures radix.Prefix == PathPrefix(branchFactors, addr / 4096, radix.Level)
    {
      PathTop(addr / 4096);
    }

    /** fillZeroHashRange for a branch that leaves the trie at depth D. */
    method FillZeroHashes(proofs: array<Bytes32>, end: nat, ghost i: nat)
      requires Shape() && 8 <= end <= 60 && proofs.Length == 60 && i < LEAVES
      requires NoneBelow(pages.Keys, 60 - end, LeafAnc(i, 60 - end))
      modifies proofs
      ensures forall j :: 0 <= j < end ==> proofs[j] == ProofOf(K, flat, i)[j]
    {
      hide *;
      ghost var D, branch := 60 - end, ProofOf(K, flat, i);
      FirstZero(i, D);
      proofs[0] := zeroHashes[0];
      for k := 1 to end
        invariant forall j :: 0 <= j < k ==> proofs[j] == branch[j]
      {
        ZeroWord(i, k, D);
        proofs[k] := zeroHashes[k - 1];
      }
    }

    /** The words of the branch of a leaf under an empty tree node are zero hashes. */
    lemma ZeroWord(i: nat, k: nat, D: nat)
      requires Shape() && i < LEAVES && D <= 52 && NoneBelow(pages.Keys, D, LeafAnc(i, D)) && 0 < k < 60 - D
      ensures |zeroHashes| == 256 && |ProofOf(K, flat, i)| == 60 && ProofOf(K, flat, i)[k] == zeroHashes[k - 1]
    {
      ProofOfAt(K, flat, i, k);
      SiblingAbove(Shr(i, k - 1), 60 - k - D);
      ShrShr(i, k - 1, 60 - k - D);
      ZeroUnder(60 - k, Sibling(Shr(i, k - 1)), D, LeafAnc(i, D));
    }

    lemma FirstZero(i: nat, D: nat)
      requires Shape() && i < LEAVES && D <= 52 && NoneBelow(pages.Keys, D, LeafAnc(i, D))
      ensures |zeroHashes| == 256 && |ProofOf(K, flat, i)| == 60 && ProofOf(K, flat, i)[0] == zeroHashes[0]
    {
      ZeroUnder(59, i, D, LeafAnc(i, D));
      ProofOfAt(K, flat, i, 0);
    }

    method CachedPageProof(addr: u64) returns (words: seq<Bytes32>)
      requires Shape() && Coherent() && addr / 4096 in pages
      modifies cacheArrays, okArrays
      ensures Coherent() && addr / 4096 !in Dirty() && Dirty() <= old(Dirty())
      ensures |words| == 8
      ensures words == [PageNode(K, PageData(flat, addr / 4096), 128 + addr % 4096 / 32)]
                     + PageSiblings(K, PageData(flat, addr / 4096), 128 + addr % 4096 / 32)
    {
      hide TreeOk, HashesOk, PageNode, PageSiblings;
      var p := pages[addr / 4096];
      words := p.GenerateProof(K, addr);
      assert p.Ok[1];
      PagesHashed();
    }

    /** Memory.GenerateProof: the part of a branch inside a page. */
    method GeneratePageProof(addr: u64, proofs: array<Bytes32>)
      requires Shape() && Coherent() && addr / 4096 in pages && proofs.Length == 60 && proofs !in cacheArrays
      modifies cacheArrays, okArrays, proofs
      ensures Coherent() && addr / 4096 !in Dirty() && Dirty() <= old(Dirty())
      ensures forall j :: 0 <= j < 8 ==> proofs[j] == ProofOf(K, flat, addr / 32)[j]
    {
      hide Shape, Coherent, PageNode, PageSiblings, ProofOf, ProofWord;
      var words := CachedPageProof(addr);
      ghost var i := addr / 32;
      assert i / 128 == addr / 4096 && i % 128 == addr % 4096 / 32;
      forall j | 0 <= j < 8 ensures words[j] == ProofOf(K, flat, i)[j] {
        PageProofWords(K, flat, i, j);
        ProofOfAt(K, flat, i, j);
      }
      CopyWords(words, proofs);
      assert forall j :: 0 <= j < 8 ==> proofs[j] == proofs[..8][j];
    }

    /** Memory.MerkleProof and encodeProofs: the branch of the leaf at addr. Its siblings cover the
        rest of the memory: afterwards every page has a valid root hash. */
    method MerkleProof(addr: u64) returns (branch: seq<Bytes32>)
      requires Shape() && Coherent()
      modifies nodes`Hashes, nodes`HashValid, cacheArrays, okArrays
      ensures Coherent() && Dirty() == {}
      ensures branch == ProofOf(K, flat, addr / 32)
    {
      hide *;
      RootFacts(addr);
      var proofs := new Bytes32[60];
      GenerateProof(radix, addr, proofs);
      branch := proofs[..];
      NothingDirty(addr);
    }

    lemma NothingDirty(addr: u64)
      requires Shape() && NoneBelow(Dirty(), 0, LeafAnc(addr / 32, 0))
      ensures Dirty() == {}
    {
      hide Shape, TableOk;
      ShapeParts();
      LeafInPage(addr / 32, 0);
      forall pi | pi in Dirty() ensures false {
        PageFacts(pi);
        PathTop(pi);
        PathTop(addr / 4096);
      }
    }

    /** The path of addr through a node on it. */
    lemma PathFacts(n: RadixNode, addr: u64)
      requires Shape() && IsNode(n) && n.Prefix == PathPrefix(branchFactors, addr / 4096, n.Level)
      ensures n.Level < 6 && n.Depth + n.Bits == DepthOf(branchFactors, n.Level + 1) <= 52
      ensures AddressToRadixPath(addr, n.Depth, n.Bits) < |n.Children| == n.Size()
      ensures AddressPrefix(addr, n.Depth) == n.Prefix
      ensures Shl(n.Prefix, n.Bits) + AddressToRadixPath(addr, n.Depth, n.Bits)
           == PathPrefix(branchFactors, addr / 4096, n.Level + 1) == LeafAnc(addr / 32, n.Depth + n.Bits)
    {
      DepthStep(branchFactors, n.Level);
      PathSplit(branchFactors, addr / 4096, n.Level);
      PathOfAddress(branchFactors, addr, n.Level);
      assert addr / 32 / 128 == addr / 4096;
      LeafInPage(addr / 32, n.Depth + n.Bits);
    }

    /** A node adds its own siblings above what its child contributes. */
    method GenerateProof(n: RadixNode, addr: u64, proofs: array<Bytes32>)
      requires Shape() && Coherent() && IsNode(n) && n.Prefix == PathPrefix(branchFactors, addr / 4096, n.Level)
      requires proofs.Length == 60 && proofs !in cacheArrays
      modifies nodes`Hashes, nodes`HashValid, cacheArrays, okArrays, proofs
      ensures Coherent() && Dirty() <= old(Dirty())
      ensures n.Depth <= 52 && NoneBelow(Dirty(), n.Depth, LeafAnc(addr / 32, n.Depth))
      ensures forall j :: 0 <= j < 60 - n.Depth ==> proofs[j] == ProofOf(K, flat, addr / 32)[j]
      decreases 6 - n.Level, 1
    {
      hide Shape, Coherent, Sub, ProofOf, PartialBranch, PathPrefix;
      PathFacts(n, addr);
      GenerateBelow(n, addr, proofs);
      ghost var below := proofs[..];
      GenerateSiblings(n, addr, proofs);
      ghost var branch := ProofOf(K, flat, addr / 32);
      forall j | 0 <= j < 60 - n.Depth ensures proofs[j] == branch[j] {
        PartialBranchAt(proofs[..], below, branch, 60 - n.Depth - n.Bits, 60 - n.Depth, j);
      }
    }

    /** The words below node n: from the child on the path, or zero hashes. */
    method GenerateBelow(n: RadixNode, addr: u64, proofs: array<Bytes32>)
      requires Shape() && Coherent() && IsNode(n) && n.Prefix == PathPrefix(branchFactors, addr / 4096, n.Level)
      requires proofs.Length == 60 && proofs !in cacheArrays
      modifies nodes`Hashes, nodes`HashValid, cacheArrays, okArrays, proofs
      ensures Coherent() && Dirty() <= old(Dirty())
      ensures n.Depth + n.Bits <= 52 && NoneBelow(Dirty(), n.Depth + n.Bits, LeafAnc(addr / 32, n.Depth + n.Bits))
      ensures forall j :: 0 <= j < 60 - n.Depth - n.Bits ==> proofs[j] == ProofOf(K, flat, addr / 32)[j]
      decreases 6 - n.Level, 0
    {
      hide Shape, Coherent, Dirty, NoneBelow, ProofOf, PathPrefix, LeafAnc, IsNode, AddressToRadixPath, Shl, DepthOf;
      PathFacts(n, addr);
      var path := AddressToRadixPath(addr, n.Depth, n.Bits);
      BelowFacts(n, addr, path);
      match n.Children[path]
      case Nil =>
        DirtyArePages();
        NoneBelowFewer(pages.Keys, Dirty(), n.Depth + n.Bits, LeafAnc(addr / 32, n.Depth + n.Bits));
        FillZeroHashes(proofs, 60 - n.Depth - n.Bits, addr / 32);
      case Inner(c) =>
        GenerateProof(c, addr, proofs);
      case ToMemory =>
        GeneratePageProof(addr, proofs);
        OnePageBelow(addr);
    }

    lemma DirtyArePages()
      ensures Dirty() <= pages.Keys
    {
    }

    /** What lies below a node on the path of addr. */
    lemma BelowFacts(n: RadixNode, addr: u64, path: nat)
      requires Shape() && IsNode(n) && n.Prefix == PathPrefix(branchFactors, addr / 4096, n.Level)
      requires n.Level < 6 && n.Depth + n.Bits == DepthOf(branchFactors, n.Level + 1) <= 52 && path < |n.Children| == n.Size()
      requires Shl(n.Prefix, n.Bits) + path
            == PathPrefix(branchFactors, addr / 4096, n.Level + 1) == LeafAnc(addr / 32, n.Depth + n.Bits)
      ensures addr / 32 < LEAVES
      ensures match n.Children[path]
        case Nil => NoneBelow(pages.Keys, n.Depth + n.Bits, LeafAnc(addr / 32, n.Depth + n.Bits))
        case Inner(c) =>
          && IsNode(c) && c.Level == n.Level + 1 && c.Depth == n.Depth + n.Bits
          && c.Prefix == PathPrefix(branchFactors, addr / 4096, c.Level)
        case ToMemory => n.Depth + n.Bits == 52 && addr / 4096 in pages
    {
      hide NoneBelow, LeafAnc, Sub;
      if n.Children[path] == Nil {
        NilBelow(n, path, pages.Keys);
      }
      PathTop(addr / 4096);
    }

    /** A page is all that lies below its own place. */
    lemma OnePageBelow(addr: u64)
      requires Shape() && addr / 4096 !in Dirty()
      ensures NoneBelow(Dirty(), 52, LeafAnc(addr / 32, 52))
    {
      hide Shape, TableOk;
      ShapeParts();
      LeafInPage(addr / 32, 52);
      assert addr / 32 / 128 == addr / 4096;
      PathTop(addr / 4096);
      forall pi | pi in Dirty() ensures PageAnc(pi, 52) != LeafAnc(addr / 32, 52) {
        PageFacts(pi);
        PathTop(pi);
      }
    }

    /** The sibling of index idx, which lies on the path of addr inside node n. */
    method SiblingWord(n: RadixNode, addr: u64, idx: nat) returns (word: Bytes32)
      requires Shape() && Coherent() && IsNode(n) && n.Prefix == PathPrefix(branchFactors, addr / 4096, n.Level)
      requires 1 < idx < 2 * n.Size() && n.Depth + Dep(idx) <= 52
      requires Pre(n.Prefix, idx) == LeafAnc(addr / 32, n.Depth + Dep(idx))
      modifies nodes`Hashes, nodes`HashValid, cacheArrays, okArrays
      ensures Coherent() && Dirty() <= old(Dirty())
      ensures NoneBelow(Dirty(), n.Depth + Dep(idx), Sibling(LeafAnc(addr / 32, n.Depth + Dep(idx))))
      ensures word == ProofOf(K, flat, addr / 32)[60 - n.Depth - Dep(idx)]
    {
      hide Shape, Coherent, Sub, PathPrefix, Dep, Pre, Pow2, NoneBelow;
      PathFacts(n, addr);
      StepUp(n.Prefix, n.Depth, idx, addr / 32);
      SiblingInNode(idx, n.Bits);
      ghost var d := n.Depth + Dep(idx);
      ghost var q := Sibling(LeafAnc(addr / 32, d));
      ProofOfAt(K, flat, addr / 32, 60 - d);
      word := MerkleizeNode(n, AddressPrefix(addr, n.Depth), Sibling(idx), d, q);
    }

    /** Writes that sibling into its place; with it, everything below the parent is clean. */
    method PutSibling(n: RadixNode, addr: u64, idx: nat, proofs: array<Bytes32>, proofIndex: nat,
                      ghost before: seq<Bytes32>, ghost start: nat)
      requires Shape() && Coherent() && IsNode(n) && n.Prefix == PathPrefix(branchFactors, addr / 4096, n.Level)
      requires 1 < idx < 2 * n.Size() && 0 < n.Depth + Dep(idx) <= 52
      requires Pre(n.Prefix, idx) == LeafAnc(addr / 32, n.Depth + Dep(idx))
      requires proofs.Length == 60 && proofs !in cacheArrays && proofIndex == 60 - n.Depth - Dep(idx)
      requires PartialBranch(proofs[..], before, ProofOf(K, flat, addr / 32), start, proofIndex)
      requires NoneBelow(Dirty(), n.Depth + Dep(idx), LeafAnc(addr / 32, n.Depth + Dep(idx)))
      modifies nodes`Hashes, nodes`HashValid, cacheArrays, okArrays, proofs
      ensures Coherent() && Dirty() <= old(Dirty())
      ensures var d := n.Depth + Dep(idx) - 1; NoneBelow(Dirty(), d, LeafAnc(addr / 32, d))
      ensures PartialBranch(proofs[..], before, ProofOf(K, flat, addr / 32), start, proofIndex + 1)
    {
      hide *;
      ghost var d, branch, dirty := n.Depth + Dep(idx), ProofOf(K, flat, addr / 32), Dirty();
      var word := SiblingWord(n, addr, idx);
      NoneBelowFewer(dirty, Dirty(), d, LeafAnc(addr / 32, d));
      NoneBelowUp(Dirty(), d, addr / 32);
      PartialBranchStep(proofs[..], before, branch, start, proofIndex);
      proofs[proofIndex] := word;
      assert proofs[..] == old(proofs[..])[proofIndex := word];
    }

    /** One index further up the path of addr. */
    method ClimbSibling(n: RadixNode, addr: u64, idx: nat, proofs: array<Bytes32>, proofIndex: nat,
                        ghost before: seq<Bytes32>, ghost start: nat)
      requires Shape() && Coherent() && IsNode(n) && n.Prefix == PathPrefix(branchFactors, addr / 4096, n.Level)
      requires 1 < idx < 2 * n.Size() && proofs.Length == 60 && proofs !in cacheArrays
      requires n.Depth + Dep(idx) <= 52 && proofIndex == 60 - n.Depth - Dep(idx)
      requires OnBranch(n, addr, idx) && PartialBranch(proofs[..], before, ProofOf(K, flat, addr / 32), start, proofIndex)
      modifies nodes`Hashes, nodes`HashValid, cacheArrays, okArrays, proofs
      ensures Coherent() && Dirty() <= old(Dirty()) && Dep(idx / 2) == Dep(idx) - 1
      ensures OnBranch(n, addr, idx / 2)
      ensures PartialBranch(proofs[..], before, ProofOf(K, flat, addr / 32), start, proofIndex + 1)
    {
      hide PartialBranch, Shape, Coherent, Dirty, Pre, LeafAnc, NoneBelow, ProofOf, PathPrefix, IsNode;
      PutSibling(n, addr, idx, proofs, proofIndex, before, start);
      StepUp(n.Prefix, n.Depth, idx, addr / 32);
    }

    /** Index idx of node n lies on the path of addr, and nothing below it is dirty. */
    ghost predicate OnBranch(n: RadixNode, addr: u64, idx: nat)
      reads this`pages, this`okArrays, okArrays
    {
      && 1 <= idx && n.Depth + Dep(idx) <= 52 && Pre(n.Prefix, idx) == LeafAnc(addr / 32, n.Depth + Dep(idx))
      && NoneBelow(Dirty(), n.Depth + Dep(idx), LeafAnc(addr / 32, n.Depth + Dep(idx)))
    }

    /** The siblings inside node n along the path of addr. */
    method GenerateSiblings(n: RadixNode, addr: u64, proofs: array<Bytes32>)
      requires Shape() && Coherent() && IsNode(n) && n.Prefix == PathPrefix(branchFactors, addr / 4096, n.Level)
      requires proofs.Length == 60 && proofs !in cacheArrays && n.Depth + n.Bits <= 52
      requires NoneBelow(Dirty(), n.Depth + n.Bits, LeafAnc(addr / 32, n.Depth + n.Bits))
      modifies nodes`Hashes, nodes`HashValid, cacheArrays, okArrays, proofs
      ensures Coherent() && Dirty() <= old(Dirty())
      ensures NoneBelow(Dirty(), n.Depth, LeafAnc(addr / 32, n.Depth))
      ensures PartialBranch(proofs[..], old(proofs[..]), ProofOf(K, flat, addr / 32), 60 - n.Depth - n.Bits, 60 - n.Depth)
    {
      hide *;
      PathFacts(n, addr);
      var proofIndex := 60 - n.Depth - n.Bits;
      var idx := AddressToRadixPath(addr, n.Depth, n.Bits) + n.Size();
      ghost var start, branch := proofIndex, ProofOf(K, flat, addr / 32);
      BranchStarts(n, addr, idx);
      NothingFilled(proofs[..], branch, start);
      while idx > 1
        invariant Coherent() && Dirty() <= old(Dirty())
        invariant 1 <= idx < 2 * n.Size() && n.Depth + Dep(idx) <= 52 && proofIndex == 60 - n.Depth - Dep(idx)
        invariant OnBranch(n, addr, idx)
        invariant PartialBranch(proofs[..], old(proofs[..]), branch, start, proofIndex)
        decreases idx
      {
        ClimbSibling(n, addr, idx, proofs, proofIndex, old(proofs[..]), start);
        proofIndex := proofIndex + 1;
        idx := idx / 2;
      }
      BranchEnds(n, addr);
    }

    lemma BranchStarts(n: RadixNode, addr: u64, idx: nat)
      requires Shape() && IsNode(n) && n.Prefix == PathPrefix(branchFactors, addr / 4096, n.Level)
      requires n.Depth + n.Bits <= 52 && idx == AddressToRadixPath(addr, n.Depth, n.Bits) + n.Size()
      requires NoneBelow(Dirty(), n.Depth + n.Bits, LeafAnc(addr / 32, n.Depth + n.Bits))
      ensures 1 <= idx < 2 * n.Size() && Dep(idx) == n.Bits && OnBranch(n, addr, idx)
    {
      hide Shape, IsNode, PathPrefix, NoneBelow, LeafAnc, Dirty, Pre;
      PathFacts(n, addr);
      ChildPlace(n.Bits, n.Prefix, idx);
    }

    lemma BranchEnds(n: RadixNode, addr: u64)
      ensures Dep(1) == 0
      ensures OnBranch(n, addr, 1) ==> n.Depth <= 52 && NoneBelow(Dirty(), n.Depth, LeafAnc(addr / 32, n.Depth))
    {
    }

    lemma PageFacts(pi: nat)
      requires TableOk() && pi in pages
      ensures pi < PAGES && pages[pi].Valid()
      ensures pages[pi].Data in dataArrays && pages[pi].Cache in cacheArrays && pages[pi].Ok in okArrays
      ensures pi in Dirty() <==> !pages[pi].Ok[1]
    {
    }

    /** The nodes on the path of pi above a level are marked. */
    ghost predicate MarkedTo(pi: nat, level: nat)
      requires Factors(branchFactors) && level <= 6
      reads this`tree, this`nodes, nodes`HashExists, nodes`HashValid
    {
      forall l: nat {:trigger PathPrefix(branchFactors, pi, l)} :: l < level ==>
        var k := (l, PathPrefix(branchFactors, pi, l));
        k in tree && tree[k] in nodes && Marked(branchFactors[l], Branch(branchFactors, pi, l), tree[k].HashExists, tree[k].HashValid)
    }

    /** InvalidateNode on one node of the path of pi. */
    method MarkNode(n: RadixNode, pi: nat, ghost pis: set<nat>, ghost m: Flat, ghost dirty: set<nat>, ghost coh: bool)
      requires Factors(branchFactors) && NodesOk(pis) && IsNode(n) && (coh ==> AllHashed(m, dirty))
      requires n.Level < 6 && n.Prefix == PathPrefix(branchFactors, pi, n.Level)
      requires MarkedTo(pi, n.Level)
      modifies n`HashExists, n`HashValid
      ensures NodesOk(pis) && (coh ==> AllHashed(m, dirty))
      ensures MarkedTo(pi, n.Level + 1)
    {
      hide Sub, Dep, Pre, NoneBelow, PathPrefix, PageAnc, DepthOf, OnPath, Pow2, ChildrenOk, StepsOk;
      n.InvalidateNode(Branch(branchFactors, pi, n.Level));
      if coh {
        HashesFewerValid(K, m, dirty, n.Depth, n.Bits, n.Prefix, old(n.HashExists), old(n.HashValid),
                         n.HashExists, n.HashValid, n.Hashes);
      }
    }

    /** A marked path accounts for page pi: it may now exist, and its hash may be stale. */
    lemma PathMarked(pi: nat, pis: set<nat>, m: Flat, dirty: set<nat>, coh: bool)
      requires Factors(branchFactors) && NodesOk(pis) && (coh ==> AllHashed(m, dirty))
      requires MarkedTo(pi, 6)
      ensures NodesOk(pis + {pi}) && (coh ==> AllHashed(m, dirty + {pi}))
    {
      hide Sub, Dep, Pre, NoneBelow, PageAnc, DepthOf, OnPath, Pow2, ExistsOk, HashesOk, Marked, ChildrenOk;
      forall k | k in tree ensures NodeOk(tree[k], pis + {pi}) && (coh ==> Hashed(tree[k], m, dirty + {pi})) {
        var n := tree[k];
        DepthStep(branchFactors, n.Level);
        assert PathPrefix(branchFactors, pi, n.Level) == PageAnc(pi, n.Depth);
        MarksSpread(n.Depth, n.Bits, n.Prefix, pis, pi, n.HashExists, n.HashValid);
        if coh {
          assert Hashed(n, m, dirty);
          MarksDirty(K, m, dirty, n.Depth, n.Bits, n.Prefix, pi, n.HashExists, n.HashValid, n.Hashes);
        }
      }
    }

    /** The node after n on the path of pi. */
    lemma NextNode(n: RadixNode, pi: nat, pis: set<nat>)
      requires Factors(branchFactors) && NodesOk(pis) && IsNode(n) && n.Level < 5
      requires n.Prefix == PathPrefix(branchFactors, pi, n.Level) && StepOk(pi, n.Level)
      ensures Branch(branchFactors, pi, n.Level) < |n.Children|
      ensures n.Children[Branch(branchFactors, pi, n.Level)].Inner?
      ensures var c := n.Children[Branch(branchFactors, pi, n.Level)].node;
        IsNode(c) && c.Level == n.Level + 1 && c.Prefix == PathPrefix(branchFactors, pi, c.Level)
    {
      PathSplit(branchFactors, pi, n.Level);
    }

    /** Memory.Invalidate, the part above the page: marks every node on the path. */
    method InvalidatePath(pi: nat, ghost pis: set<nat>, ghost m: Flat, ghost dirty: set<nat>, ghost coh: bool)
      requires Factors(branchFactors) && NodesOk(pis) && (coh ==> AllHashed(m, dirty)) && pi < PAGES
      requires StepsOk({pi})
      modifies nodes`HashExists, nodes`HashValid
      ensures NodesOk(pis) && (coh ==> AllHashed(m, dirty)) && MarkedTo(pi, 6)
    {
      hide AllHashed, NodeOk, MarkedTo, PageAnc, PathPrefix;
      PathTop(pi);
      TopPrefix(branchFactors, pi);
      var n := radix;
      MarkedNone(pi);
      while true
        invariant NodesOk(pis) && (coh ==> AllHashed(m, dirty))
        invariant IsNode(n) && n.Level < 6 && n.Prefix == PathPrefix(branchFactors, pi, n.Level)
        invariant MarkedTo(pi, n.Level)
        decreases 6 - n.Level
      {
        MarkNode(n, pi, pis, m, dirty, coh);
        if n.Level == 5 {
          return;
        }
        assert StepOk(pi, n.Level);
        NextNode(n, pi, pis);
        n := n.Children[Branch(branchFactors, pi, n.Level)].node;
      }
    }

    lemma StepsOne(pi: nat)
      requires Factors(branchFactors) && StepsOk(pages.Keys) && TableOk() && pi in pages
      ensures StepsOk({pi}) && pi < PAGES
    {
    }

    lemma MarkedNone(pi: nat)
      requires Factors(branchFactors)
      ensures MarkedTo(pi, 0)
    {
    }

    /** The validity flags of page pi. */
    ghost function OkOf(pi: nat): seq<bool>
      reads this`pages, this`okArrays, okArrays
    {
      if pi in pages && pages[pi].Ok in okArrays then pages[pi].Ok[..] else []
    }

    /** Memory.Invalidate: forgets what was hashed over the 64-byte chunk of addr. */
    method Invalidate(addr: u64)
      requires Shape() && LookupOk()
      modifies this`lastPageKey0, this`lastPageKey1, this`lastPage0, this`lastPage1
      modifies okArrays, nodes`HashExists, nodes`HashValid
      ensures Shape() && LookupOk()
      ensures old(Coherent()) ==> Coherent()
      ensures forall qi :: OkOf(qi) == ForgetIfValid(old(OkOf(qi)), qi, addr / 4096, addr % 4096 / 64)
      ensures Dirty() <= old(Dirty()) + {addr / 4096}
    {
      hide *;
      PageInRange(addr);
      var pi := addr / 4096;
      var p := PageLookup(pi);
      if p != null {
        InvalidateFound(p, pi, addr % 4096);
      } else {
        AbsentOk(pi, addr % 4096 / 64);
      }
    }

    lemma AbsentOk(pi: nat, chunk: nat)
      requires pi !in pages
      ensures forall qi :: OkOf(qi) == ForgetIfValid(OkOf(qi), qi, pi, chunk)
    {
    }

    /** The source skips the page itself when its root hash is not valid, and so does this. */
    method InvalidateFound(p: CachedPage, pi: nat, pageAddr: nat)
      requires Shape() && pi in pages && pages[pi] == p && pageAddr < 4096
      modifies okArrays, nodes`HashExists, nodes`HashValid
      ensures Shape()
      ensures old(Coherent()) ==> Coherent()
      ensures forall qi :: OkOf(qi) == ForgetIfValid(old(OkOf(qi)), qi, pi, pageAddr / 64)
      ensures Dirty() <= old(Dirty()) + {pi}
    {
      hide *;
      ShapeParts();
      PageFacts(pi);
      FlagsOfPage(pi);
      ForgetIs(OkOf(pi), pi, pageAddr / 64);
      ghost var coh, dirty := Coherent(), Dirty();
      CoherentParts(coh);
      var prevValid := p.Ok[1];
      if prevValid {
        InvalidatePage(pi, pageAddr);
        InvalidatePathOf(pi, flat, dirty, coh);
        CoherentFrom(coh);
      }
    }

    lemma ForgetIs(ok: seq<bool>, pi: nat, chunk: nat)
      ensures |ok| == 128 ==> ForgetIfValid(ok, pi, pi, chunk) == if ok[1] then Forget(ok, chunk) else ok
      ensures forall qi, other :: qi != pi ==> ForgetIfValid(other, qi, pi, chunk) == other
    {
    }

    lemma CoherentParts(coh: bool)
      ensures coh && Coherent() ==> PagesSound() && AllHashed(flat, Dirty())
    {
    }

    lemma CoherentFrom(coh: bool)
      requires coh ==> PagesSound() && AllHashed(flat, Dirty())
      ensures coh ==> Coherent()
    {
    }

    method InvalidatePage(pi: nat, pageAddr: nat)
      requires Shape() && pi in pages && pageAddr < 4096
      modifies okArrays
      ensures Shape()
      ensures old(PagesSound()) ==> PagesSound()
      ensures Dirty() == old(Dirty()) + {pi}
      ensures forall m, dirty :: old(AllHashed(m, dirty)) ==> AllHashed(m, dirty)
      ensures forall qi :: OkOf(qi) == if qi == pi then Forget(old(OkOf(qi)), pageAddr / 64) else old(OkOf(qi))
    {
      hide PageNode, OnPath, ZeroHash, Factors, TreeOk;
      OnPathTop(64 + pageAddr / 64);
      pages[pi].Invalidate(pageAddr);
      assert Cached(1);
      assert pages[pi].Ok[..] == Forget(old(pages[pi].Ok[..]), pageAddr / 64);
    }

    method InvalidatePathOf(pi: nat, ghost m: Flat, ghost dirty: set<nat>, ghost coh: bool)
      requires Shape() && pi in pages && (coh ==> AllHashed(m, dirty))
      modifies nodes`HashExists, nodes`HashValid
      ensures Shape() && (coh ==> AllHashed(m, dirty + {pi}))
      ensures PagesSound() == old(PagesSound()) && Dirty() == old(Dirty())
      ensures forall qi :: OkOf(qi) == old(OkOf(qi))
    {
      hide *;
      ShapeParts();
      StepsOne(pi);
      InvalidatePath(pi, pages.Keys, m, dirty, coh);
      PathMarked(pi, pages.Keys, m, dirty, coh);
      assert pages.Keys + {pi} == pages.Keys;
      ShapeParts();
    }

    // ----- allocation -----

    ghost predicate StepsTo(pi: nat, level: nat)
      requires Factors(branchFactors) && level <= 6
      reads this`tree, this`nodes, nodes`Children
    {
      forall l: nat :: l < level ==> StepOk(pi, l)
    }

    /** A node without pages below it needs no marks. */
    lemma NewNodeOk(n: RadixNode, pis: set<nat>)
      requires Factors(branchFactors)
      requires n.Level < 6 && n.Bits == branchFactors[n.Level] && n.Depth == DepthOf(branchFactors, n.Level)
      requires |n.Children| == |n.Hashes| == n.Size() && n.HashValid == {}
      requires forall i :: 0 <= i < n.Size() ==> n.Children[i] == Nil
      requires NoneBelow(pis, n.Depth, n.Prefix)
      ensures NodeOk(n, pis)
      ensures forall m, dirty :: Hashed(n, m, dirty)
    {
      DepthStep(branchFactors, n.Level);
      forall g: nat | 1 <= g < n.Size() ensures NoneBelow(pis, n.Depth + Dep(g), Pre(n.Prefix, g)) {
        forall qi | qi in pis ensures PageAnc(qi, n.Depth + Dep(g)) != Pre(n.Prefix, g) {
          BelowNode(qi, n.Depth, n.Bits, n.Prefix, g);
        }
      }
    }

    /** AllocPage at one level: makes sure the branch of pi leads onwards. */
    method AllocChild(n: RadixNode, pi: nat, ghost pis: set<nat>, ghost m: Flat, ghost dirty: set<nat>, ghost coh: bool)
      requires Factors(branchFactors) && NodesOk(pis) && StepsOk(pis) && IsNode(n) && (coh ==> AllHashed(m, dirty))
      requires n.Level < 6 && n.Prefix == PathPrefix(branchFactors, pi, n.Level) && pi in pages && pi < PAGES
      requires MarkedTo(pi, n.Level) && StepsTo(pi, n.Level)
      modifies this`tree, this`nodes, n`Children
      ensures NodesOk(pis) && StepsOk(pis) && IsNode(n) && (coh ==> AllHashed(m, dirty))
      ensures MarkedTo(pi, n.Level) && StepsTo(pi, n.Level + 1)
      ensures nodes >= old(nodes) && fresh(nodes - old(nodes))
    {
      hide AllHashed, MarkedTo, PathPrefix, Branch, DepthOf, NoneBelow;
      var branch := Branch(branchFactors, pi, n.Level);
      PathSplit(branchFactors, pi, n.Level);
      if n.Level == 5 {
        TopPrefix(branchFactors, pi);
        PutChild(n, branch, ToMemory, pi, pis, m, dirty);
      } else if n.Children[branch] == Nil {
        NilBelow(n, branch, pis);
        NotLinked(n, branch, pis);
        AllocNode(n, branch, pi, pis, m, dirty, coh);
      }
    }

    /** Creates the missing node of the next level. */
    method AllocNode(n: RadixNode, branch: nat,
                     ghost pi: nat, ghost pis: set<nat>, ghost m: Flat, ghost dirty: set<nat>, ghost coh: bool)
      requires Factors(branchFactors) && NodesOk(pis) && StepsOk(pis) && IsNode(n) && (coh ==> AllHashed(m, dirty))
      requires n.Level < 5 && n.Prefix == PathPrefix(branchFactors, pi, n.Level)
      requires n.Bits == branchFactors[n.Level] && n.Depth == DepthOf(branchFactors, n.Level)
      requires branch == Branch(branchFactors, pi, n.Level) < |n.Children|
      requires NoneBelow(pis, DepthOf(branchFactors, n.Level + 1), Shl(n.Prefix, n.Bits) + branch)
      requires forall k, i :: k in tree && 0 <= i < |tree[k].Children| && tree[k].Children[i].Inner? ==>
        (k.0 + 1, Shl(k.1, tree[k].Bits) + i) != (n.Level + 1, Shl(n.Prefix, n.Bits) + branch)
      requires MarkedTo(pi, n.Level) && StepsTo(pi, n.Level)
      modifies this`tree, this`nodes, n`Children
      ensures NodesOk(pis) && StepsOk(pis) && IsNode(n) && (coh ==> AllHashed(m, dirty))
      ensures MarkedTo(pi, n.Level) && StepsTo(pi, n.Level + 1)
      ensures nodes >= old(nodes) && fresh(nodes - old(nodes))
    {
      DepthStep(branchFactors, n.Level);
      hide StepsOk, AllHashed, MarkedTo, StepsTo, PathPrefix, Branch, DepthOf, Hashed, NoneBelow, Pow2, NodeOk, Factors;
      var node := new RadixNode(n.Level + 1, branchFactors[n.Level + 1], n.Depth + n.Bits, Shl(n.Prefix, n.Bits) + branch);
      NewNodeOk(node, pis);
      AddNode(node, pi, pis, m, dirty, coh);
      PutChild(n, branch, Inner(node), pi, pis, m, dirty);
    }

    /** A child pointer that is nil is nobody's: no other node points to that place. */
    lemma NotLinked(n: RadixNode, branch: nat, pis: set<nat>)
      requires Factors(branchFactors) && NodesOk(pis) && IsNode(n) && branch < |n.Children| && n.Children[branch] == Nil
      ensures forall k, i :: k in tree && 0 <= i < |tree[k].Children| && tree[k].Children[i].Inner? ==>
        (k.0 + 1, Shl(k.1, tree[k].Bits) + i) != (n.Level + 1, Shl(n.Prefix, n.Bits) + branch)
    {
      forall k, i | k in tree && 0 <= i < |tree[k].Children| && tree[k].Children[i].Inner? && k.0 == n.Level
        ensures Shl(k.1, tree[k].Bits) + i != Shl(n.Prefix, n.Bits) + branch
      {
        if Shl(k.1, tree[k].Bits) + i == Shl(n.Prefix, n.Bits) + branch {
          DigitsUnique(Shl(k.1, n.Bits) + i, n.Bits, k.1, i);
          DigitsUnique(Shl(k.1, n.Bits) + i, n.Bits, n.Prefix, branch);
        }
      }
    }

    /** Takes a new node into the books; nothing leads to it yet. */
    ghost method AddNode(node: RadixNode, pi: nat, pis: set<nat>, m: Flat, dirty: set<nat>, coh: bool)
      requires Factors(branchFactors) && NodesOk(pis) && StepsOk(pis) && (coh ==> AllHashed(m, dirty))
      requires 0 < node.Level < 6
      requires MarkedTo(pi, node.Level - 1) && StepsTo(pi, node.Level - 1)
      requires forall k, i :: k in tree && 0 <= i < |tree[k].Children| && tree[k].Children[i].Inner? ==>
        (k.0 + 1, Shl(k.1, tree[k].Bits) + i) != (node.Level, node.Prefix)
      requires NodeOk(node, pis) && Hashed(node, m, dirty) && NoneBelow(pis, node.Depth, node.Prefix)
      requires forall i :: 0 <= i < |node.Children| ==> node.Children[i] == Nil
      requires forall k :: k in tree ==> tree[k] != node
      modifies this`tree, this`nodes
      ensures NodesOk(pis) && StepsOk(pis) && (coh ==> AllHashed(m, dirty)) && IsNode(node)
      ensures MarkedTo(pi, node.Level - 1) && StepsTo(pi, node.Level - 1)
      ensures tree == old(tree)[(node.Level, node.Prefix) := node] && nodes == old(nodes) + {node}
    {
      hide *;
      ghost var lv := node.Level;
      NodeParts(node, pis);
      tree := tree[(lv, node.Prefix) := node];
      nodes := nodes + {node};
      NodeAddedAside(node, lv, pi, pis);
      NodeAdded(node, lv, pis);
      if coh {
        NodeAddedHashed(node, lv, m, dirty);
      }
    }

    lemma NodeParts(n: RadixNode, pis: set<nat>)
      requires Factors(branchFactors) && NodeOk(n, pis)
      ensures n.Level < 6 && n.Bits == branchFactors[n.Level] && n.Depth == DepthOf(branchFactors, n.Level)
      ensures ExistsOk(pis, n.Depth, n.Bits, n.Prefix, n.HashExists) && |n.Children| == n.Size()
    {
    }

    twostate lemma NodeAdded(new node: RadixNode, new lv: nat, new pis: set<nat>)
      requires old(Factors(branchFactors) && NodesOk(pis)) && node.Level == lv && 0 < lv
      requires forall k :: k in old(tree) ==> old(tree)[k] != node
      requires forall k, i :: k in old(tree) && 0 <= i < |old(tree[k].Children)| && old(tree[k].Children[i]).Inner? ==>
        (k.0 + 1, Shl(k.1, old(tree)[k].Bits) + i) != (lv, node.Prefix)
      requires tree == old(tree)[(lv, node.Prefix) := node] && nodes == old(nodes) + {node} && pages == old(pages)
      requires unchanged(old(nodes))
      requires forall i :: 0 <= i < |node.Children| ==> node.Children[i] == Nil
      requires |node.Children| == node.Size()
      requires node.Level < 6 && node.Bits == branchFactors[node.Level] && node.Depth == DepthOf(branchFactors, node.Level)
      requires ExistsOk(pis, node.Depth, node.Bits, node.Prefix, node.HashExists)
      ensures NodesOk(pis) && IsNode(node)
    {
      hide ExistsOk, DepthOf, Pow2, Factors;
      forall k | k in tree ensures NodeOk(tree[k], pis) {
        if k in old(tree) && tree[k] == old(tree)[k] {
          assert old(NodeOk(tree[k], pis));
        }
      }
    }

    twostate lemma NodeAddedHashed(new node: RadixNode, new lv: nat, new m: Flat, new dirty: set<nat>)
      requires old(AllHashed(m, dirty)) && Hashed(node, m, dirty)
      requires tree == old(tree)[(lv, node.Prefix) := node] && nodes == old(nodes) + {node}
      requires unchanged(old(nodes))
      ensures AllHashed(m, dirty)
    {
      hide HashesOk;
    }

    /** The paths that were there lead on as before. */
    twostate lemma NodeAddedAside(new node: RadixNode, new lv: nat, new pi: nat, new pis: set<nat>)
      requires old(Factors(branchFactors) && StepsOk(pis)) && 0 < lv < 6 && node.Level == lv
      requires node.Depth == DepthOf(branchFactors, lv) && NoneBelow(pis, node.Depth, node.Prefix)
      requires old(MarkedTo(pi, lv - 1) && StepsTo(pi, lv - 1))
      requires tree == old(tree)[(lv, node.Prefix) := node] && nodes == old(nodes) + {node}
      requires unchanged(old(nodes))
      ensures StepsOk(pis) && MarkedTo(pi, lv - 1) && StepsTo(pi, lv - 1)
    {
      hide PathPrefix, Branch, PageAnc, Marked, DepthOf, NoneBelow, Pow2;
      forall qi, l: nat | qi in pis && l < 6 ensures StepOk(qi, l) {
        assert old(StepOk(qi, l));
        NotAbove(pis, qi, branchFactors, l, node.Depth, node.Prefix);
      }
      forall l: nat | l < lv - 1 ensures StepOk(pi, l) {
        assert old(StepOk(pi, l));
      }
    }

    /** Sets one child pointer to where it belongs. */
    method PutChild(n: RadixNode, branch: nat, child: Child,
                    ghost pi: nat, ghost pis: set<nat>, ghost m: Flat, ghost dirty: set<nat>)
      requires Factors(branchFactors) && NodesOk(pis) && StepsOk(pis) && IsNode(n)
      requires n.Level < 6 && n.Prefix == PathPrefix(branchFactors, pi, n.Level) && StepsTo(pi, n.Level)
      requires branch == Branch(branchFactors, pi, n.Level) < |n.Children|
      requires child.ToMemory? ==> n.Level == 5 && Shl(n.Prefix, n.Bits) + branch in pages
      requires child.Inner? ==> n.Level < 5 && IsNode(child.node)
      requires child.Inner? ==> child.node.Level == n.Level + 1 && child.node.Prefix == Shl(n.Prefix, n.Bits) + branch
      requires child != Nil
      modifies n`Children
      ensures NodesOk(pis) && StepsOk(pis) && IsNode(n)
      ensures StepsTo(pi, n.Level + 1)
      ensures AllHashed(m, dirty) == old(AllHashed(m, dirty)) && MarkedTo(pi, n.Level) == old(MarkedTo(pi, n.Level))
    {
      hide PathPrefix, PageAnc, ExistsOk, DepthOf, Pow2;
      n.Children := n.Children[branch := child];
      forall qi, l: nat | qi in pis && l < 6 ensures StepOk(qi, l) {
        assert old(StepOk(qi, l));
      }
      forall l: nat | l < n.Level ensures StepOk(pi, l) {
        assert old(StepOk(pi, l));
      }
    }

    /** AllocPage above the page: builds the path to it, marking every node on the way. */
    method AllocPath(pi: nat, ghost pis: set<nat>, ghost m: Flat, ghost dirty: set<nat>, ghost coh: bool)
      requires Factors(branchFactors) && NodesOk(pis) && StepsOk(pis) && (coh ==> AllHashed(m, dirty))
      requires pi in pages && pi < PAGES
      modifies this`tree, this`nodes, nodes`Children, nodes`HashExists, nodes`HashValid
      ensures NodesOk(pis + {pi}) && StepsOk(pis + {pi}) && (coh ==> AllHashed(m, dirty + {pi}))
      ensures nodes >= old(nodes) && fresh(nodes - old(nodes))
    {
      hide NodeOk, StepOk, AllHashed, MarkedTo, PathPrefix, PageAnc, Branch, DepthOf, Pow2;
      TopPrefix(branchFactors, pi);
      MarkedNone(pi);
      var n := radix;
      while true
        invariant NodesOk(pis) && StepsOk(pis) && (coh ==> AllHashed(m, dirty))
        invariant IsNode(n) && n.Level < 6 && n.Prefix == PathPrefix(branchFactors, pi, n.Level)
        invariant MarkedTo(pi, n.Level) && StepsTo(pi, n.Level)
        invariant nodes >= old(nodes) && fresh(nodes - old(nodes))
        decreases 6 - n.Level
      {
        AllocChild(n, pi, pis, m, dirty, coh);
        MarkNode(n, pi, pis, m, dirty, coh);
        if n.Level == 5 {
          break;
        }
        NextNode(n, pi, pis);
        n := n.Children[Branch(branchFactors, pi, n.Level)].node;
      }
      PathMarked(pi, pis, m, dirty, coh);
    }

    /** A blank page p has been entered into the table under index pi, and nothing else changed. */
    twostate predicate Added(new p: CachedPage, new pi: nat)
      reads this`pages, this`dataArrays, this`cacheArrays, this`okArrays, this`flat, this`tree, this`nodes
      reads p.Data, p.Cache, p.Ok, dataArrays, cacheArrays, okArrays
    {
      && p.Valid() && pi < PAGES && pages == old(pages)[pi := p] && flat == ZeroPage(old(flat), pi)
      && (forall i :: 0 <= i < 4096 ==> p.Data[i] == 0) && (forall g :: 0 <= g < 128 ==> !p.Ok[g])
      && dataArrays == old(dataArrays) + {p.Data} && p.Data !in old(dataArrays)
      && cacheArrays == old(cacheArrays) + {p.Cache} && p.Cache !in old(cacheArrays)
      && okArrays == old(okArrays) + {p.Ok} && p.Ok !in old(okArrays)
      && tree == old(tree) && nodes == old(nodes)
      && unchanged(old(dataArrays)) && unchanged(old(cacheArrays)) && unchanged(old(okArrays))
    }

    twostate lemma AddedTable(new p: CachedPage, new pi: nat)
      requires old(TableOk()) && Added(p, pi)
      ensures TableOk()
    {
    }

    twostate lemma AddedFlat(new p: CachedPage, new pi: nat)
      requires old(TableOk() && FlatOk()) && Added(p, pi) && TableOk()
      ensures FlatOk()
    {
      hide PageData, ZeroPage, Factors, ZeroHash;
      ZeroPageData(old(flat), pi);
      ZeroElsewhere(old(flat), pi);
      forall qi | qi in pages ensures PageData(flat, qi) == pages[qi].Data[..] {
        if qi == pi {
          assert |p.Data[..]| == 4096 && forall i :: 0 <= i < 4096 ==> p.Data[..][i] == 0;
        } else {
          assert old(PageData(flat, qi) == pages[qi].Data[..]);
          OtherPageData(old(flat), flat, pi, qi);
        }
      }
      forall x | 0 <= x < TWO64 && x / 4096 !in pages ensures flat[x] == 0 {
        assert x / 4096 != pi;
      }
    }

    twostate lemma AddedTree(new p: CachedPage, new pi: nat)
      requires old(Factors(branchFactors) && NodesOk(pages.Keys) && StepsOk(pages.Keys)) && Added(p, pi)
      requires unchanged(nodes)
      ensures NodesOk(pages.Keys - {pi}) && StepsOk(pages.Keys - {pi})
    {
      hide PageNode, Factors, Pow2, PageAnc, Dep, Pre, PathPrefix, ZeroPage;
      forall k | k in tree ensures NodeOk(tree[k], pages.Keys - {pi}) {
        assert old(NodeOk(tree[k], pages.Keys));
      }
      forall qi, l: nat | qi in pages.Keys - {pi} && l < 6 ensures StepOk(qi, l) {
        assert old(StepOk(qi, l));
      }
    }

    twostate lemma AddedCaches(new p: CachedPage, new pi: nat)
      requires old(TableOk()) && Added(p, pi) && TableOk()
      ensures old(PagesSound()) ==> PagesSound()
      ensures Dirty() == old(Dirty()) + {pi}
      ensures forall qi :: OkOf(qi) == if qi == pi then Blank() else old(OkOf(qi))
    {
      hide PageNode, Factors, ZeroHash, ZeroPage;
      assert p.Ok[..] == Blank();
    }

    /** AllocPage at the page table. */
    method AddPage(pi: nat, ghost m: Flat, ghost dirty: set<nat>) returns (p: CachedPage)
      requires Shape() && pi < PAGES
      modifies this`pages, this`dataArrays, this`cacheArrays, this`okArrays, this`flat
      ensures TableOk() && FlatOk() && pages == old(pages)[pi := p]
      ensures LookupOk() <==> old(LookupOk()) && pi != lastPageKey0 && pi != lastPageKey1
      ensures NodesOk(pages.Keys - {pi}) && StepsOk(pages.Keys - {pi})
      ensures flat == ZeroPage(old(flat), pi)
      ensures old(PagesSound()) ==> PagesSound()
      ensures Dirty() == old(Dirty()) + {pi}
      ensures forall qi :: OkOf(qi) == if qi == pi then Blank() else old(OkOf(qi))
      ensures AllHashed(m, dirty) == old(AllHashed(m, dirty))
      ensures fresh(p) && fresh(p.Data) && fresh(p.Cache) && fresh(p.Ok)
      ensures dataArrays == old(dataArrays) + {p.Data}
      ensures cacheArrays == old(cacheArrays) + {p.Cache} && okArrays == old(okArrays) + {p.Ok}
    {
      hide Shape, TableOk, FlatOk, TreeOk, NodesOk, StepsOk, ZeroPage, Factors, PagesSound, Dirty, OkOf, AllHashed, Blank, LookupOk;
      ShapeParts();
      p := EnterPage(pi);
      AddedTable(p, pi);
      AddedFlat(p, pi);
      AddedTree(p, pi);
      AddedCaches(p, pi);
    }

    method EnterPage(pi: nat) returns (p: CachedPage)
      requires pi < PAGES
      modifies this`pages, this`dataArrays, this`cacheArrays, this`okArrays, this`flat
      ensures Added(p, pi)
      ensures LookupOk() <==> old(LookupOk()) && pi != lastPageKey0 && pi != lastPageKey1
      ensures fresh(p) && fresh(p.Data) && fresh(p.Cache) && fresh(p.Ok)
    {
      hide ZeroPage, LookupOk;
      p := new CachedPage();
      pages := pages[pi := p];
      dataArrays := dataArrays + {p.Data};
      cacheArrays := cacheArrays + {p.Cache};
      okArrays := okArrays + {p.Ok};
      flat := ZeroPage(flat, pi);
      LookupAfter(pi, p);
    }

    /** The lookup cache is right after a new page was entered unless it holds the page's index. */
    twostate lemma LookupAfter(new pi: nat, new p: CachedPage)
      requires fresh(p) && pi < PAGES && pages == old(pages)[pi := p]
      requires unchanged(this`lastPageKey0, this`lastPageKey1, this`lastPage0, this`lastPage1)
      ensures LookupOk() <==> old(LookupOk()) && pi != lastPageKey0 && pi != lastPageKey1
    {
    }

    lemma ShapeParts()
      ensures Shape() <==> Factors(branchFactors) && TableOk() && FlatOk() && NodesOk(pages.Keys) && StepsOk(pages.Keys)
    {
    }

    /** Hashes that stand above clean pages only do not notice a change to a dirty page. */
    lemma DirtyChange(m: Flat, m': Flat, pi: nat, dirty: set<nat>)
      requires Factors(branchFactors) && NodesOk(pages.Keys) && AllHashed(m, dirty) && pi in dirty && pi < PAGES
      requires forall x :: 0 <= x < TWO64 && x / 4096 != pi ==> m[x] == m'[x]
      ensures AllHashed(m', dirty)
    {
      hide Factors, HashesOk, ExistsOk, ChildrenOk, Pow2;
      forall k | k in tree ensures tree[k] in nodes && Hashed(tree[k], m', dirty) {
        var n := tree[k];
        assert Hashed(n, m, dirty) && NodeOk(n, pages.Keys);
        DepthStep(branchFactors, n.Level);
        HashesOtherPage(K, m, m', dirty, n.Depth, n.Bits, n.Prefix, pi, n.HashExists, n.HashValid, n.Hashes);
      }
    }

    lemma NoPageIsZero(pi: nat)
      requires TableOk() && FlatOk()
      ensures pi !in pages ==> ZeroPage(flat, pi) == flat
    {
      if pi !in pages {
        forall x | 0 <= x < TWO64 ensures ZeroPage(flat, pi)[x] == flat[x] {
        }
      }
    }

    method AllocPathOf(pi: nat, ghost m: Flat, ghost dirty: set<nat>, ghost coh: bool)
      requires Factors(branchFactors) && TableOk() && FlatOk()
      requires NodesOk(pages.Keys - {pi}) && StepsOk(pages.Keys - {pi})
      requires coh ==> AllHashed(m, dirty) && PagesSound()
      requires pi in pages && pi < PAGES && flat == ZeroPage(m, pi) && Dirty() == dirty + {pi}
      modifies this`tree, this`nodes, nodes`Children, nodes`HashExists, nodes`HashValid
      ensures Shape() && LookupOk() == old(LookupOk()) && (coh ==> Coherent()) && Dirty() == old(Dirty())
      ensures nodes >= old(nodes) && fresh(nodes - old(nodes))
      ensures forall qi :: OkOf(qi) == old(OkOf(qi))
    {
      hide *;
      AllocPath(pi, pages.Keys - {pi}, m, dirty, coh);
      assert pages.Keys - {pi} + {pi} == pages.Keys;
      ShapeParts();
      if coh {
        ZeroElsewhere(m, pi);
        DirtyChange(m, flat, pi, dirty + {pi});
        CoherentFrom(coh);
      }
    }

    /** AllocPage: a blank page, with nothing hashed above it. A page that was there is replaced; if
        it is one of the two most recently used, the lookup cache goes on answering with the old one. */
    method AllocPage(pageIndex: nat) returns (p: CachedPage)
      requires Shape() && pageIndex < PAGES
      modifies this`pages, this`dataArrays, this`cacheArrays, this`okArrays, this`flat
      modifies this`tree, this`nodes, nodes`Children, nodes`HashExists, nodes`HashValid
      ensures Shape() && (old(Coherent()) ==> Coherent())
      ensures LookupOk() <==> old(LookupOk()) && pageIndex != lastPageKey0 && pageIndex != lastPageKey1
      ensures pages == old(pages)[pageIndex := p] && Dirty() == old(Dirty()) + {pageIndex}
      ensures flat == ZeroPage(old(flat), pageIndex)
      ensures pageIndex !in old(pages) ==> flat == old(flat)
      ensures fresh(p) && fresh(p.Data) && fresh(p.Cache) && fresh(p.Ok)
      ensures dataArrays == old(dataArrays) + {p.Data}
      ensures cacheArrays == old(cacheArrays) + {p.Cache} && okArrays == old(okArrays) + {p.Ok}
      ensures nodes >= old(nodes) && fresh(nodes - old(nodes))
      ensures forall qi :: OkOf(qi) == if qi == pageIndex then Blank() else old(OkOf(qi))
    {
      hide *;
      ghost var coh, dirty, m := Coherent(), Dirty(), flat;
      CoherentParts(coh);
      ShapeParts();
      NoPageIsZero(pageIndex);
      p := AddPage(pageIndex, m, dirty);
      AllocPathOf(pageIndex, m, dirty, coh);
    }

    // ----- reading and writing bytes -----

    twostate lemma WrittenFlat(new addr: u64, new data: seq<byte>)
      requires old(TableOk() && FlatOk()) && TableOk() && pages == old(pages)
      requires addr / 4096 in pages && addr % 4096 + |data| <= 4096 && flat == WriteBytes(old(flat), addr, data)
      requires pages[addr / 4096].Data[..] == Spliced(old(pages[addr / 4096].Data[..]), addr % 4096, data)
      requires forall qi :: qi in pages && qi != addr / 4096 ==> pages[qi].Data[..] == old(pages[qi].Data[..])
      ensures FlatOk()
    {
      hide ZeroHash, WriteBytes, PageData, Factors, Spliced;
      var pi := addr / 4096;
      WriteInPage(old(flat), addr, data);
      forall qi | qi in pages ensures PageData(flat, qi) == pages[qi].Data[..] {
        assert old(PageData(flat, qi) == pages[qi].Data[..]);
        if qi != pi {
          OtherPageData(old(flat), flat, pi, qi);
        }
      }
      forall x | 0 <= x < TWO64 && x / 4096 !in pages ensures flat[x] == 0 {
        assert x / 4096 != pi;
      }
    }

    twostate lemma WrittenSound(new addr: u64, new data: seq<byte>)
      requires old(TableOk() && PagesSound()) && TableOk() && pages == old(pages)
      requires addr / 4096 in pages && addr % 4096 + |data| <= 4096
      requires pages[addr / 4096].Data[..] == Spliced(old(pages[addr / 4096].Data[..]), addr % 4096, data)
      requires ChangesClear(old(pages[addr / 4096].Data[..]), pages[addr / 4096].Data[..], pages[addr / 4096].Ok[..])
      requires forall qi :: qi in pages && qi != addr / 4096 ==> pages[qi].Data[..] == old(pages[qi].Data[..])
      requires forall qi :: qi in pages ==> pages[qi].Ok[..] == old(pages[qi].Ok[..])
      requires forall qi :: qi in pages ==> pages[qi].Cache[..] == old(pages[qi].Cache[..])
      ensures PagesSound()
    {
      hide ZeroHash, Factors, PageNode, Spliced, ChangesClear;
      var pi := addr / 4096;
      forall qi | qi in pages ensures pages[qi].Sound(K) {
        var q := pages[qi];
        assert old(q.Sound(K));
        if qi == pi {
          WriteKeepsSound(K, old(q.Data[..]), q.Data[..], q.Cache[..], q.Ok[..]);
        }
      }
    }

    lemma DataDistinct(pi: nat)
      requires TableOk() && pi in pages
      ensures forall qi :: qi in pages && qi != pi ==> pages[qi].Data != pages[pi].Data
      ensures forall qi :: qi in pages ==> pages[qi].Valid()
    {
    }

    /** Copies bytes into page pi, and into the reference memory. */
    method StoreBytes(p: CachedPage, addr: u64, data: seq<byte>, ghost coh: bool)
      requires TableOk() && FlatOk() && addr / 4096 in pages && pages[addr / 4096] == p && addr % 4096 + |data| <= 4096
      requires coh ==> PagesSound() && p.Valid() && ChangesClear(p.Data[..], Spliced(p.Data[..], addr % 4096, data), p.Ok[..])
      modifies this`flat, p.Data
      ensures TableOk() && FlatOk() && (coh ==> PagesSound())
      ensures flat == WriteBytes(old(flat), addr, data)
    {
      DataDistinct(addr / 4096);
      hide TableOk, FlatOk, PagesSound, ChangesClear, WriteBytes;
      CopyBytes(data, p.Data, addr % 4096);
      flat := WriteBytes(flat, addr, data);
      WrittenFlat(addr, data);
      if coh {
        WrittenSound(addr, data);
      }
    }

    method WritePage(p: CachedPage, addr: u64, data: seq<byte>, ghost coh: bool)
      requires Shape() && addr / 4096 in pages && pages[addr / 4096] == p && addr % 4096 + |data| <= 4096
      requires coh ==> Coherent() && addr / 4096 in Dirty() && |OkOf(addr / 4096)| == 128
      requires coh ==> ChangesClear(PageData(flat, addr / 4096), Spliced(PageData(flat, addr / 4096), addr % 4096, data), OkOf(addr / 4096))
      modifies this`flat, p.Data
      ensures Shape() && LookupOk() == old(LookupOk()) && (coh ==> Coherent())
      ensures flat == WriteBytes(old(flat), addr, data)
      ensures Dirty() == old(Dirty()) && forall qi :: OkOf(qi) == old(OkOf(qi))
    {
      hide *;
      ghost var pi, m := addr / 4096, flat;
      ShapeParts();
      PageFacts(pi);
      FlagsOfPage(pi);
      BytesOfPage(pi);
      CoherentParts(coh);
      StoreBytes(p, addr, data, coh);
      ShapeParts();
      if coh {
        WriteInPage(m, addr, data);
        DirtyChange(m, flat, pi, Dirty());
        CoherentFrom(coh);
      }
    }

    /** The guard for a write at addr, which may continue in the next page. */
    ghost predicate CanWrite(addr: u64, dat: seq<byte>)
      requires |dat| <= 32
      reads this`pages, this`flat, this`okArrays, okArrays
    {
      var d := InPage(addr, |dat|);
      var next := AddrAdd(addr, d);
      && Harmless(OkOf(addr / 4096), PageData(flat, addr / 4096), addr % 4096, dat[..d])
      && (d < |dat| ==> Harmless(OkOf(next / 4096), PageData(flat, next / 4096), 0, dat[d..]))
    }

    /** A page whose root hash is not valid is dirty, and forgetting makes it so. */
    lemma ForgottenIsDirty(pi: nat, ok: seq<bool>, chunk: nat)
      requires TableOk() && pi in pages
      requires OkOf(pi) == ForgetIfValid(ok, pi, pi, chunk) && |ok| == 128
      ensures pi in Dirty() && OkOf(pi) == Written(ok, chunk)
    {
      OnPathTop(64 + chunk);
    }

    lemma BlankIsClear(before: seq<byte>, after: seq<byte>)
      requires |before| == |after| == 4096
      ensures |Blank()| == 128 && ChangesClear(before, after, Blank())
    {
    }

    lemma AbsentKeys(pi: nat)
      requires LookupOk() && pi !in pages && pi < PAGES
      ensures pi != lastPageKey0 && pi != lastPageKey1
    {
    }

    lemma FlagsOfPage(pi: nat)
      requires TableOk()
      ensures pi in pages ==> OkOf(pi) == pages[pi].Ok[..] && |OkOf(pi)| == 128
      ensures pi !in pages ==> OkOf(pi) == []
    {
    }

    lemma BytesOfPage(pi: nat)
      requires TableOk() && FlatOk() && pi in pages
      ensures pages[pi].Valid() && PageData(flat, pi) == pages[pi].Data[..]
    {
    }

    lemma HarmlessIs(pi: nat, ok: seq<bool>, a: nat, data: seq<byte>)
      requires pi < PAGES && a + |data| <= 4096
      ensures Harmless(ok, PageData(flat, pi), a, data)
          <==> ChangesClear(PageData(flat, pi), Spliced(PageData(flat, pi), a, data), Written(ok, a / 64))
      ensures |ok| != 128 ==> Written(ok, a / 64) == Blank()
    {
    }

    method SetPresent(p: CachedPage, addr: u64, data: seq<byte>)
      requires Shape() && LookupOk() && addr % 4096 + |data| <= 4096
      requires addr / 4096 in pages && pages[addr / 4096] == p
      modifies this`lastPageKey0, this`lastPageKey1, this`lastPage0, this`lastPage1, this`flat
      modifies nodes`HashExists, nodes`HashValid, okArrays, p.Data
      ensures Shape() && LookupOk()
      ensures Dirty() <= old(Dirty()) + {addr / 4096}
      ensures flat == WriteBytes(old(flat), addr, data)
      ensures old(Coherent() && Harmless(OkOf(addr / 4096), PageData(flat, addr / 4096), addr % 4096, data)) ==> Coherent()
      ensures forall qi :: OkOf(qi) == WrittenAt(old(OkOf(qi)), qi, addr / 4096, addr % 4096 / 64)
    {
      hide *;
      ghost var pi := addr / 4096;
      ghost var ok := OkOf(pi);
      ShapeParts();
      FlagsOfPage(pi);
      PageFacts(pi);
      ghost var coh := Coherent() && Harmless(ok, PageData(flat, pi), addr % 4096, data);
      HarmlessIs(pi, ok, addr % 4096, data);
      Invalidate(addr); // the hashes over this chunk are no longer valid
      ShapeParts();
      ForgottenIsDirty(pi, ok, addr % 4096 / 64);
      WrittenIsForget(pi, ok, addr % 4096 / 64);
      WritePage(p, addr, data, coh);
    }

    lemma WrittenIsForget(pi: nat, ok: seq<bool>, chunk: nat)
      requires |ok| == 128
      ensures WrittenAt(ok, pi, pi, chunk) == ForgetIfValid(ok, pi, pi, chunk) == Written(ok, chunk)
      ensures forall other: seq<bool>, qi :: qi != pi ==> WrittenAt(other, qi, pi, chunk) == ForgetIfValid(other, qi, pi, chunk)
    {
    }

    method SetAbsent(addr: u64, data: seq<byte>)
      requires Shape() && LookupOk() && addr % 4096 + |data| <= 4096
      requires addr / 4096 !in pages
      modifies this`pages, this`dataArrays, this`cacheArrays, this`okArrays, this`flat
      modifies this`tree, this`nodes, nodes`Children, nodes`HashExists, nodes`HashValid
      ensures Shape() && LookupOk()
      ensures Dirty() <= old(Dirty()) + {addr / 4096}
      ensures flat == WriteBytes(old(flat), addr, data)
      ensures old(Coherent()) ==> Coherent()
      ensures forall qi :: OkOf(qi) == WrittenAt(old(OkOf(qi)), qi, addr / 4096, addr % 4096 / 64)
      ensures nodes >= old(nodes) && fresh(nodes - old(nodes))
      ensures dataArrays >= old(dataArrays) && fresh(dataArrays - old(dataArrays))
      ensures cacheArrays >= old(cacheArrays) && fresh(cacheArrays - old(cacheArrays))
      ensures okArrays >= old(okArrays) && fresh(okArrays - old(okArrays))
      ensures forall qi :: qi in old(pages) ==> qi in pages && pages[qi] == old(pages)[qi]
    {
      hide *;
      PageInRange(addr);
      var pi := addr / 4096;
      ShapeParts();
      FlagsOfPage(pi);
      AbsentKeys(pi);
      BlankWritten(pi, OkOf(pi), addr % 4096 / 64);
      var p := AllocPage(pi); // only writing creates pages
      BlankIsClear(PageData(flat, pi), Spliced(PageData(flat, pi), addr % 4096, data));
      WritePage(p, addr, data, old(Coherent()));
    }

    lemma BlankWritten(pi: nat, ok: seq<bool>, chunk: nat)
      requires ok == []
      ensures WrittenAt(ok, pi, pi, chunk) == Blank()
      ensures forall other: seq<bool>, qi :: qi != pi ==> WrittenAt(other, qi, pi, chunk) == other
    {
    }

    /** One page's share of SetUnaligned: find or allocate the page, forget its hashes, copy. */
    method SetPart(addr: u64, data: seq<byte>)
      requires Shape() && LookupOk() && addr % 4096 + |data| <= 4096
      modifies this, nodes`Children, nodes`HashExists, nodes`HashValid, okArrays, dataArrays
      ensures Shape() && LookupOk()
      ensures Dirty() <= old(Dirty()) + {addr / 4096}
      ensures flat == WriteBytes(old(flat), addr, data)
      ensures addr / 4096 < PAGES
      ensures old(Coherent() && Harmless(OkOf(addr / 4096), PageData(flat, addr / 4096), addr % 4096, data)) ==> Coherent()
      ensures forall qi :: OkOf(qi) == WrittenAt(old(OkOf(qi)), qi, addr / 4096, addr % 4096 / 64)
      ensures nodes >= old(nodes) && fresh(nodes - old(nodes))
      ensures dataArrays >= old(dataArrays) && fresh(dataArrays - old(dataArrays))
      ensures cacheArrays >= old(cacheArrays) && fresh(cacheArrays - old(cacheArrays))
      ensures okArrays >= old(okArrays) && fresh(okArrays - old(okArrays))
      ensures forall qi :: qi in old(pages) ==> qi in pages && pages[qi] == old(pages)[qi]
    {
      hide *;
      PageInRange(addr);
      var p := PageLookup(addr / 4096);
      if p == null {
        SetAbsent(addr, data);
        return;
      }
      DataInTable(addr / 4096);
      SetPresent(p, addr, data);
      assert nodes - old(nodes) == {} && dataArrays - old(dataArrays) == {};
      assert cacheArrays - old(cacheArrays) == {} && okArrays - old(okArrays) == {};
    }

    lemma DataInTable(pi: nat)
      requires Shape() && pi in pages
      ensures pages[pi].Data in dataArrays
    {
    }

    /** SetUnaligned: up to 32 bytes at any address, going on in the next page where needed. */
    method SetUnaligned(addr: u64, dat: seq<byte>)
      requires Shape() && LookupOk() && |dat| <= 32
      modifies this, nodes`Children, nodes`HashExists, nodes`HashValid, okArrays, dataArrays
      ensures Shape() && LookupOk()
      ensures Dirty() <= old(Dirty()) + Touched(addr, |dat|)
      ensures flat == WriteBytes(old(flat), addr, dat)
      ensures forall qi :: OkOf(qi) == FlagsAfter(old(OkOf(qi)), qi, addr, |dat|)
      ensures old(Coherent() && CanWrite(addr, dat)) ==> Coherent()
      ensures old(Coherent()) && Coherent() && NoCollisions(K, old(flat), flat, Touched(addr, |dat|)) ==> old(CanWrite(addr, dat))
      ensures forall qi :: qi in old(pages) ==> qi in pages && pages[qi] == old(pages)[qi]
      ensures Grew()
    {
      hide *;
      SetFacts(addr, dat);
      FlagsTwice(addr, |dat|);
      var d: u64 := InPage(addr, |dat|);
      var next := AddrAdd(addr, d);
      SetPart(addr, dat[..d]);
      if d < |dat| { // the rest belongs to the next page
        SetPart(next, dat[d..]);
      }
      GrewFrom();
      GuardNeeded(addr, dat);
    }

    /** Coherence after a write to one page shows that the write was harmless there. */
    twostate lemma PageNeeded(new pi: nat, new a: nat, new data: seq<byte>)
      requires old(TableOk() && FlatOk() && PagesSound()) && TableOk() && FlatOk() && PagesSound()
      requires forall qi :: qi in old(pages) ==> qi in pages && pages[qi] == old(pages)[qi]
      requires unchanged(old(cacheArrays)) && pi < PAGES && a + |data| <= 4096
      requires OkOf(pi) == Written(old(OkOf(pi)), a / 64)
      requires PageData(flat, pi) == Spliced(PageData(old(flat), pi), a, data)
      requires CollisionFree(K, PageInputs(K, PageData(old(flat), pi), 1) + PageInputs(K, PageData(flat, pi), 1))
      ensures old(Harmless(OkOf(pi), PageData(flat, pi), a, data))
    {
      hide Harmless, Written, Spliced, CollisionFree, PageInputs, PageNode, PageData, Factors, ZeroHash;
      var before := PageData(old(flat), pi);
      FlagsOfPage(pi);
      assert old(pi !in pages ==> OkOf(pi) == []) && old(pi in pages ==> OkOf(pi) == pages[pi].Ok[..]);
      if pi in old(pages) {
        var p := pages[pi];
        assert before == old(p.Data[..]) && old(p.Sound(K)) && p.Sound(K);
        HarmlessIff(K, before, a, data, p.Cache[..], old(OkOf(pi)));
      } else {
        NoFlagsGuard([], a, |data|);
        GuardIsHarmless([], before, a, data);
      }
    }

    /** The guard is needed: where it fails, the caches are not coherent afterwards. */
    twostate lemma GuardNeeded(new addr: u64, new dat: seq<byte>)
      requires forall qi :: qi in old(pages) ==> qi in pages && pages[qi] == old(pages)[qi]
      requires old(Shape()) && Shape() && unchanged(old(cacheArrays)) && |dat| <= 32
      requires flat == WriteBytes(old(flat), addr, dat)
      requires forall qi :: OkOf(qi) == FlagsAfter(old(OkOf(qi)), qi, addr, |dat|)
      ensures old(Coherent()) && Coherent() && NoCollisions(K, old(flat), flat, Touched(addr, |dat|)) ==> old(CanWrite(addr, dat))
    {
      hide Harmless, Spliced, WriteBytes, CollisionFree, PageInputs, PageData, OkOf, PagesSound, TableOk, FlatOk, TreeOk, AllHashed, Written;
      if old(Coherent()) && Coherent() && NoCollisions(K, old(flat), flat, Touched(addr, |dat|)) {
        var d := InPage(addr, |dat|);
        var next := AddrAdd(addr, d);
        NextPage(addr, |dat|);
        PagesAfter(old(flat), addr, dat);
        PageNeeded(addr / 4096, addr % 4096, dat[..d]);
        if d < |dat| {
          PageNeeded(next / 4096, 0, dat[d..]);
        }
      }
    }

    twostate lemma GrewFrom()
      requires nodes >= old(nodes) && fresh(nodes - old(nodes))
      requires dataArrays >= old(dataArrays) && fresh(dataArrays - old(dataArrays))
      requires cacheArrays >= old(cacheArrays) && fresh(cacheArrays - old(cacheArrays))
      requires okArrays >= old(okArrays) && fresh(okArrays - old(okArrays))
      ensures Grew()
    {
    }

    twostate lemma GrewNone()
      requires nodes == old(nodes) && dataArrays == old(dataArrays) && cacheArrays == old(cacheArrays) && okArrays == old(okArrays)
      ensures Grew()
    {
    }

    twostate lemma GrewParts()
      requires Grew()
      ensures nodes >= old(nodes) && fresh(nodes - old(nodes))
      ensures dataArrays >= old(dataArrays) && fresh(dataArrays - old(dataArrays))
      ensures cacheArrays >= old(cacheArrays) && fresh(cacheArrays - old(cacheArrays))
      ensures okArrays >= old(okArrays) && fresh(okArrays - old(okArrays))
    {
    }

    /** How a write splits at the end of a page. */
    lemma SetFacts(addr: u64, dat: seq<byte>)
      requires |dat| <= 32
      ensures InPage(addr, |dat|) < TWO64
      ensures var d := InPage(addr, |dat|); var next := AddrAdd(addr, d);
        && d <= |dat| && addr % 4096 + d <= 4096 && dat[..|dat|] == dat && addr / 4096 < PAGES && next / 4096 < PAGES
        && (d < |dat| ==> next / 4096 != addr / 4096 && next % 4096 == 0 && |dat| - d <= 32)
        && WriteBytes(WriteBytes(flat, addr, dat[..d]), next, dat[d..]) == WriteBytes(flat, addr, dat)
        && (CanWrite(addr, dat) ==> Harmless(OkOf(addr / 4096), PageData(flat, addr / 4096), addr % 4096, dat[..d]))
        && (d < |dat| ==> PageData(WriteBytes(flat, addr, dat[..d]), next / 4096) == PageData(flat, next / 4096))
        && (CanWrite(addr, dat) && d < |dat| ==> Harmless(OkOf(next / 4096), PageData(flat, next / 4096), 0, dat[d..]))
        && Touched(addr, |dat|) == {addr / 4096} + (if d < |dat| then {next / 4096} else {})
    {
      hide Harmless, WriteBytes, PageData;
      var d := InPage(addr, |dat|);
      NextPage(addr, |dat|);
      WriteTwice(flat, addr, dat[..d], dat[d..]);
      assert dat[..d] + dat[d..] == dat;
      WriteInPage(flat, addr, dat[..d]);
      if d < |dat| {
        OtherPageData(flat, WriteBytes(flat, addr, dat[..d]), addr / 4096, AddrAdd(addr, d) / 4096);
      }
    }

    /** GetUnaligned: up to 32 bytes from any address; missing pages read as zeros. */
    method GetUnaligned(addr: u64, n: nat) returns (dest: seq<byte>)
      requires Shape() && LookupOk() && n <= 32
      modifies this`lastPageKey0, this`lastPageKey1, this`lastPage0, this`lastPage1
      ensures LookupOk() && Shape() == old(Shape()) && Coherent() == old(Coherent()) && Dirty() == old(Dirty())
      ensures forall qi :: OkOf(qi) == old(OkOf(qi))
      ensures dest == ReadBytes(flat, addr, n)
    {
      hide *;
      GetFacts(addr, n);
      var d := InPage(addr, n);
      dest := GetPart(addr, d);
      if d == n {
        return;
      }
      var rest := GetPart(AddrAdd(addr, d), n - d);
      dest := dest + rest;
    }

    lemma GetFacts(addr: u64, n: nat)
      requires n <= 32
      ensures var d := InPage(addr, n); var next := AddrAdd(addr, d);
        && d <= n && addr % 4096 + d <= 4096
        && (d < n ==> next / 4096 != addr / 4096 && next % 4096 == 0 && n - d <= 32)
        && ReadBytes(flat, addr, d) + ReadBytes(flat, next, n - d) == ReadBytes(flat, addr, n)
    {
      var d := InPage(addr, n);
      NextPage(addr, n);
      ReadTwice(flat, addr, d, n - d);
    }

    method GetPart(addr: u64, n: nat) returns (dest: seq<byte>)
      requires Shape() && LookupOk() && addr % 4096 + n <= 4096
      modifies this`lastPageKey0, this`lastPageKey1, this`lastPage0, this`lastPage1
      ensures LookupOk() && Shape() == old(Shape()) && Coherent() == old(Coherent()) && Dirty() == old(Dirty())
      ensures forall qi :: OkOf(qi) == old(OkOf(qi))
      ensures dest == ReadBytes(flat, addr, n)
    {
      hide *;
      PageInRange(addr);
      ShapeParts();
      PagePart(addr, n);
      var p := PageLookup(addr / 4096);
      if p == null {
        dest := seq(n, _ => 0);
      } else {
        PageFacts(addr / 4096);
        dest := p.Data[addr % 4096..addr % 4096 + n];
      }
    }

    lemma PagePart(addr: u64, n: nat)
      requires TableOk() && FlatOk() && addr % 4096 + n <= 4096
      ensures addr / 4096 !in pages ==> ReadBytes(flat, addr, n) == seq(n, _ => 0)
      ensures addr / 4096 in pages ==>
        pages[addr / 4096].Valid() && ReadBytes(flat, addr, n) == pages[addr / 4096].Data[addr % 4096..addr % 4096 + n]
    {
      hide PageNode, Factors, ZeroHash;
    }

    /** A page whose root hash is valid takes a write within one chunk, and so does a missing page. */
    lemma CleanGuard(addr: u64, dat: seq<byte>)
      requires Shape() && |dat| <= 32 && addr % 64 + |dat| <= 64 && addr / 4096 !in Dirty()
      ensures CanWrite(addr, dat)
    {
      OneChunk(addr, |dat|);
      hide Shape, Dirty, CanWrite;
      CleanWrite(addr, dat);
    }

    /** The same for a write that may go on in the next page. */
    lemma CleanWrite(addr: u64, dat: seq<byte>)
      requires Shape() && |dat| <= 32 && addr % 64 + InPage(addr, |dat|) <= 64 && Touched(addr, |dat|) !! Dirty()
      ensures CanWrite(addr, dat)
    {
      hide Shape, TableOk, Dirty, OkOf, WriteGuard;
      var d := InPage(addr, |dat|);
      NextPage(addr, |dat|);
      ChunkOf(addr);
      PageGuard(addr / 4096, addr % 4096, d);
      if d < |dat| {
        PageGuard(AddrAdd(addr, d) / 4096, 0, |dat| - d);
      }
      GuardsAllow(addr, dat);
    }

    /** The guards that look at the flags only. */
    lemma GuardsAllow(addr: u64, dat: seq<byte>)
      requires |dat| <= 32
      requires var d := InPage(addr, |dat|); var next := AddrAdd(addr, d);
        WriteGuard(OkOf(addr / 4096), addr % 4096, d) && (d < |dat| ==> WriteGuard(OkOf(next / 4096), 0, |dat| - d))
      ensures CanWrite(addr, dat)
    {
      hide Harmless, WriteGuard, PageData;
      var d := InPage(addr, |dat|);
      NextPage(addr, |dat|);
      GuardIsHarmless(OkOf(addr / 4096), PageData(flat, addr / 4096), addr % 4096, dat[..d]);
      if d < |dat| {
        var next := AddrAdd(addr, d);
        GuardIsHarmless(OkOf(next / 4096), PageData(flat, next / 4096), 0, dat[d..]);
      }
    }

    lemma ChunkOf(addr: u64)
      ensures addr % 4096 % 64 == addr % 64
    {
      ModMod(addr, 64, 64);
    }

    lemma PageGuard(pi: nat, a: nat, n: nat)
      requires Shape() && a % 64 + n <= 64 && pi !in Dirty()
      ensures WriteGuard(OkOf(pi), a, n)
    {
      hide Shape, TableOk, Dirty, OkOf, WriteGuard;
      ShapeParts();
      FlagsOfPage(pi);
      if pi in pages {
        PageFacts(pi);
        FreshPageGuard(OkOf(pi), a, n);
      } else {
        NoFlagsGuard(OkOf(pi), a, n);
      }
    }

    lemma OneChunk(addr: u64, n: nat)
      requires n <= 32 && addr % 64 + n <= 64
      ensures InPage(addr, n) == n && addr % 4096 % 64 == addr % 64
    {
      ModMod(addr, 64, 64);
    }

    // ----- memories of which nothing was hashed -----

    /** No flag of any page is set, as before the first root is taken. */
    ghost predicate Unhashed()
      reads this`pages, this`okArrays, okArrays
    {
      forall qi: nat :: NoFlags(OkOf(qi))
    }

    /** Such a memory takes every write. */
    lemma UnhashedGuard(addr: u64, dat: seq<byte>)
      requires |dat| <= 32 && Unhashed()
      ensures CanWrite(addr, dat)
    {
      hide CanWrite, WriteGuard, NoFlags, OkOf;
      var d := InPage(addr, |dat|);
      NoFlagsGuard(OkOf(addr / 4096), addr % 4096, d);
      NoFlagsGuard(OkOf(AddrAdd(addr, d) / 4096), 0, |dat| - d);
      GuardsAllow(addr, dat);
    }
  }

  /** The hash does not collide on what two memories hash inside these pages. */
  ghost predicate NoCollisions(K: Hash, m: Flat, m': Flat, pis: set<nat>) {
    forall pi :: pi in pis && pi < PAGES ==>
      CollisionFree(K, PageInputs(K, PageData(m, pi), 1) + PageInputs(K, PageData(m', pi), 1))
  }

  /** The pages that a write reaches, after the write. */
  lemma PagesAfter(m: Flat, addr: u64, dat: seq<byte>)
    requires |dat| <= 32
    ensures var d := InPage(addr, |dat|); var next := AddrAdd(addr, d); var m' := WriteBytes(m, addr, dat);
      && PageData(m', addr / 4096) == Spliced(PageData(m, addr / 4096), addr % 4096, dat[..d])
      && (d < |dat| ==> PageData(m', next / 4096) == Spliced(PageData(m, next / 4096), 0, dat[d..]))
  {
    hide WriteBytes, PageData, Spliced;
    var d := InPage(addr, |dat|);
    NextPage(addr, |dat|);
    WriteTwice(m, addr, dat[..d], dat[d..]);
    assert dat[..d] + dat[d..] == dat;
    var half, next := WriteBytes(m, addr, dat[..d]), AddrAdd(addr, d);
    WriteInPage(m, addr, dat[..d]);
    if d < |dat| {
      WriteInPage(half, next, dat[d..]);
      OtherPageData(m, half, addr / 4096, next / 4096);
      OtherPageData(half, WriteBytes(m, addr, dat), next / 4096, addr / 4096);
    } else {
      assert dat[..d] == dat;
    }
  }

  /** How the flags of two parts make those of a write. */
  lemma FlagsTwice(addr: u64, n: nat)
    requires n <= 32
    ensures var d := InPage(addr, n); var next := AddrAdd(addr, d);
      && (d == n ==> forall ok: seq<bool>, qi: nat :: WrittenAt(ok, qi, addr / 4096, addr % 4096 / 64) == FlagsAfter(ok, qi, addr, n))
      && (d < n ==> forall ok: seq<bool>, chunk: nat :: WrittenAt(ok, next / 4096, addr / 4096, chunk) == ok)
      && (d < n ==> forall ok: seq<bool>, qi: nat ::
            WrittenAt(WrittenAt(ok, qi, addr / 4096, addr % 4096 / 64), qi, next / 4096, next % 4096 / 64) == FlagsAfter(ok, qi, addr, n))
  {
    hide Written;
    NextPage(addr, n);
  }

  /** No flag is set. */
  ghost predicate NoFlags(ok: seq<bool>) {
    forall g :: 0 <= g < |ok| ==> !ok[g]
  }

  lemma NoFlagsGuard(ok: seq<bool>, a: nat, n: nat)
    requires NoFlags(ok)
    ensures WriteGuard(ok, a, n)
  {
  }
}
