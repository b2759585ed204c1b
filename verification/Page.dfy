/** One 4 KiB page with its own hash cache (rvgo/fast/page.go). */
module Page {
  import opened Words
  import opened Bytes
  import opened FlatMemory
  import opened TreeIndex

  // ----- the hash tree over one page, without any cache -----

  /** The node at generalized index g of the page: 128..255 are the leaves. */
  function PageNode(K: Hash, data: seq<byte>, g: nat): Bytes32
    requires |data| == 4096
    decreases 256 - g, |data|
  {
    if g >= 256 || g == 0 then ZERO32
    else if g >= 128 then data[32 * (g - 128)..32 * (g - 127)]
    else HashPair(K, PageNode(K, data, 2 * g), PageNode(K, data, 2 * g + 1))
  }

  /** The siblings from index g up to the top of the page. */
  function PageSiblings(K: Hash, data: seq<byte>, g: nat): (s: seq<Bytes32>)
    requires |data| == 4096
    ensures |s| == Dep(g)
  {
    if g <= 1 then [] else [PageNode(K, data, Sibling(g))] + PageSiblings(K, data, g / 2)
  }

  /** An index the cache holds: 64..127 cover two leaves each, 1..63 are above them. */
  predicate Cached(g: int) {
    1 <= g < 128
  }

  /** Every entry the page marks as valid is the hash of what the page holds. */
  ghost predicate CacheSound(K: Hash, data: seq<byte>, cache: seq<Bytes32>, ok: seq<bool>) {
    && |data| == 4096 && |cache| == 128 && |ok| == 128
    && forall g {:trigger ok[g]} {:trigger cache[g]} :: Cached(g) && ok[g] ==> cache[g] == PageNode(K, data, g)
  }

  class CachedPage {
    const Data: array<byte>
    const Cache: array<Bytes32>
    const Ok: array<bool>

    ghost predicate Valid() {
      Data.Length == 4096 && Cache.Length == 128 && Ok.Length == 128
    }

    ghost predicate Sound(K: Hash)
      requires Valid()
      reads Data, Cache, Ok
    {
      CacheSound(K, Data[..], Cache[..], Ok[..])
    }

    /** The hashes marked as valid are those of the bytes shown, and where the page holds other
        bytes the hash of their chunk is still marked as valid. */
    ghost predicate Shows(K: Hash, shown: seq<byte>)
      requires Valid()
      reads Data, Cache, Ok
    {
      && |shown| == 4096 && CacheSound(K, shown, Cache[..], Ok[..])
      && forall i :: 0 <= i < 4096 && Data[i] != shown[i] ==> Ok[64 + i / 64]
    }

    ghost predicate Refreshed()
      requires Valid()
      reads Ok
    {
      forall g :: Cached(g) ==> Ok[g]
    }

    /** A fresh page: zero bytes, nothing cached. */
    constructor ()
      ensures Valid() && fresh(Data) && fresh(Cache) && fresh(Ok)
      ensures forall i :: 0 <= i < 4096 ==> Data[i] == 0
      ensures forall g :: 0 <= g < 128 ==> !Ok[g]
    {
      Data := new byte[4096](_ => 0);
      Cache := new Bytes32[128](_ => ZERO32);
      Ok := new bool[128](_ => false);
    }

    /** Forgets the hashes on the path from the byte at pageAddr to the top. */
    method Invalidate(pageAddr: nat)
      requires Valid() && pageAddr < 4096
      modifies Ok
      ensures forall g :: Cached(g) ==> Ok[g] == (old(Ok[g]) && !OnPath(g, 64 + pageAddr / 64))
      ensures Ok[0] == old(Ok[0])
    {
      var k := 4096 + pageAddr;
      k := k / 64;
      ghost var bottom := k;
      while k > 0
        invariant 0 <= k < 128 && bottom == 64 + pageAddr / 64 && Ok[0] == old(Ok[0])
        invariant forall g :: Cached(g) && (k == 0 || !OnPath(g, k)) ==> Ok[g] == (old(Ok[g]) && !OnPath(g, bottom))
        invariant forall g :: Cached(g) && k > 0 && OnPath(g, k) ==> OnPath(g, bottom)
      {
        Ok[k] := false;
        k := k / 2;
      }
    }

    method InvalidateFull()
      requires Valid()
      modifies Ok
      ensures forall g :: 0 <= g < 128 ==> !Ok[g]
    {
      forall g | 0 <= g < 128 {
        Ok[g] := false;
      }
    }

    /** Fills the cache and returns the hash of the bytes that the cache shows: with a sound cache,
        of the bytes that the page holds. */
    method MerkleRoot(K: Hash, ghost shown: seq<byte>) returns (root: Bytes32)
      requires Valid() && Shows(K, shown)
      modifies Cache, Ok
      ensures CacheSound(K, shown, Cache[..], Ok[..]) && Refreshed()
      ensures root == PageNode(K, shown, 1)
      ensures Cache[1] == root
    {
      hide CacheSound, PageNode;
      var i := 0;
      while i < 4096
        invariant 0 <= i <= 4096 && i % 64 == 0
        invariant Shows(K, shown)
        invariant forall g :: 64 <= g < 64 + i / 64 ==> Ok[g]
      {
        var j := 64 + i / 64;
        if !Ok[j] {
          ShownBottom(K, Data[..], shown, Ok[..], j);
          assert Data[..][i..i + 64] == Data[i..i + 64];
          CacheStore(K, shown, Cache[..], Ok[..], j, K(Data[i..i + 64]));
          Cache[j] := K(Data[i..i + 64]);
          Ok[j] := true;
        }
        i := i + 64;
      }
      i := 126;
      while i > 0
        invariant 0 <= i <= 126 && i % 2 == 0
        invariant CacheSound(K, shown, Cache[..], Ok[..])
        invariant forall g :: i / 2 < g < 128 ==> Ok[g]
        decreases i
      {
        var j := i / 2;
        if !Ok[j] {
          CacheParent(K, shown, Cache[..], Ok[..], j);
          Cache[j] := HashPair(K, Cache[i], Cache[i + 1]);
          Ok[j] := true;
        }
        i := i - 2;
      }
      CacheRoot(K, shown, Cache[..], Ok[..]);
      root := Cache[1];
    }

    /** The node at any index of the page; the cache is filled first. */
    method MerkleizeSubtree(K: Hash, gindex: nat) returns (node: Bytes32)
      requires Valid() && Sound(K) && 1 <= gindex < 256
      modifies Cache, Ok
      ensures Sound(K) && Refreshed()
      ensures node == PageNode(K, Data[..], gindex)
    {
      var _ := MerkleRoot(K, Data[..]);
      ghost var data := Data[..];
      if gindex >= 128 {
        LeafNode(K, data, gindex);
        var nodeIndex := gindex % 128;
        node := Data[nodeIndex * 32..nodeIndex * 32 + 32];
      } else {
        assert Ok[..][gindex];
        node := Cache[gindex];
      }
    }

    /** The leaf of addr and the seven siblings above it, lowest first. */
    method GenerateProof(K: Hash, addr: nat) returns (proofs: seq<Bytes32>)
      requires Valid() && Sound(K)
      modifies Cache, Ok
      ensures Sound(K) && Refreshed()
      ensures |proofs| == 8
      ensures proofs == [PageNode(K, Data[..], 128 + addr % 4096 / 32)]
                      + PageSiblings(K, Data[..], 128 + addr % 4096 / 32)
    {
      hide PageNode, CacheSound, Pow2;
      var pageGindex := 128 + addr % 4096 / 32;
      var leaf := MerkleizeSubtree(K, pageGindex);
      proofs := [leaf];
      var idx := pageGindex;
      while idx > 1
        invariant 1 <= idx < 256
        invariant Sound(K) && Refreshed()
        invariant proofs + PageSiblings(K, Data[..], idx)
               == [PageNode(K, Data[..], pageGindex)] + PageSiblings(K, Data[..], pageGindex)
        decreases idx
      {
        var sibling := Sibling(idx);
        var node := MerkleizeSubtree(K, sibling);
        proofs := proofs + [node];
        idx := idx / 2;
      }
      Dep7(pageGindex);
    }
  }

  lemma LeafNode(K: Hash, data: seq<byte>, g: nat)
    requires |data| == 4096 && 128 <= g < 256
    ensures g % 128 == g - 128
    ensures PageNode(K, data, g) == data[32 * (g % 128)..32 * (g % 128) + 32]
  {
  }

  lemma Dep7(g: nat)
    requires 128 <= g < 256
    ensures Dep(g) == 7
  {
    assert Pow2(7) == 128;
    DepUnique(g, 7);
  }

  /** A bottom cache entry is the hash of its 64 bytes in one piece. */
  lemma BottomNode(K: Hash, data: seq<byte>, j: nat)
    requires |data| == 4096 && 64 <= j < 128
    ensures PageNode(K, data, j) == K(data[64 * (j - 64)..64 * (j - 63)])
  {
    var a := 64 * (j - 64);
    assert PageNode(K, data, 2 * j) == data[a..a + 32];
    assert PageNode(K, data, 2 * j + 1) == data[a + 32..a + 64];
    assert data[a..a + 32] + data[a + 32..a + 64] == data[a..a + 64];
  }

  /** The bottom entry that MerkleRoot computes where no hash is valid. */
  lemma ShownBottom(K: Hash, data: seq<byte>, shown: seq<byte>, ok: seq<bool>, j: nat)
    requires |data| == |shown| == 4096 && |ok| == 128 && 64 <= j < 128 && !ok[j]
    requires forall i :: 0 <= i < 4096 && data[i] != shown[i] ==> ok[64 + i / 64]
    ensures PageNode(K, shown, j) == K(data[64 * (j - 64)..64 * (j - 63)])
  {
    hide PageNode;
    BottomNode(K, shown, j);
    var a := 64 * (j - 64);
    forall i | a <= i < a + 64 ensures data[i] == shown[i] {
      assert 64 + i / 64 == j;
    }
    assert data[a..a + 64] == shown[a..a + 64];
  }

  lemma CacheStore(K: Hash, data: seq<byte>, cache: seq<Bytes32>, ok: seq<bool>, g: nat, node: Bytes32)
    requires CacheSound(K, data, cache, ok) && Cached(g) && node == PageNode(K, data, g)
    ensures CacheSound(K, data, cache[g := node], ok[g := true])
  {
    hide PageNode;
  }

  lemma CacheParent(K: Hash, data: seq<byte>, cache: seq<Bytes32>, ok: seq<bool>, j: nat)
    requires CacheSound(K, data, cache, ok) && 1 <= j < 64 && ok[2 * j] && ok[2 * j + 1]
    ensures CacheSound(K, data, cache[j := HashPair(K, cache[2 * j], cache[2 * j + 1])], ok[j := true])
  {
    CacheStore(K, data, cache, ok, j, HashPair(K, cache[2 * j], cache[2 * j + 1]));
  }

  lemma CacheRoot(K: Hash, data: seq<byte>, cache: seq<Bytes32>, ok: seq<bool>)
    requires CacheSound(K, data, cache, ok) && ok[1]
    ensures cache[1] == PageNode(K, data, 1)
  {
  }

  // ----- writing under the cache -----

  lemma {:induction false} OnPathUp(g: nat, l: nat)
    requires g >= 1 && l >= 1 && (OnPath(2 * g, l) || OnPath(2 * g + 1, l))
    ensures OnPath(g, l)
    decreases l
  {
    if l > 1 && l / 2 != g {
      OnPathUp(g, l / 2);
    }
  }

  /** A node notices only changes to the bytes below it. */
  lemma {:induction false} PageNodeFrame(K: Hash, data: seq<byte>, data': seq<byte>, g: nat)
    requires |data| == |data'| == 4096 && 1 <= g < 128
    requires forall i :: 0 <= i < 4096 && data[i] != data'[i] ==> !OnPath(g, 64 + i / 64)
    ensures PageNode(K, data, g) == PageNode(K, data', g)
    decreases 128 - g
  {
    if g >= 64 {
      var a := 64 * (g - 64);
      BottomNode(K, data, g);
      BottomNode(K, data', g);
      forall i | a <= i < a + 64 ensures data[i] == data'[i] {
        assert 64 + i / 64 == g;
      }
      assert data[a..a + 64] == data'[a..a + 64];
    } else {
      forall i | 0 <= i < 4096 && data[i] != data'[i]
        ensures !OnPath(2 * g, 64 + i / 64) && !OnPath(2 * g + 1, 64 + i / 64)
      {
        if OnPath(2 * g, 64 + i / 64) || OnPath(2 * g + 1, 64 + i / 64) {
          OnPathUp(g, 64 + i / 64);
        }
      }
      PageNodeFrame(K, data, data', 2 * g);
      PageNodeFrame(K, data, data', 2 * g + 1);
    }
  }

  /** No valid hash stands above a byte that differs. */
  ghost predicate ChangesClear(data: seq<byte>, data': seq<byte>, ok: seq<bool>)
    requires |data| == |data'| == 4096 && |ok| == 128
  {
    forall i, g {:trigger data[i], ok[g]} :: 0 <= i < 4096 && data[i] != data'[i] && Cached(g) && ok[g] ==>
      !OnPath(g, 64 + i / 64)
  }

  lemma WriteKeepsSound(K: Hash, data: seq<byte>, data': seq<byte>, cache: seq<Bytes32>, ok: seq<bool>)
    requires CacheSound(K, data, cache, ok) && |data'| == 4096
    requires ChangesClear(data, data', ok)
    ensures CacheSound(K, data', cache, ok)
  {
    forall g | Cached(g) && ok[g] ensures cache[g] == PageNode(K, data', g) {
      PageNodeFrame(K, data, data', g);
    }
  }

  /** The 64-byte strings hashed below a node of the page. */
  function PageInputs(K: Hash, data: seq<byte>, g: nat): set<seq<byte>>
    requires |data| == 4096
    decreases 128 - g, |data|
  {
    if g == 0 || g >= 128 then {}
    else {CombineInput(PageNode(K, data, 2 * g), PageNode(K, data, 2 * g + 1), 0)}
         + PageInputs(K, data, 2 * g) + PageInputs(K, data, 2 * g + 1)
  }

  lemma {:induction false} PageNodeInjective(K: Hash, data: seq<byte>, data': seq<byte>, g: nat, i: nat, S: set<seq<byte>>)
    requires |data| == |data'| == 4096 && 1 <= g < 128 && CollisionFree(K, S)
    requires PageInputs(K, data, g) <= S && PageInputs(K, data', g) <= S
    requires PageNode(K, data, g) == PageNode(K, data', g)
    requires i < 4096 && OnPath(g, 64 + i / 64)
    ensures data[i] == data'[i]
    decreases 128 - g
  {
    hide *;
    PageInputsBelow(K, data, g, S);
    PageInputsBelow(K, data', g, S);
    CombineInjective(K, PageNode(K, data, 2 * g), PageNode(K, data, 2 * g + 1),
                     PageNode(K, data', 2 * g), PageNode(K, data', 2 * g + 1), 0, S);
    if g >= 64 {
      OnPathDeep(g, 64 + i / 64);
      LeafByte(K, data, i);
      LeafByte(K, data', i);
    } else {
      OnPathDown(g, 64 + i / 64);
      if OnPath(2 * g, 64 + i / 64) {
        PageNodeInjective(K, data, data', 2 * g, i, S);
      } else {
        PageNodeInjective(K, data, data', 2 * g + 1, i, S);
      }
    }
  }

  lemma {:induction false} InputsOfPage(K: Hash, data: seq<byte>, g: nat)
    requires |data| == 4096 && Cached(g)
    ensures PageInputs(K, data, g) <= PageInputs(K, data, 1)
  {
    hide PageInputs, PageNode;
    if g > 1 {
      InputsOfPage(K, data, g / 2);
      PageInputsBelow(K, data, g / 2, PageInputs(K, data, g / 2));
      assert g == 2 * (g / 2) || g == 2 * (g / 2) + 1;
    }
  }

  lemma PageInputsBelow(K: Hash, data: seq<byte>, g: nat, S: set<seq<byte>>)
    requires |data| == 4096 && 1 <= g < 128 && PageInputs(K, data, g) <= S
    ensures PageInputs(K, data, 2 * g) <= S && PageInputs(K, data, 2 * g + 1) <= S
    ensures CombineInput(PageNode(K, data, 2 * g), PageNode(K, data, 2 * g + 1), 0) in S
    ensures PageNode(K, data, g) == Combine(K, PageNode(K, data, 2 * g), PageNode(K, data, 2 * g + 1), 0)
  {
  }

  lemma LeafByte(K: Hash, data: seq<byte>, i: nat)
    requires |data| == 4096 && i < 4096
    ensures PageNode(K, data, 128 + i / 32)[i % 32] == data[i]
    ensures 128 + i / 32 == 2 * (64 + i / 64) || 128 + i / 32 == 2 * (64 + i / 64) + 1
  {
  }

  lemma {:induction false} OnPathBelow(g: nat, l: nat)
    requires OnPath(g, l)
    ensures g <= l
  {
    if g != l {
      OnPathBelow(g, l / 2);
    }
  }

  lemma OnPathDeep(g: nat, l: nat)
    requires 64 <= g && l < 128 && OnPath(g, l)
    ensures g == l
  {
    if g != l {
      OnPathBelow(g, l / 2);
    }
  }

  lemma {:induction false} OnPathDown(g: nat, l: nat)
    requires g >= 1 && OnPath(g, l) && g != l
    ensures OnPath(2 * g, l) || OnPath(2 * g + 1, l)
    decreases l
  {
    if l / 2 == g {
      assert l == 2 * g || l == 2 * g + 1;
    } else {
      OnPathDown(g, l / 2);
    }
  }

  /** When the cache stays sound: a write leaves it sound exactly if no hash that is still
      marked valid stands above a byte that the write changed. (The flags ok are those
      after invalidation; K must not collide on what is hashed for the two contents.) */
  lemma WriteSoundIff(K: Hash, data: seq<byte>, data': seq<byte>, cache: seq<Bytes32>, ok: seq<bool>, S: set<seq<byte>>)
    requires CacheSound(K, data, cache, ok) && |data'| == 4096 && CollisionFree(K, S)
    requires PageInputs(K, data, 1) <= S && PageInputs(K, data', 1) <= S
    ensures CacheSound(K, data', cache, ok) <==> ChangesClear(data, data', ok)
  {
    if ChangesClear(data, data', ok) {
      WriteKeepsSound(K, data, data', cache, ok);
    }
    if CacheSound(K, data', cache, ok) {
      forall i, g | 0 <= i < 4096 && data[i] != data'[i] && Cached(g) && ok[g] ensures !OnPath(g, 64 + i / 64) {
        if OnPath(g, 64 + i / 64) {
          InputsOfPage(K, data, g);
          InputsOfPage(K, data', g);
          PageNodeInjective(K, data, data', g, i, S);
        }
      }
    }
  }
  /** The root tells the bytes of a page, when the hash does not collide on the two contents. */
  lemma RootTellsBytes(K: Hash, data: seq<byte>, data': seq<byte>)
    requires |data| == |data'| == 4096
    requires CollisionFree(K, PageInputs(K, data, 1) + PageInputs(K, data', 1))
    ensures PageNode(K, data, 1) == PageNode(K, data', 1) <==> data == data'
  {
    hide PageInputs, PageNode, CollisionFree, OnPath;
    if PageNode(K, data, 1) == PageNode(K, data', 1) {
      forall i | 0 <= i < 4096 ensures data[i] == data'[i] {
        OnPathTop(64 + i / 64);
        PageNodeInjective(K, data, data', 1, i, PageInputs(K, data, 1) + PageInputs(K, data', 1));
      }
    }
  }
}
