/** Generalized indices: inside a subtree, index 1 is its top and the children of g
    are 2g and 2g + 1. A subtree whose top has path bits p is embedded in the whole
    tree by Pre. */
module TreeIndex {
  import opened Words

  /** How far below the top of its subtree index g lies. */
  function Dep(g: nat): nat {
    if g <= 1 then 0 else 1 + Dep(g / 2)
  }

  /** The path bits of index g in a subtree whose top has path bits p. */
  function Pre(p: nat, g: nat): nat {
    if g <= 1 then p else 2 * Pre(p, g / 2) + g % 2
  }

  /** g is l or one of its ancestors. */
  predicate OnPath(g: nat, l: nat) {
    g == l || (l > 1 && OnPath(g, l / 2))
  }

  /** The top is on every path. */
  lemma {:induction false} OnPathTop(l: nat)
    requires l >= 1
    ensures OnPath(1, l)
  {
    if l > 1 {
      OnPathTop(l / 2);
    }
  }

  lemma {:induction false} DepBounds(g: nat)
    requires g >= 1
    ensures Pow2(Dep(g)) <= g < 2 * Pow2(Dep(g))
  {
    if g > 1 {
      DepBounds(g / 2);
    }
  }

  lemma {:induction false} DepUnique(g: nat, t: nat)
    requires Pow2(t) <= g < 2 * Pow2(t)
    ensures Dep(g) == t
    decreases t
  {
    if t > 0 {
      DepUnique(g / 2, t - 1);
    }
  }

  /** At the bottom row of a subtree with 2^bits positions, Pre appends the position. */
  lemma {:induction false} PreBottom(p: nat, g: nat, bits: nat)
    requires Pow2(bits) <= g < 2 * Pow2(bits)
    ensures Pre(p, g) == Shl(p, bits) + g - Pow2(bits)
    decreases bits
  {
    if bits > 0 {
      PreBottom(p, g / 2, bits - 1);
    }
  }

  lemma {:induction false} PreInjective(p: nat, g: nat, q: nat, h: nat)
    requires g >= 1 && h >= 1 && Dep(g) == Dep(h) && Pre(p, g) == Pre(q, h)
    ensures p == q && g == h
    decreases g
  {
    if g == 1 {
      assert h == 1;
    } else {
      PreInjective(p, g / 2, q, h / 2);
    }
  }

  lemma {:induction false} DepShr(l: nat, k: nat)
    requires l >= 1 && k <= Dep(l)
    ensures Shr(l, k) >= 1 && Dep(Shr(l, k)) == Dep(l) - k
    decreases k
  {
    if k > 0 {
      DepShr(l / 2, k - 1);
    }
  }

  /** Going up k steps in the subtree is going up k steps in the whole tree. */
  lemma {:induction false} PreShr(p: nat, l: nat, k: nat)
    requires l >= 1 && k <= Dep(l)
    ensures Shr(Pre(p, l), k) == Pre(p, Shr(l, k))
    decreases k
  {
    if k > 0 {
      assert Pre(p, l) / 2 == Pre(p, l / 2);
      PreShr(p, l / 2, k - 1);
    }
  }

  lemma {:induction false} OnPathIsShr(g: nat, l: nat)
    requires g >= 1 && l >= 1
    ensures OnPath(g, l) <==> Dep(g) <= Dep(l) && Shr(l, Dep(l) - Dep(g)) == g
    decreases l
  {
    if g == l {
    } else if l == 1 {
    } else {
      OnPathIsShr(g, l / 2);
      if Dep(g) <= Dep(l / 2) {
        assert Shr(l, Dep(l) - Dep(g)) == Shr(l / 2, Dep(l / 2) - Dep(g));
      }
    }
  }

  /** Ancestors inside a subtree are the ancestors in the whole tree: l is below g
      exactly when the node of l, moved up to the depth of g, is the node of g. */
  lemma OnPathIsAncestor(p: nat, g: nat, l: nat)
    requires g >= 1 && l >= 1 && Dep(g) <= Dep(l)
    ensures OnPath(g, l) <==> Shr(Pre(p, l), Dep(l) - Dep(g)) == Pre(p, g)
  {
    var k := Dep(l) - Dep(g);
    OnPathIsShr(g, l);
    DepShr(l, k);
    PreShr(p, l, k);
    if Pre(p, Shr(l, k)) == Pre(p, g) {
      PreInjective(p, Shr(l, k), p, g);
    }
  }
}
