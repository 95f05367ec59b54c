/** The state hierarchy a state machine runs over, and what a transition between two of its
    states should exit and enter. */
module StateTree {

  type State = nat

  /** An arbitrary hierarchy.  `depth` counts the steps to the root; it is what makes the
      parent function a tree, and no operation of the machine reads it. */
  datatype Tree = Tree(root: State, parent: State -> State, depth: State -> nat) {
    ghost predicate WellFormed() {
      && depth(root) == 0
      && forall s: State :: s != root ==> depth(s) == depth(parent(s)) + 1
    }
  }

  ghost predicate IsAncestor(t: Tree, a: State, s: State)
    requires t.WellFormed()
    decreases t.depth(s)
  {
    a == s || (s != t.root && IsAncestor(t, a, t.parent(s)))
  }

  /** The superstates of `s`, from `s` itself up to but excluding `top`. */
  ghost function Chain(t: Tree, s: State, top: State): seq<State>
    requires t.WellFormed() && IsAncestor(t, top, s)
    decreases t.depth(s)
  {
    if s == top then [] else [s] + Chain(t, t.parent(s), top)
  }

  /** The least common ancestor-or-self. */
  ghost function Lca(t: Tree, a: State, b: State): State
    requires t.WellFormed()
    decreases t.depth(a) + t.depth(b)
  {
    if a == b then a
    else if t.depth(a) > t.depth(b) then Lca(t, t.parent(a), b)
    else if t.depth(b) > t.depth(a) then Lca(t, a, t.parent(b))
    else Lca(t, t.parent(a), t.parent(b))
  }

  /** The superstate `k` levels above `s`. */
  ghost function Up(t: Tree, s: State, k: nat): (a: State)
    requires t.WellFormed() && k <= t.depth(s)
    ensures t.depth(a) == t.depth(s) - k
    decreases k
  {
    if k == 0 then s else t.parent(Up(t, s, k - 1))
  }

  lemma OnlyRootAtZero(t: Tree, s: State)
    requires t.WellFormed()
    ensures t.depth(s) == 0 <==> s == t.root
  {
    var _ := t.parent(s);
  }

  lemma UpZero(t: Tree, s: State)
    requires t.WellFormed()
    ensures Up(t, s, 0) == s
  {
  }

  lemma UpNext(t: Tree, s: State, k: nat)
    requires t.WellFormed() && k < t.depth(s)
    ensures Up(t, s, k + 1) == t.parent(Up(t, s, k))
  {
  }

  lemma {:induction false} UpOfParent(t: Tree, s: State, k: nat)
    requires t.WellFormed() && 0 < k <= t.depth(s)
    ensures Up(t, s, k) == Up(t, t.parent(s), k - 1)
    decreases k
  {
    if k > 1 {
      UpOfParent(t, s, k - 1);
    }
  }

  /** Ancestors are exactly the states some number of levels up. */
  lemma {:induction false} AncestorIsUp(t: Tree, a: State, s: State)
    requires t.WellFormed()
    ensures IsAncestor(t, a, s) <==> t.depth(a) <= t.depth(s) && a == Up(t, s, t.depth(s) - t.depth(a))
    decreases t.depth(s)
  {
    if a != s && s != t.root {
      AncestorIsUp(t, a, t.parent(s));
      if t.depth(a) < t.depth(s) {
        UpOfParent(t, s, t.depth(s) - t.depth(a));
      }
    }
  }

  lemma {:induction false} ChainIsUps(t: Tree, s: State, top: State)
    requires t.WellFormed() && IsAncestor(t, top, s)
    ensures t.depth(top) <= t.depth(s)
    ensures |Chain(t, s, top)| == t.depth(s) - t.depth(top)
    ensures forall k :: 0 <= k < |Chain(t, s, top)| ==> Chain(t, s, top)[k] == Up(t, s, k)
    decreases t.depth(s)
  {
    if s != top {
      ChainIsUps(t, t.parent(s), top);
      forall k | 0 <= k < |Chain(t, s, top)|
        ensures Chain(t, s, top)[k] == Up(t, s, k)
      {
        if k > 0 {
          UpOfParent(t, s, k);
        }
      }
    }
  }

  lemma {:induction false} RootIsAncestor(t: Tree, s: State)
    requires t.WellFormed()
    ensures IsAncestor(t, t.root, s)
    decreases t.depth(s)
  {
    if s != t.root {
      RootIsAncestor(t, t.parent(s));
    }
  }

  lemma {:induction false} AncestorTransitive(t: Tree, a: State, b: State, c: State)
    requires t.WellFormed() && IsAncestor(t, a, b) && IsAncestor(t, b, c)
    ensures IsAncestor(t, a, c)
    decreases t.depth(c)
  {
    if b != c {
      AncestorTransitive(t, a, b, t.parent(c));
    }
  }

  lemma {:induction false} LcaIsCommon(t: Tree, a: State, b: State)
    requires t.WellFormed()
    ensures IsAncestor(t, Lca(t, a, b), a) && IsAncestor(t, Lca(t, a, b), b)
    decreases t.depth(a) + t.depth(b)
  {
    if a == b {
    } else if t.depth(a) > t.depth(b) {
      LcaIsCommon(t, t.parent(a), b);
    } else if t.depth(b) > t.depth(a) {
      LcaIsCommon(t, a, t.parent(b));
    } else {
      LcaIsCommon(t, t.parent(a), t.parent(b));
    }
  }

  /** Every common ancestor lies on or above the least one. */
  lemma {:induction false} LcaIsLeast(t: Tree, a: State, b: State, c: State)
    requires t.WellFormed() && IsAncestor(t, c, a) && IsAncestor(t, c, b)
    ensures IsAncestor(t, c, Lca(t, a, b))
    decreases t.depth(a) + t.depth(b)
  {
    AncestorIsUp(t, c, a);
    AncestorIsUp(t, c, b);
    if a == b {
    } else if t.depth(a) > t.depth(b) {
      LcaIsLeast(t, t.parent(a), b, c);
    } else if t.depth(b) > t.depth(a) {
      LcaIsLeast(t, a, t.parent(b), c);
    } else {
      LcaIsLeast(t, t.parent(a), t.parent(b), c);
    }
  }

  lemma LcaSymmetric(t: Tree, a: State, b: State)
    requires t.WellFormed()
    ensures Lca(t, a, b) == Lca(t, b, a)
  {
    hide IsAncestor, Lca;
    LcaIsCommon(t, a, b);
    LcaIsCommon(t, b, a);
    LcaIsLeast(t, a, b, Lca(t, b, a));
    LcaIsLeast(t, b, a, Lca(t, a, b));
    AncestorIsUp(t, Lca(t, a, b), Lca(t, b, a));
    AncestorIsUp(t, Lca(t, b, a), Lca(t, a, b));
    UpZero(t, Lca(t, a, b));
  }

  /** The first superstate of `a` that is also one of `b` is their least common ancestor. */
  lemma FirstCommonIsLca(t: Tree, a: State, b: State, j: nat)
    requires t.WellFormed() && j <= t.depth(a)
    requires IsAncestor(t, Up(t, a, j), b)
    requires j == 0 || !IsAncestor(t, Up(t, a, j - 1), b)
    ensures Up(t, a, j) == Lca(t, a, b)
  {
    hide IsAncestor, Lca, Up;
    var x := Up(t, a, j);
    var l := Lca(t, a, b);
    LcaIsCommon(t, a, b);
    AncestorIsUp(t, x, a);
    AncestorIsUp(t, l, a);
    LcaIsLeast(t, a, b, x);
    AncestorIsUp(t, x, l);
    if x != l {
      var y := Up(t, a, j - 1);
      AncestorIsUp(t, y, a);
      UpFromBelow(t, a, t.depth(a) - t.depth(l), j - 1);
      AncestorTransitive(t, y, l, b);
    }
  }

  /** Of two superstates of one state, the higher is an ancestor of the lower. */
  lemma {:induction false} UpFromBelow(t: Tree, s: State, i: nat, j: nat)
    requires t.WellFormed() && i <= j <= t.depth(s)
    ensures IsAncestor(t, Up(t, s, j), Up(t, s, i))
    decreases j - i
  {
    if i < j {
      UpFromBelow(t, s, i + 1, j);
    }
  }

  // ----- What a transition exits and enters -----

  /** The states a transition exits, in order.  A self-transition leaves the state. */
  ghost function Exited(t: Tree, source: State, target: State): seq<State>
    requires t.WellFormed()
  {
    LcaIsCommon(t, source, target);
    if source == target then [source] else Chain(t, source, Lca(t, source, target))
  }

  /** The states a transition enters, innermost first. */
  ghost function Entered(t: Tree, source: State, target: State): seq<State>
    requires t.WellFormed()
  {
    LcaIsCommon(t, source, target);
    if source == target then [target] else Chain(t, target, Lca(t, source, target))
  }
}
