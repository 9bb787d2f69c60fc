/**
  The state a checkbox tree is meant to show: a node with children is
  selected exactly when all its direct children are. When no identifier is
  falsy, toggling keeps this state, and deselecting a node and selecting it
  again gives back the selection it started from. Selecting and then
  deselecting does not: selecting a node wipes out a partial selection of its
  descendants, which the deselect then removes.
 */
module Settledness {
  import opened Tree
  import opened Selection
  import opened ToggleFacts

  /** A node with children is selected exactly when all its children are. */
  ghost predicate Settled(forest: seq<Node>, sel: set<Value>)
  {
    forall t :: t in Sites(forest) && t.node.children != [] ==>
      (t.node.value in sel <==> ChildValues(t.node) <= sel)
  }

  /** In a settled selection, a selected node has its whole subtree selected. */
  lemma SettledConsistent(forest: seq<Node>, sel: set<Value>)
    requires Settled(forest, sel)
    ensures Consistent(forest, sel)
  {
    forall t | t in Sites(forest) && t.node.value in sel
      ensures Subtree(t.node) <= sel
    {
      SubtreeSelected(forest, sel, t);
    }
  }

  // ---------------------------------------------------------------------------
  // Children seen from the ancestor chain

  lemma ChildrenInSubtree(n: Node)
    ensures ChildValues(n) <= Subtree(n)
  {
    SubtreeSites(n, []);
    forall i | 0 <= i < |n.children|
      ensures n.children[i].value in Subtree(n)
    {
      ChildSite(n, [], i);
    }
  }

  /** The child value that follows the `j`-th ancestor of `s` on the way down to `s`. */
  function ChildOnPath(s: Site, j: nat): Value
    requires j <= |s.anc|
  {
    if j == 0 then s.node.value else s.anc[j - 1]
  }

  /** The `j`-th ancestor of `s` has the next value on the way down to `s`
      among its children, and none of its own ancestors nor itself. */
  lemma PathChild(forest: seq<Node>, s: Site, j: nat) returns (p: Site)
    requires Unique(forest) && s in Sites(forest) && j < |s.anc|
    ensures p in Sites(forest) && p.node.value == s.anc[j] && p.anc == s.anc[j + 1..]
    ensures ChildOnPath(s, j) in ChildValues(p.node)
    ensures forall i :: j <= i < |s.anc| ==> s.anc[i] !in ChildValues(p.node)
  {
    var q := s;
    if j > 0 {
      q := AncestorSite(forest, s, j - 1);
    }
    p := ParentSite(forest, q);
    var c :| 0 <= c < |p.node.children| && p.node.children[c] == q.node;
    assert ChildOnPath(s, j) == p.node.children[c].value;
    ChildrenInSubtree(p.node);
    AncestorsOutsideSubtree(forest, p);
    forall i | j < i < |s.anc|
      ensures s.anc[i] !in ChildValues(p.node)
    {
      assert s.anc[i] == p.anc[i - j - 1];
    }
    forall x | 0 <= x < |p.node.children|
      ensures p.node.children[x].value != p.node.value
    {
      ChildSite(p.node, p.anc, x);
      SitesClosed(forest, p);
      var u := Site(p.node.children[x], [p.node.value] + p.anc);
      AncestorsOutsideSubtree(forest, u);
      assert u.anc[0] in Elems(u.anc);
    }
  }

  /** A node that is neither in the subtree of `s` nor on its ancestor chain
      has no child in either. */
  lemma OutsideChildren(forest: seq<Node>, s: Site, w: Site)
    requires Unique(forest) && s in Sites(forest) && w in Sites(forest)
    requires w.node.value !in Subtree(s.node) && w.node.value !in Elems(s.anc)
    ensures ChildValues(w.node) !! Subtree(s.node)
    ensures ChildValues(w.node) !! Elems(s.anc)
  {
    forall i | 0 <= i < |w.node.children|
      ensures w.node.children[i].value !in Subtree(s.node)
      ensures w.node.children[i].value !in Elems(s.anc)
    {
      var u := Site(w.node.children[i], [w.node.value] + w.anc);
      ChildSite(w.node, w.anc, i);
      SitesClosed(forest, w);
      if u.node.value in Subtree(s.node) {
        SubtreeIff(forest, s, u);
        Linear(forest, u, w, s);
        SubtreeIff(forest, s, w);
        BelowIff(forest, s, w);
        assert false;
      }
      if u.node.value in Elems(s.anc) {
        var j :| 0 <= j < |s.anc| && s.anc[j] == u.node.value;
        OnChainParent(forest, s, u, j);
      }
    }
  }

  /** An occurrence of the `j`-th ancestor of `s` has the rest of the chain
      as its own ancestors. */
  lemma OnChainParent(forest: seq<Node>, s: Site, u: Site, j: nat)
    requires Unique(forest) && s in Sites(forest) && u in Sites(forest)
    requires j < |s.anc| && u.node.value == s.anc[j]
    ensures u.anc == s.anc[j + 1..]
    ensures u.anc != [] ==> u.anc[0] in Elems(s.anc)
  {
    var p := AncestorSite(forest, s, j);
    if u.anc != [] {
      assert u.anc[0] == s.anc[j + 1];
    }
  }

  /** A node outside the toggled subtree and ancestor chain keeps its own
      membership and that of its children. */
  lemma OutsideUnchanged(forest: seq<Node>, sel: set<Value>, r: set<Value>, s: Site, t: Site)
    requires Unique(forest) && s in Sites(forest) && t in Sites(forest)
    requires t.node.value !in Subtree(s.node) && t.node.value !in Elems(s.anc)
    requires forall x :: x !in Subtree(s.node) && x !in Elems(s.anc) ==> (x in r <==> x in sel)
    ensures t.node.value in r <==> t.node.value in sel
    ensures ChildValues(t.node) <= r <==> ChildValues(t.node) <= sel
  {
    OutsideChildren(forest, s, t);
  }

  /** If the subtree of `s` is unselected, so is every ancestor of `s`. */
  lemma AncestorUnselected(forest: seq<Node>, sel: set<Value>, s: Site, j: nat)
    requires Unique(forest) && s in Sites(forest) && Consistent(forest, sel)
    requires s.node.value !in sel && j < |s.anc|
    ensures s.anc[j] !in sel
  {
    var p := AncestorSite(forest, s, j);
    SubtreeIff(forest, p, s);
  }

  // ---------------------------------------------------------------------------
  // Toggling keeps a selection settled

  lemma DeselectKeepsSettled(forest: seq<Node>, sel: set<Value>, s: Site)
    requires Unique(forest) && AllTruthy(forest) && s in Sites(forest)
    requires s.node.value in sel && Settled(forest, sel)
    ensures Settled(forest, Toggle(forest, sel, s.node.value))
  {
    FindUnique(forest, s);
    ChainOfTruthy(forest, s);
    var r := Toggle(forest, sel, s.node.value);
    assert r == sel - Subtree(s.node) - Elems(s.anc);
    forall t | t in Sites(forest) && t.node.children != []
      ensures t.node.value in r <==> ChildValues(t.node) <= r
    {
      if t.node.value in Subtree(s.node) {
        SubtreeWithin(forest, s, t);
        ChildrenInSubtree(t.node);
        assert t.node.children[0].value in ChildValues(t.node);
      } else if t.node.value in Elems(s.anc) {
        var j :| 0 <= j < |s.anc| && s.anc[j] == t.node.value;
        var p := PathChild(forest, s, j);
        assert p == t;
        assert s.node.value in Subtree(s.node);
        assert ChildOnPath(s, j) !in r;
      } else {
        OutsideUnchanged(forest, sel, r, s, t);
      }
    }
  }

  lemma SelectKeepsSettled(forest: seq<Node>, sel: set<Value>, s: Site)
    requires Unique(forest) && AllTruthy(forest) && s in Sites(forest)
    requires s.node.value !in sel && Settled(forest, sel)
    ensures Settled(forest, Toggle(forest, sel, s.node.value))
  {
    forall t | t in Sites(forest) && t.node.children != []
      ensures var r := Toggle(forest, sel, s.node.value);
        t.node.value in r <==> ChildValues(t.node) <= r
    {
      SelectSettledAt(forest, sel, s, t);
    }
  }

  /** After selecting `s`, the node `t` is selected exactly when all its
      children are. */
  lemma SelectSettledAt(forest: seq<Node>, sel: set<Value>, s: Site, t: Site)
    requires Unique(forest) && AllTruthy(forest) && s in Sites(forest)
    requires s.node.value !in sel && Settled(forest, sel)
    requires t in Sites(forest) && t.node.children != []
    ensures var r := Toggle(forest, sel, s.node.value);
      t.node.value in r <==> ChildValues(t.node) <= r
  {
    var k := SelectPath(forest, sel, s);
    ChainOfTruthy(forest, s);
    var r := Toggle(forest, sel, s.node.value);
    if t.node.value in Subtree(s.node) {
      SubtreeWithin(forest, s, t);
      ChildrenInSubtree(t.node);
    } else if t.node.value in Elems(s.anc) {
      SettledConsistent(forest, sel);
      SelectOnChain(forest, sel, s, t, r, k);
    } else {
      forall x | x !in Subtree(s.node) && x !in Elems(s.anc)
        ensures x in r <==> x in sel
      {
        ToggleFrame(forest, sel, s, x);
      }
      OutsideUnchanged(forest, sel, r, s, t);
    }
  }

  /** The case of `SelectSettledAt` where `t` is an ancestor of `s`: below the
      stop every ancestor and its children are selected; at the stop and above
      neither the ancestor nor its child on the way down to `s` is. */
  lemma SelectOnChain(forest: seq<Node>, sel: set<Value>, s: Site, t: Site, r: set<Value>, k: nat)
    requires Unique(forest) && s in Sites(forest) && t in Sites(forest)
    requires Consistent(forest, sel) && s.node.value !in sel
    requires t.node.value in Elems(s.anc) && k <= |s.anc|
    requires r == sel + Subtree(s.node) + Elems(s.anc[..k])
    requires forall p :: p in Sites(forest) && p.node.value in Elems(s.anc[..k]) ==> ChildValues(p.node) <= r
    requires k < |s.anc| ==>
      forall p :: p in Sites(forest) && p.node.value == s.anc[k] ==> !(ChildValues(p.node) <= r)
    requires forall i :: k <= i < |s.anc| ==> (s.anc[i] in r <==> s.anc[i] in sel)
    ensures t.node.value in r <==> ChildValues(t.node) <= r
  {
    var j :| 0 <= j < |s.anc| && s.anc[j] == t.node.value;
    var p := PathChild(forest, s, j);
    assert p == t;
    if j < k {
      assert t.node.value in Elems(s.anc[..k]);
    } else {
      AncestorUnselected(forest, sel, s, j);
      if j > k {
        AncestorUnselected(forest, sel, s, j - 1);
        assert ChildOnPath(s, j) !in r;
      }
    }
  }

  /** When no identifier is falsy, toggling keeps a settled selection settled. */
  lemma ToggleKeepsSettled(forest: seq<Node>, sel: set<Value>, v: Value)
    requires Unique(forest) && AllTruthy(forest) && Settled(forest, sel)
    ensures Settled(forest, Toggle(forest, sel, v))
  {
    FindSites(forest, v);
    if Find(forest, v).Some? {
      var s := Find(forest, v).value;
      if v in sel {
        DeselectKeepsSettled(forest, sel, s);
      } else {
        SelectKeepsSettled(forest, sel, s);
      }
    }
  }

  // ---------------------------------------------------------------------------
  // Deselecting and selecting again

  /** The ancestors that the roll-up re-selects were selected before. */
  lemma {:induction false} PrefixSelected(forest: seq<Node>, sel: set<Value>, s: Site,
                                          r: set<Value>, k: nat, j: nat)
    requires Unique(forest) && s in Sites(forest) && Settled(forest, sel)
    requires s.node.value in sel && Subtree(s.node) <= sel
    requires j <= k <= |s.anc|
    requires r <= sel + Elems(s.anc[..k])
    requires forall p :: p in Sites(forest) && p.node.value in Elems(s.anc[..k]) ==> ChildValues(p.node) <= r
    ensures forall i :: 0 <= i < j ==> s.anc[i] in sel
    decreases j
  {
    if j > 0 {
      PrefixSelected(forest, sel, s, r, k, j - 1);
      var p := PathChild(forest, s, j - 1);
      assert s.anc[j - 1] in Elems(s.anc[..k]);
      assert ChildValues(p.node) <= sel;
    }
  }

  /** Deselecting a selected node and selecting it again gives back a settled
      selection (when no identifier is falsy). */
  lemma DeselectThenSelect(forest: seq<Node>, sel: set<Value>, v: Value)
    requires Unique(forest) && AllTruthy(forest) && Settled(forest, sel) && v in sel
    ensures Toggle(forest, Toggle(forest, sel, v), v) == sel
  {
    FindSites(forest, v);
    if Find(forest, v).Some? {
      var s := Find(forest, v).value;
      ChainOfTruthy(forest, s);
      SettledConsistent(forest, sel);
      var r1 := Toggle(forest, sel, v);
      assert r1 == sel - Subtree(s.node) - Elems(s.anc);
      assert v in Subtree(s.node);
      var k := SelectPath(forest, r1, s);
      var r2 := Toggle(forest, r1, v);
      PrefixSelected(forest, sel, s, r2, k, k);
      if k < |s.anc| {
        StopUnselected(forest, sel, s, r1, r2, k);
      }
      forall x | x in sel
        ensures x in r2
      {
        if x in Elems(s.anc) && x !in Subtree(s.node) {
          var j :| 0 <= j < |s.anc| && s.anc[j] == x;
          if j >= k {
            AboveStopUnselected(forest, sel, s, k, j);
          }
          assert x in Elems(s.anc[..k]);
        }
      }
    }
  }

  /** The ancestor where the roll-up stops was not selected before. */
  lemma StopUnselected(forest: seq<Node>, sel: set<Value>, s: Site, r1: set<Value>, r2: set<Value>, k: nat)
    requires Unique(forest) && s in Sites(forest) && Settled(forest, sel)
    requires k < |s.anc|
    requires r1 == sel - Subtree(s.node) - Elems(s.anc)
    requires r2 == r1 + Subtree(s.node) + Elems(s.anc[..k])
    requires forall p :: p in Sites(forest) && p.node.value == s.anc[k] ==> !(ChildValues(p.node) <= r2)
    ensures s.anc[k] !in sel
  {
    var p := PathChild(forest, s, k);
  }

  /** Above an unselected ancestor, a consistent selection has no selected ancestor. */
  lemma AboveStopUnselected(forest: seq<Node>, sel: set<Value>, s: Site, k: nat, j: nat)
    requires Unique(forest) && s in Sites(forest) && Consistent(forest, sel)
    requires k <= j < |s.anc| && s.anc[k] !in sel
    ensures s.anc[j] !in sel
  {
    if j > k {
      var pk := AncestorSite(forest, s, k);
      var q := AncestorSite(forest, pk, j - k - 1);
      assert q.node.value == s.anc[j];
      SubtreeIff(forest, q, pk);
    }
  }
}
