/**
  What toggling promises: unknown values change nothing; the select path fills
  the subtree and rolls up ancestors whose children are all selected; the
  deselect path clears the subtree and the visited ancestors; nothing else
  changes; and a selection in which every selected node has its whole subtree
  selected stays so (for truthy identifiers).
 */
module ToggleFacts {
  import opened Tree
  import opened Selection

  // ---------------------------------------------------------------------------
  // The roll-up walk

  /** The roll-up selects a prefix of the chain: every ancestor it selects has
      all its direct children selected, and it stops at an ancestor that is
      unknown or has a child left unselected. */
  lemma {:induction false} RollUpShape(forest: seq<Node>, sel: set<Value>, chain: seq<Value>)
    returns (k: nat)
    ensures k <= |chain|
    ensures RollUp(forest, sel, chain) == sel + Elems(chain[..k])
    ensures forall j :: 0 <= j < k ==>
      Find(forest, chain[j]).Some? &&
      ChildValues(Find(forest, chain[j]).value.node) <= RollUp(forest, sel, chain)
    ensures k < |chain| ==>
      Find(forest, chain[k]).None? ||
      !(ChildValues(Find(forest, chain[k]).value.node) <= RollUp(forest, sel, chain))
    decreases |chain|
  {
    k := 0;
    if chain != [] && Find(forest, chain[0]).Some? {
      var p := Find(forest, chain[0]).value;
      if ChildValues(p.node) <= sel {
        var rest := RollUpShape(forest, sel + {chain[0]}, chain[1..]);
        k := rest + 1;
        assert chain[..k] == [chain[0]] + chain[1..][..rest];
        forall j | 0 < j < k
          ensures chain[j] == chain[1..][j - 1]
        {
        }
        assert k < |chain| ==> chain[k] == chain[1..][rest];
      }
    }
  }

  // ---------------------------------------------------------------------------
  // One toggle

  /** An identifier that occurs nowhere in the forest leaves the selection as it is. */
  lemma ToggleUnknown(forest: seq<Node>, sel: set<Value>, v: Value)
    requires v !in Values(forest)
    ensures Toggle(forest, sel, v) == sel
  {
    FindSites(forest, v);
  }

  /** Select path: the node and its whole subtree become selected whatever
      they were before, together with the first `k` ancestors the walk visits;
      each of those has all its direct children selected; the ancestor where
      the walk stops has a child left unselected; and it and every ancestor
      above it keep the membership they had. */
  lemma SelectPath(forest: seq<Node>, sel: set<Value>, s: Site) returns (k: nat)
    requires Unique(forest) && s in Sites(forest) && s.node.value !in sel
    ensures var r, c := Toggle(forest, sel, s.node.value), Chain(s.anc);
      && k <= |c|
      && r == sel + Subtree(s.node) + Elems(c[..k])
      && (forall p :: p in Sites(forest) && p.node.value in Elems(c[..k]) ==> ChildValues(p.node) <= r)
      && (k < |c| ==> forall p :: p in Sites(forest) && p.node.value == c[k] ==> !(ChildValues(p.node) <= r))
      && (forall j :: k <= j < |c| ==> (c[j] in r <==> c[j] in sel))
  {
    FindUnique(forest, s);
    var r, c := Toggle(forest, sel, s.node.value), Chain(s.anc);
    k := RollUpShape(forest, sel + Subtree(s.node), c);
    forall p | p in Sites(forest) && p.node.value in Elems(c[..k])
      ensures ChildValues(p.node) <= r
    {
      var j :| 0 <= j < k && c[j] == p.node.value;
      FindUnique(forest, p);
    }
    if k < |c| {
      var a := AncestorSite(forest, s, k);
      FindUnique(forest, a);
    }
    AncestorsOutsideSubtree(forest, s);
    AncestorsDistinct(forest, s);
    forall j | k <= j < |c|
      ensures c[j] in r <==> c[j] in sel
    {
      assert c[j] == s.anc[j] && c[j] in Elems(s.anc);
      assert c[j] !in Elems(c[..k]);
    }
  }

  /** Deselect path: the node, its whole subtree and every ancestor the walk
      visits end up unselected; when no identifier is falsy, that is every
      ancestor of the node. */
  lemma DeselectPath(forest: seq<Node>, sel: set<Value>, s: Site)
    requires Unique(forest) && s in Sites(forest) && s.node.value in sel
    ensures var r := Toggle(forest, sel, s.node.value);
      && r !! Subtree(s.node)
      && r !! Elems(Chain(s.anc))
      && (AllTruthy(forest) ==> r !! Elems(s.anc))
      && r <= sel
  {
    FindUnique(forest, s);
    if AllTruthy(forest) {
      ChainOfTruthy(forest, s);
    }
  }

  /** On both paths, a value outside the node's subtree and outside the part
      of its ancestor chain that the walk visits keeps its membership. */
  lemma ToggleFrame(forest: seq<Node>, sel: set<Value>, s: Site, x: Value)
    requires Unique(forest) && s in Sites(forest)
    requires x !in Subtree(s.node) && x !in Elems(Chain(s.anc))
    ensures x in Toggle(forest, sel, s.node.value) <==> x in sel
  {
    FindUnique(forest, s);
    if s.node.value !in sel {
      var k := RollUpShape(forest, sel + Subtree(s.node), Chain(s.anc));
      assert Elems(Chain(s.anc)[..k]) <= Elems(Chain(s.anc));
    }
  }

  /** Selecting an unselected node and deselecting it again gives back the
      selection exactly when nothing in its subtree nor on the part of its
      ancestor chain that the walks visit was selected before. */
  lemma SelectThenDeselect(forest: seq<Node>, sel: set<Value>, s: Site)
    requires Unique(forest) && s in Sites(forest) && s.node.value !in sel
    ensures Toggle(forest, Toggle(forest, sel, s.node.value), s.node.value) == sel
      <==> sel !! Subtree(s.node) && sel !! Elems(Chain(s.anc))
  {
    var k := SelectPath(forest, sel, s);
    FindUnique(forest, s);
    var v, c := s.node.value, Chain(s.anc);
    assert v in Subtree(s.node);
    assert Elems(c[..k]) <= Elems(c);
    var r1 := Toggle(forest, sel, v);
    assert Toggle(forest, r1, v) == r1 - Subtree(s.node) - Elems(c);
    assert Toggle(forest, r1, v) == sel - (Subtree(s.node) + Elems(c));
  }

  /** When no identifier is falsy, the upward walks visit the whole ancestor chain. */
  lemma ChainOfTruthy(forest: seq<Node>, s: Site)
    requires AllTruthy(forest) && s in Sites(forest)
    ensures Chain(s.anc) == s.anc
  {
    var c := Chain(s.anc);
    if |c| < |s.anc| {
      var p := AncestorSite(forest, s, |c|);
    }
  }

  /** Selecting the last unselected child of a node whose value is truthy
      selects that node too. */
  lemma LastChildRollsUp(forest: seq<Node>, sel: set<Value>, s: Site, p: Site)
    requires Unique(forest) && s in Sites(forest) && s.node.value !in sel
    requires p in Sites(forest) && s.anc != [] && p.node.value == s.anc[0] && Truthy(p.node.value)
    requires ChildValues(p.node) - {s.node.value} <= sel
    ensures p.node.value in Toggle(forest, sel, s.node.value)
  {
    var k := SelectPath(forest, sel, s);
    var c := Chain(s.anc);
    assert c != [] && c[0] == p.node.value;
    assert s.node.value in Subtree(s.node);
    assert c[0] in Elems(c[..k]);
  }

  // ---------------------------------------------------------------------------
  // The selection invariant

  /** A selected node has its whole subtree selected. */
  ghost predicate Consistent(forest: seq<Node>, sel: set<Value>)
  {
    forall t :: t in Sites(forest) && t.node.value in sel ==> Subtree(t.node) <= sel
  }

  lemma {:induction false} SubtreeInWithin(ns: seq<Node>, r: set<Value>)
    requires forall i :: 0 <= i < |ns| ==> Subtree(ns[i]) <= r
    ensures SubtreeIn(ns) <= r
    decreases |ns|
  {
    if ns != [] {
      SubtreeInWithin(ns[..|ns| - 1], r);
    }
  }

  /** A selected node has its whole subtree selected when every selected node
      has either its whole subtree or all its direct children selected. */
  lemma {:induction false} SubtreeSelected(forest: seq<Node>, r: set<Value>, t: Site)
    requires forall w :: w in Sites(forest) && w.node.value in r ==>
      Subtree(w.node) <= r || ChildValues(w.node) <= r
    requires t in Sites(forest) && t.node.value in r
    ensures Subtree(t.node) <= r
    decreases t.node
  {
    if !(Subtree(t.node) <= r) {
      SitesClosed(forest, t);
      forall i | 0 <= i < |t.node.children|
        ensures Subtree(t.node.children[i]) <= r
      {
        ChildSite(t.node, t.anc, i);
        assert t.node.children[i].value in ChildValues(t.node);
        SubtreeSelected(forest, r, Site(t.node.children[i], [t.node.value] + t.anc));
      }
      SubtreeInWithin(t.node.children, r);
    }
  }

  /** Below a value in a subtree lies a part of that subtree. */
  lemma SubtreeWithin(forest: seq<Node>, s: Site, t: Site)
    requires Unique(forest) && s in Sites(forest) && t in Sites(forest)
    requires t.node.value in Subtree(s.node)
    ensures Subtree(t.node) <= Subtree(s.node)
  {
    SubtreeIff(forest, s, t);
    SitesOfClosed(s.node, s.anc, t);
    SubtreeSites(s.node, s.anc);
    SubtreeSites(t.node, t.anc);
  }

  /** Clearing a subtree and all ancestors keeps the invariant. */
  lemma ClearKeepsConsistent(forest: seq<Node>, sel: set<Value>, s: Site)
    requires Unique(forest) && s in Sites(forest) && Consistent(forest, sel)
    ensures Consistent(forest, sel - Subtree(s.node) - Elems(s.anc))
  {
    var r := sel - Subtree(s.node) - Elems(s.anc);
    forall t | t in Sites(forest) && t.node.value in r
      ensures Subtree(t.node) <= r
    {
      forall y | y in Subtree(t.node)
        ensures y in r
      {
        SubtreeSites(t.node, t.anc);
        SitesClosed(forest, t);
        var u :| u in SitesOf(t.node, t.anc) && u.node.value == y;
        if y in Subtree(s.node) {
          SubtreeIff(forest, s, u);
          Linear(forest, u, t, s);
          SubtreeIff(forest, s, t);
          BelowIff(forest, s, t);
          assert false;
        }
        if y in Elems(s.anc) {
          var j :| 0 <= j < |s.anc| && s.anc[j] == y;
          var p := AncestorSite(forest, s, j);
          SubtreeIff(forest, t, p);
          SitesOfClosed(t.node, t.anc, p);
          BelowIff(forest, s, t);
          assert false;
        }
      }
    }
  }

  /** Filling a subtree and rolling up along the whole ancestor chain keeps
      the invariant. */
  lemma FillKeepsConsistent(forest: seq<Node>, sel: set<Value>, s: Site)
    requires Unique(forest) && s in Sites(forest) && Consistent(forest, sel)
    ensures Consistent(forest, RollUp(forest, sel + Subtree(s.node), s.anc))
  {
    var r := RollUp(forest, sel + Subtree(s.node), s.anc);
    var k := RollUpShape(forest, sel + Subtree(s.node), s.anc);
    forall w | w in Sites(forest) && w.node.value in r
      ensures Subtree(w.node) <= r || ChildValues(w.node) <= r
    {
      if w.node.value in Subtree(s.node) {
        SubtreeWithin(forest, s, w);
      } else if w.node.value !in sel {
        var j :| 0 <= j < k && s.anc[j] == w.node.value;
        FindUnique(forest, w);
      }
    }
    forall t | t in Sites(forest) && t.node.value in r
      ensures Subtree(t.node) <= r
    {
      SubtreeSelected(forest, r, t);
    }
  }

  /** Toggling along the whole ancestor chain keeps the invariant. */
  lemma UpdateKeepsConsistent(forest: seq<Node>, sel: set<Value>, s: Site)
    requires Unique(forest) && s in Sites(forest) && Consistent(forest, sel)
    ensures Consistent(forest, Update(forest, sel, s, s.anc))
  {
    if s.node.value in sel {
      ClearKeepsConsistent(forest, sel, s);
    } else {
      FillKeepsConsistent(forest, sel, s);
    }
  }

  /** When no identifier is falsy, toggling keeps every selected node's whole
      subtree selected. */
  lemma ToggleKeepsConsistent(forest: seq<Node>, sel: set<Value>, v: Value)
    requires Unique(forest) && AllTruthy(forest) && Consistent(forest, sel)
    ensures Consistent(forest, Toggle(forest, sel, v))
  {
    FindSites(forest, v);
    if Find(forest, v).Some? {
      var s := Find(forest, v).value;
      ChainOfTruthy(forest, s);
      UpdateKeepsConsistent(forest, sel, s);
    }
  }
}
