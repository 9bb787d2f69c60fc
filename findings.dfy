/**
  The upward walks of `onSelect` test the parent identifier for truthiness,
  although the index records every parent, `0` and `""` included. A parent
  whose identifier is falsy therefore stops both walks: deselecting its child
  leaves it selected without its whole subtree, and selecting its last
  unselected child does not select it. The walk evidently meant to stop only
  where there is no parent.
 */
module Findings {
  import opened Tree
  import opened Selection
  import opened ToggleFacts

  // ---------------------------------------------------------------------------
  // As written: a forest whose root has the identifier 0

  const Leaf1 := Node(Num(1), [])
  const Root0 := Node(Num(0), [Leaf1])
  const F0 := [Root0]

  lemma SitesOfF0()
    ensures Sites(F0) == {Site(Root0, []), Site(Leaf1, [Num(0)])}
  {
    assert [Num(0)] + [] == [Num(0)];
    assert Root0.children[..0] == [] && F0[..0] == [];
    assert SitesOf(Leaf1, [Num(0)]) == {Site(Leaf1, [Num(0)])};
    assert SitesIn(Root0.children, [Num(0)]) == {Site(Leaf1, [Num(0)])};
    assert SitesOf(Root0, []) == {Site(Root0, [])} + SitesIn(Root0.children, [Num(0)]);
    assert SitesIn(F0, []) == SitesIn(F0[..0], []) + SitesOf(Root0, []);
  }

  lemma FindF0()
    ensures Find(F0, Num(0)) == Some(Site(Root0, []))
    ensures Find(F0, Num(1)) == Some(Site(Leaf1, [Num(0)]))
  {
    assert Root0.children[..0] == [] && F0[..0] == [];
    assert [Num(0)] + [] == [Num(0)];
    assert Locate(Root0.children, [Num(0)], Num(1)) == Some(Site(Leaf1, [Num(0)]));
    assert Locate(F0, [], Num(1)) == LocateIn(Root0, [], Num(1));
    assert Locate(F0, [], Num(0)) == LocateIn(Root0, [], Num(0));
  }

  /** With the root `0` and its only child `1` both selected, deselecting `1`
      leaves `0` selected without its subtree; from the empty selection,
      selecting `1` does not select `0` although all its children are then
      selected. */
  lemma FalsyParentCounterexample()
    ensures Unique(F0) && Consistent(F0, {Num(0), Num(1)})
    ensures Toggle(F0, {Num(0), Num(1)}, Num(1)) == {Num(0)}
    ensures !Consistent(F0, Toggle(F0, {Num(0), Num(1)}, Num(1)))
    ensures Toggle(F0, {}, Num(1)) == {Num(1)}
  {
    SitesOfF0();
    FindF0();
    assert Root0.children[..0] == [];
    assert Subtree(Leaf1) == {Num(1)};
    assert Subtree(Root0) == {Num(0), Num(1)};
    assert Chain([Num(0)]) == [];
    assert Elems([]) == {};
    assert Site(Root0, []) in Sites(F0);
  }

  // ---------------------------------------------------------------------------
  // As intended: the walks follow the whole ancestor chain

  /** Toggling as evidently intended: the upward walks stop only at a root. */
  function ToggleIntended(forest: seq<Node>, sel: set<Value>, v: Value): set<Value>
  {
    match Find(forest, v)
    case None => sel
    case Some(s) => Update(forest, sel, s, s.anc)
  }

  /** With unique identifiers, falsy or not, toggling as intended keeps every
      selected node's whole subtree selected. */
  lemma IntendedKeepsConsistent(forest: seq<Node>, sel: set<Value>, v: Value)
    requires Unique(forest) && Consistent(forest, sel)
    ensures Consistent(forest, ToggleIntended(forest, sel, v))
  {
    if Find(forest, v).Some? {
      FindSites(forest, v);
      UpdateKeepsConsistent(forest, sel, Find(forest, v).value);
    }
  }

  /** On the forest above, the intended toggle clears the root and selects it. */
  lemma IntendedOnF0()
    ensures ToggleIntended(F0, {Num(0), Num(1)}, Num(1)) == {}
    ensures ToggleIntended(F0, {}, Num(1)) == {Num(0), Num(1)}
  {
    FindF0();
    assert Root0.children[..0] == [];
    assert Subtree(Leaf1) == {Num(1)};
    assert Elems([Num(0)]) == {Num(0)};
    assert |Root0.children| == 1 && Root0.children[0] == Leaf1;
    assert ChildValues(Root0) <= {Num(1)};
    assert [Num(0)][1..] == [];
  }

  /** Where no identifier is falsy, the code as written toggles as intended. */
  lemma ToggleMatchesIntended(forest: seq<Node>, sel: set<Value>, v: Value)
    requires AllTruthy(forest)
    ensures Toggle(forest, sel, v) == ToggleIntended(forest, sel, v)
  {
    if Find(forest, v).Some? {
      FindSites(forest, v);
      ChainOfTruthy(forest, Find(forest, v).value);
    }
  }
}
