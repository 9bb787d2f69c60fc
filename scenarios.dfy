/**
  A concrete forest on which toggling a node twice does not give back the
  selection it started from, although the forest is well formed (unique,
  truthy identifiers) and the selection settled.
 */
module Scenarios {
  import opened Tree
  import opened Selection
  import opened Settledness

  const Two := Node(Num(2), [])
  const Three := Node(Num(3), [])
  const One := Node(Num(1), [Two, Three])
  const F2 := [One]

  lemma SitesOfF2()
    ensures Sites(F2) == {Site(One, []), Site(Two, [Num(1)]), Site(Three, [Num(1)])}
  {
    assert [Num(1)] + [] == [Num(1)];
    assert F2[..0] == [] && One.children[..1] == [Two] && [Two][..0] == [];
    assert SitesOf(Two, [Num(1)]) == {Site(Two, [Num(1)])};
    assert SitesOf(Three, [Num(1)]) == {Site(Three, [Num(1)])};
    assert SitesIn([Two], [Num(1)]) == {Site(Two, [Num(1)])};
    assert SitesIn(One.children, [Num(1)]) == {Site(Two, [Num(1)]), Site(Three, [Num(1)])};
    assert SitesOf(One, []) == {Site(One, [])} + SitesIn(One.children, [Num(1)]);
    assert SitesIn(F2, []) == SitesIn(F2[..0], []) + SitesOf(One, []);
  }

  /** With only `2` of the children `2` and `3` of `1` selected, selecting `1`
      selects everything, and deselecting it again clears everything: the
      earlier selection of `2` is lost. */
  lemma NoDoubleToggle()
    ensures Unique(F2) && AllTruthy(F2) && Settled(F2, {Num(2)})
    ensures Toggle(F2, {Num(2)}, Num(1)) == {Num(1), Num(2), Num(3)}
    ensures Toggle(F2, Toggle(F2, {Num(2)}, Num(1)), Num(1)) == {}
  {
    SitesOfF2();
    assert F2[..0] == [] && One.children[..1] == [Two] && [Two][..0] == [];
    assert Unique(F2);
    FindUnique(F2, Site(One, []));
    assert Subtree(Two) == {Num(2)} && Subtree(Three) == {Num(3)};
    assert SubtreeIn([Two]) == {Num(2)};
    assert SubtreeIn(One.children) == {Num(2), Num(3)};
    assert Subtree(One) == {Num(1), Num(2), Num(3)};
    assert Chain([]) == [] && Elems([]) == {};
    assert One.children[1] == Three && Num(3) in ChildValues(One);
  }
}
