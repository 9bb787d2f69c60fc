/**
  The sample forest of the demo page (electronics, phones, laptops,
  furniture), proved to have unique, truthy identifiers, and a short run of
  clicks on it evaluated through `Toggle`, which `OnSelect` computes.
 */
module SampleForest {
  import opened Tree
  import opened Selection

  const Iphone15 := Node(Str("iphone15"), [])
  const Iphone14 := Node(Str("iphone14"), [])
  const S24Pro := Node(Str("samsung-s24-pro"), [])
  const S24Ultra := Node(Str("samsung-s24-ultra"), [])
  const S24 := Node(Str("samsung-s24"), [S24Pro, S24Ultra])
  const Phones := Node(Str("phones"), [Iphone15, Iphone14, S24])
  const Macbook := Node(Str("macbook-pro"), [])
  const Surface := Node(Str("surface"), [])
  const Laptops := Node(Str("laptops"), [Macbook, Surface])
  const Electronics := Node(Str("electronics"), [Phones, Laptops])
  const Sofa := Node(Str("sofa"), [])
  const Desk := Node(Str("desk"), [])
  const Furniture := Node(Str("furniture"), [Sofa, Desk])
  const TreeData := [Electronics, Furniture]

  // ---------------------------------------------------------------------------
  // Unfolding the search on short literal child lists

  lemma LocateLeaf(n: Node, anc: seq<Value>, v: Value)
    requires n.children == []
    ensures LocateIn(n, anc, v) == if n.value == v then Some(Site(n, anc)) else None
  {
  }

  lemma LocateTwo(a: Node, b: Node, anc: seq<Value>, v: Value)
    ensures Locate([a, b], anc, v) ==
      if LocateIn(a, anc, v).Some? then LocateIn(a, anc, v) else LocateIn(b, anc, v)
  {
    assert [a, b][..1] == [a] && [a][..0] == [] && [a, b][1] == b;
    assert Locate([a], anc, v) == LocateIn(a, anc, v);
  }

  lemma LocateThree(a: Node, b: Node, c: Node, anc: seq<Value>, v: Value)
    ensures Locate([a, b, c], anc, v) ==
      if LocateIn(a, anc, v).Some? then LocateIn(a, anc, v)
      else if LocateIn(b, anc, v).Some? then LocateIn(b, anc, v)
      else LocateIn(c, anc, v)
  {
    assert [a, b, c][..2] == [a, b];
    LocateTwo(a, b, anc, v);
  }

  const E := [Str("electronics")]
  const PE := [Str("phones"), Str("electronics")]
  const SPE := [Str("samsung-s24"), Str("phones"), Str("electronics")]
  const LE := [Str("laptops"), Str("electronics")]
  const F := [Str("furniture")]

  /** Where the search finds each identifier of the sample forest. */
  lemma FindSample(v: Value)
    ensures Find(TreeData, v) ==
      if v == Str("electronics") then Some(Site(Electronics, []))
      else if v == Str("phones") then Some(Site(Phones, E))
      else if v == Str("iphone15") then Some(Site(Iphone15, PE))
      else if v == Str("iphone14") then Some(Site(Iphone14, PE))
      else if v == Str("samsung-s24") then Some(Site(S24, PE))
      else if v == Str("samsung-s24-pro") then Some(Site(S24Pro, SPE))
      else if v == Str("samsung-s24-ultra") then Some(Site(S24Ultra, SPE))
      else if v == Str("laptops") then Some(Site(Laptops, E))
      else if v == Str("macbook-pro") then Some(Site(Macbook, LE))
      else if v == Str("surface") then Some(Site(Surface, LE))
      else if v == Str("furniture") then Some(Site(Furniture, []))
      else if v == Str("sofa") then Some(Site(Sofa, F))
      else if v == Str("desk") then Some(Site(Desk, F))
      else None
  {
    assert [Str("electronics")] + [] == E && [Str("furniture")] + [] == F;
    assert [Str("phones")] + E == PE && [Str("laptops")] + E == LE && [Str("samsung-s24")] + PE == SPE;
    LocateLeaf(Iphone15, PE, v); LocateLeaf(Iphone14, PE, v);
    LocateLeaf(S24Pro, SPE, v); LocateLeaf(S24Ultra, SPE, v);
    LocateLeaf(Macbook, LE, v); LocateLeaf(Surface, LE, v);
    LocateLeaf(Sofa, F, v); LocateLeaf(Desk, F, v);
    LocateTwo(S24Pro, S24Ultra, SPE, v);
    LocateThree(Iphone15, Iphone14, S24, PE, v);
    LocateTwo(Macbook, Surface, LE, v);
    LocateTwo(Phones, Laptops, E, v);
    LocateTwo(Sofa, Desk, F, v);
    LocateTwo(Electronics, Furniture, [], v);
  }

  // ---------------------------------------------------------------------------
  // The sample forest is well formed

  lemma SitesLeaf(n: Node, anc: seq<Value>)
    requires n.children == []
    ensures SitesOf(n, anc) == {Site(n, anc)}
  {
  }

  lemma SitesTwo(a: Node, b: Node, anc: seq<Value>)
    ensures SitesIn([a, b], anc) == SitesOf(a, anc) + SitesOf(b, anc)
  {
    assert [a, b][..1] == [a] && [a][..0] == [] && [a, b][1] == b;
    assert SitesIn([a], anc) == SitesOf(a, anc);
  }

  lemma SitesThree(a: Node, b: Node, c: Node, anc: seq<Value>)
    ensures SitesIn([a, b, c], anc) == SitesOf(a, anc) + SitesOf(b, anc) + SitesOf(c, anc)
  {
    assert [a, b, c][..2] == [a, b];
    SitesTwo(a, b, anc);
  }

  lemma SitesPhones()
    ensures SitesOf(Phones, E) == {Site(Phones, E), Site(Iphone15, PE), Site(Iphone14, PE),
      Site(S24, PE), Site(S24Pro, SPE), Site(S24Ultra, SPE)}
  {
    assert [Str("phones")] + E == PE && [Str("samsung-s24")] + PE == SPE;
    SitesLeaf(S24Pro, SPE); SitesLeaf(S24Ultra, SPE);
    SitesTwo(S24Pro, S24Ultra, SPE);
    SitesLeaf(Iphone15, PE); SitesLeaf(Iphone14, PE);
    SitesThree(Iphone15, Iphone14, S24, PE);
  }

  lemma SitesLaptops()
    ensures SitesOf(Laptops, E) == {Site(Laptops, E), Site(Macbook, LE), Site(Surface, LE)}
  {
    assert [Str("laptops")] + E == LE;
    SitesLeaf(Macbook, LE); SitesLeaf(Surface, LE);
    SitesTwo(Macbook, Surface, LE);
  }

  lemma SitesFurniture()
    ensures SitesOf(Furniture, []) == {Site(Furniture, []), Site(Sofa, F), Site(Desk, F)}
  {
    assert [Str("furniture")] + [] == F;
    SitesLeaf(Sofa, F); SitesLeaf(Desk, F);
    SitesTwo(Sofa, Desk, F);
  }

  lemma SitesSample()
    ensures Sites(TreeData) ==
      {Site(Electronics, [])} + SitesOf(Phones, E) + SitesOf(Laptops, E) + SitesOf(Furniture, [])
  {
    assert [Str("electronics")] + [] == E;
    SitesTwo(Phones, Laptops, E);
    SitesTwo(Electronics, Furniture, []);
  }

  /** Every occurrence in `ss` is found under its own value, which is truthy. */
  ghost predicate Found(ss: set<Site>)
  {
    forall s :: s in ss ==> Find(TreeData, s.node.value) == Some(s) && Truthy(s.node.value)
  }

  lemma FoundPhones()
    ensures Found(SitesOf(Phones, E))
  {
    SitesPhones();
    FindSample(Str("phones")); FindSample(I15); FindSample(I14);
    FindSample(Sam); FindSample(SamPro); FindSample(SamUltra);
  }

  lemma FoundLaptops()
    ensures Found(SitesOf(Laptops, E))
  {
    SitesLaptops();
    FindSample(Str("laptops")); FindSample(Str("macbook-pro")); FindSample(Str("surface"));
  }

  lemma FoundFurniture()
    ensures Found(SitesOf(Furniture, []))
  {
    SitesFurniture();
    FindSample(Str("furniture")); FindSample(Str("sofa")); FindSample(Str("desk"));
  }

  /** The sample forest has unique, truthy identifiers, so every promise made
      for such forests (and `OnSelect`'s contract) applies to it. */
  lemma SampleWellFormed()
    ensures Unique(TreeData) && AllTruthy(TreeData)
  {
    SitesSample();
    FindSample(Str("electronics"));
    FoundPhones(); FoundLaptops(); FoundFurniture();
    assert Found(Sites(TreeData));
    FoundUnique(TreeData);
  }

  // ---------------------------------------------------------------------------
  // A run of clicks

  lemma ChildValuesTwo(n: Node)
    requires |n.children| == 2
    ensures ChildValues(n) == {n.children[0].value, n.children[1].value}
  {
    assert n.children[0].value in ChildValues(n) && n.children[1].value in ChildValues(n);
  }

  lemma ChildValuesThree(n: Node)
    requires |n.children| == 3
    ensures ChildValues(n) == {n.children[0].value, n.children[1].value, n.children[2].value}
  {
    assert n.children[0].value in ChildValues(n) && n.children[1].value in ChildValues(n);
    assert n.children[2].value in ChildValues(n);
  }

  lemma SubtreeTwoLeaves(n: Node)
    requires |n.children| == 2 && n.children[0].children == [] && n.children[1].children == []
    ensures Subtree(n) == {n.value, n.children[0].value, n.children[1].value}
  {
    var a, b := n.children[0], n.children[1];
    assert n.children[..1] == [a] && [a][..0] == [];
    assert Subtree(a) == {a.value} && Subtree(b) == {b.value};
    assert SubtreeIn([a]) == Subtree(a);
    assert SubtreeIn(n.children) == Subtree(a) + Subtree(b);
  }

  lemma ChainSample()
    ensures Chain(PE) == PE && Chain(E) == E
  {
    assert PE[1..] == E && E[1..] == [];
  }

  const I15 := Str("iphone15")
  const I14 := Str("iphone14")
  const Sam := Str("samsung-s24")
  const SamPro := Str("samsung-s24-pro")
  const SamUltra := Str("samsung-s24-ultra")

  /** Selecting the two iPhones leaves `phones` unselected: its third child
      `samsung-s24` is not selected. */
  lemma SelectTwoPhones()
    ensures Toggle(TreeData, {}, I15) == {I15}
    ensures Toggle(TreeData, {I15}, I14) == {I15, I14}
  {
    FindSample(I15); FindSample(I14); FindSample(Str("phones"));
    ChainSample();
    ChildValuesThree(Phones);
    assert Subtree(Iphone15) == {I15} && Subtree(Iphone14) == {I14};
  }

  /** Then selecting `samsung-s24` selects its two models and rolls up to
      `phones`, but not to `electronics`, whose `laptops` is unselected. */
  lemma SelectSamsung()
    ensures Toggle(TreeData, {I15, I14}, Sam) == {I15, I14, Sam, SamPro, SamUltra, Str("phones")}
  {
    FindSample(Sam); FindSample(Str("phones")); FindSample(Str("electronics"));
    ChainSample();
    ChildValuesThree(Phones);
    ChildValuesTwo(Electronics);
    SubtreeTwoLeaves(S24);
  }

  /** Deselecting `iphone15` then clears it and `phones`. */
  lemma DeselectIphone()
    ensures Toggle(TreeData, {I15, I14, Sam, SamPro, SamUltra, Str("phones")}, I15)
      == {I14, Sam, SamPro, SamUltra}
  {
    FindSample(I15);
    ChainSample();
    assert Subtree(Iphone15) == {I15};
  }

  /** Selecting `laptops` instead completes `electronics`, which rolls up too. */
  lemma SelectLaptops()
    ensures Toggle(TreeData, {I15, I14, Sam, SamPro, SamUltra, Str("phones")}, Str("laptops"))
      == {I15, I14, Sam, SamPro, SamUltra, Str("phones"),
          Str("laptops"), Str("macbook-pro"), Str("surface"), Str("electronics")}
  {
    FindSample(Str("laptops")); FindSample(Str("electronics"));
    ChainSample();
    ChildValuesTwo(Electronics);
    SubtreeTwoLeaves(Laptops);
  }
}
