/**
  The forest that the checkbox tree is built from: identifiers, nodes, and the
  ghost vocabulary (occurrences of nodes together with their ancestor chains)
  in which the indexer and the selection engine are specified.
 */
module Tree {

  datatype Option<T> = None | Some(value: T)

  /** A node identifier: TypeScript `string | number` (numbers are integers here). */
  datatype Value = Str(s: string) | Num(n: int)

  /** JavaScript truthiness of an identifier: the empty string and 0 are falsy. */
  predicate Truthy(v: Value)
  {
    match v
    case Str(s) => s != ""
    case Num(n) => n != 0
  }

  /** `TreeViewNodeData`; the display-only label is dropped and an absent
      `children` field is the empty sequence. */
  datatype Node = Node(value: Value, children: seq<Node>)

  /** The values of a node and of all its descendants. */
  function Subtree(n: Node): set<Value>
  {
    {n.value} + SubtreeIn(n.children)
  }

  function SubtreeIn(ns: seq<Node>): set<Value>
  {
    if ns == [] then {} else SubtreeIn(ns[..|ns| - 1]) + Subtree(ns[|ns| - 1])
  }

  /** The values of the direct children of a node. */
  function ChildValues(n: Node): set<Value>
  {
    set i | 0 <= i < |n.children| :: n.children[i].value
  }

  function Elems(s: seq<Value>): set<Value>
  {
    set x | x in s
  }

  /** One occurrence of a node in a forest: the node and the values of its
      ancestors, nearest (the parent) first and a root last. */
  datatype Site = Site(node: Node, anc: seq<Value>)

  /** The occurrences of `n`, placed below `anc`, and of all its descendants. */
  function SitesOf(n: Node, anc: seq<Value>): set<Site>
  {
    {Site(n, anc)} + SitesIn(n.children, [n.value] + anc)
  }

  function SitesIn(ns: seq<Node>, anc: seq<Value>): set<Site>
  {
    if ns == [] then {} else SitesIn(ns[..|ns| - 1], anc) + SitesOf(ns[|ns| - 1], anc)
  }

  /** Every node of a forest at any depth, with its ancestor chain. */
  function Sites(forest: seq<Node>): set<Site>
  {
    SitesIn(forest, [])
  }

  function ValuesOf(ss: set<Site>): set<Value>
  {
    set s | s in ss :: s.node.value
  }

  /** The identifiers used anywhere in a forest. */
  function Values(forest: seq<Node>): set<Value>
  {
    ValuesOf(Sites(forest))
  }

  /** Identifiers are unique: two occurrences with the same value are the same
      occurrence (same node, same ancestors). Exact duplicate copies of a
      subtree at the same place are one occurrence, and behave as one. */
  ghost predicate Unique(forest: seq<Node>)
  {
    forall s, t :: s in Sites(forest) && t in Sites(forest) && s.node.value == t.node.value ==> s == t
  }

  /** Every identifier in the forest is truthy (no "" and no 0). */
  ghost predicate AllTruthy(forest: seq<Node>)
  {
    forall s :: s in Sites(forest) ==> Truthy(s.node.value)
  }

  /** Depth-first search for the occurrence of `v`. */
  function Locate(ns: seq<Node>, anc: seq<Value>, v: Value): Option<Site>
  {
    if ns == [] then None
    else
      match Locate(ns[..|ns| - 1], anc, v)
      case Some(s) => Some(s)
      case None => LocateIn(ns[|ns| - 1], anc, v)
  }

  function LocateIn(n: Node, anc: seq<Value>, v: Value): Option<Site>
  {
    if n.value == v then Some(Site(n, anc)) else Locate(n.children, [n.value] + anc, v)
  }

  /** The occurrence of `v` in `forest`, if any. */
  function Find(forest: seq<Node>, v: Value): Option<Site>
  {
    Locate(forest, [], v)
  }

  // ---------------------------------------------------------------------------
  // Structure of the occurrence sets

  lemma SitesInHas(ns: seq<Node>, anc: seq<Value>, i: nat)
    requires i < |ns|
    ensures SitesOf(ns[i], anc) <= SitesIn(ns, anc)
    decreases |ns|
  {
    if i < |ns| - 1 {
      SitesInHas(ns[..|ns| - 1], anc, i);
    }
  }

  lemma SitesInMember(ns: seq<Node>, anc: seq<Value>, t: Site) returns (i: nat)
    requires t in SitesIn(ns, anc)
    ensures i < |ns| && t in SitesOf(ns[i], anc)
    decreases |ns|
  {
    if t in SitesOf(ns[|ns| - 1], anc) {
      i := |ns| - 1;
    } else {
      i := SitesInMember(ns[..|ns| - 1], anc, t);
    }
  }

  /** An occurrence below `n` has `n` and the ancestors of `n` as the tail of its
      own ancestor chain. */
  lemma {:induction false} SitesOfAnc(n: Node, anc: seq<Value>, t: Site)
    requires t in SitesOf(n, anc)
    ensures t == Site(n, anc) ||
      (|t.anc| > |anc| && t.anc[|t.anc| - |anc| - 1..] == [n.value] + anc)
    decreases n
  {
    if t != Site(n, anc) {
      var i := SitesInMember(n.children, [n.value] + anc, t);
      SitesOfAnc(n.children[i], [n.value] + anc, t);
    }
  }

  /** An occurrence below `n` has a parent occurrence below `n` whose node lists
      it among its children. */
  lemma {:induction false} ParentSiteOf(n: Node, anc: seq<Value>, t: Site) returns (p: Site)
    requires t in SitesOf(n, anc) && t != Site(n, anc)
    ensures p in SitesOf(n, anc)
    ensures t.anc != [] && p.node.value == t.anc[0] && p.anc == t.anc[1..]
    ensures t.node in p.node.children
    decreases n
  {
    var i := SitesInMember(n.children, [n.value] + anc, t);
    var c := n.children[i];
    SitesInHas(n.children, [n.value] + anc, i);
    if t == Site(c, [n.value] + anc) {
      p := Site(n, anc);
    } else {
      p := ParentSiteOf(c, [n.value] + anc, t);
    }
  }

  /** Every non-root occurrence of a forest has its parent's occurrence in the forest. */
  lemma ParentSite(forest: seq<Node>, t: Site) returns (p: Site)
    requires t in Sites(forest) && t.anc != []
    ensures p in Sites(forest)
    ensures p.node.value == t.anc[0] && p.anc == t.anc[1..]
    ensures t.node in p.node.children
  {
    var i := SitesInMember(forest, [], t);
    SitesInHas(forest, [], i);
    p := ParentSiteOf(forest[i], [], t);
  }

  /** The occurrences below an occurrence are occurrences of the enclosing tree. */
  lemma {:induction false} SitesOfClosed(n: Node, anc: seq<Value>, t: Site)
    requires t in SitesOf(n, anc)
    ensures SitesOf(t.node, t.anc) <= SitesOf(n, anc)
    decreases n
  {
    if t != Site(n, anc) {
      var i := SitesInMember(n.children, [n.value] + anc, t);
      SitesOfClosed(n.children[i], [n.value] + anc, t);
      SitesInHas(n.children, [n.value] + anc, i);
    }
  }

  lemma SitesClosed(forest: seq<Node>, t: Site)
    requires t in Sites(forest)
    ensures SitesOf(t.node, t.anc) <= Sites(forest)
  {
    var i := SitesInMember(forest, [], t);
    SitesOfClosed(forest[i], [], t);
    SitesInHas(forest, [], i);
  }

  /** The subtree of a node is exactly the set of values occurring below it. */
  lemma {:induction false} SubtreeSites(n: Node, anc: seq<Value>)
    ensures Subtree(n) == ValuesOf(SitesOf(n, anc))
    decreases n, 1
  {
    SubtreeInSites(n.children, [n.value] + anc);
  }

  lemma {:induction false} SubtreeInSites(ns: seq<Node>, anc: seq<Value>)
    ensures SubtreeIn(ns) == ValuesOf(SitesIn(ns, anc))
    decreases ns, 0
  {
    if ns != [] {
      SubtreeInSites(ns[..|ns| - 1], anc);
      SubtreeSites(ns[|ns| - 1], anc);
    }
  }

  // ---------------------------------------------------------------------------
  // The search finds exactly the occurrences

  lemma {:induction false} LocateSound(ns: seq<Node>, anc: seq<Value>, v: Value)
    ensures Locate(ns, anc, v).Some? ==>
      Locate(ns, anc, v).value in SitesIn(ns, anc) && Locate(ns, anc, v).value.node.value == v
    decreases ns, 0
  {
    if ns != [] {
      LocateSound(ns[..|ns| - 1], anc, v);
      LocateInSound(ns[|ns| - 1], anc, v);
    }
  }

  lemma {:induction false} LocateInSound(n: Node, anc: seq<Value>, v: Value)
    ensures LocateIn(n, anc, v).Some? ==>
      LocateIn(n, anc, v).value in SitesOf(n, anc) && LocateIn(n, anc, v).value.node.value == v
    decreases n, 1
  {
    if n.value != v {
      LocateSound(n.children, [n.value] + anc, v);
    }
  }

  lemma {:induction false} LocateComplete(ns: seq<Node>, anc: seq<Value>, t: Site)
    requires t in SitesIn(ns, anc)
    ensures Locate(ns, anc, t.node.value).Some?
    decreases ns, 0
  {
    if Locate(ns[..|ns| - 1], anc, t.node.value).None? {
      if t in SitesOf(ns[|ns| - 1], anc) {
        LocateInComplete(ns[|ns| - 1], anc, t);
      } else {
        LocateComplete(ns[..|ns| - 1], anc, t);
      }
    }
  }

  lemma {:induction false} LocateInComplete(n: Node, anc: seq<Value>, t: Site)
    requires t in SitesOf(n, anc)
    ensures LocateIn(n, anc, t.node.value).Some?
    decreases n, 1
  {
    if n.value != t.node.value {
      LocateComplete(n.children, [n.value] + anc, t);
    }
  }

  /** `Find` reports an identifier exactly when it occurs, and then its occurrence. */
  lemma FindSites(forest: seq<Node>, v: Value)
    ensures Find(forest, v).Some? <==> v in Values(forest)
    ensures Find(forest, v).Some? ==>
      Find(forest, v).value in Sites(forest) && Find(forest, v).value.node.value == v
  {
    LocateSound(forest, [], v);
    if v in Values(forest) {
      var t :| t in Sites(forest) && t.node.value == v;
      LocateComplete(forest, [], t);
    }
  }

  /** With unique identifiers, `Find` returns the one occurrence of a value. */
  lemma FindUnique(forest: seq<Node>, s: Site)
    requires Unique(forest) && s in Sites(forest)
    ensures Find(forest, s.node.value) == Some(s)
  {
    FindSites(forest, s.node.value);
  }

  /** Identifiers are unique exactly when the search finds every occurrence
      under its own value (both directions). */
  lemma FoundUnique(forest: seq<Node>)
    ensures Unique(forest) <==>
      forall s :: s in Sites(forest) ==> Find(forest, s.node.value) == Some(s)
  {
    if Unique(forest) {
      forall s | s in Sites(forest)
        ensures Find(forest, s.node.value) == Some(s)
      {
        FindUnique(forest, s);
      }
    }
  }

  // ---------------------------------------------------------------------------
  // Ancestors

  lemma ChildSite(n: Node, anc: seq<Value>, i: nat)
    requires i < |n.children|
    ensures Site(n.children[i], [n.value] + anc) in SitesOf(n, anc)
  {
    SitesInHas(n.children, [n.value] + anc, i);
  }

  /** The `j`-th value of an occurrence's ancestor chain is the value of an
      occurrence of the forest whose own chain is the rest, and whose subtree
      holds the first occurrence. */
  lemma {:induction false} AncestorSite(forest: seq<Node>, s: Site, j: nat) returns (p: Site)
    requires s in Sites(forest) && j < |s.anc|
    ensures p in Sites(forest) && p.node.value == s.anc[j] && p.anc == s.anc[j + 1..]
    ensures s in SitesOf(p.node, p.anc) && s != p
    decreases j
  {
    var q := ParentSite(forest, s);
    var i :| 0 <= i < |q.node.children| && q.node.children[i] == s.node;
    ChildSite(q.node, q.anc, i);
    assert s == Site(q.node.children[i], [q.node.value] + q.anc);
    if j == 0 {
      p := q;
    } else {
      p := AncestorSite(forest, q, j - 1);
      SitesOfClosed(p.node, p.anc, q);
    }
  }

  /** With unique identifiers, no ancestor of a node lies in the node's subtree. */
  lemma AncestorsOutsideSubtree(forest: seq<Node>, s: Site)
    requires Unique(forest) && s in Sites(forest)
    ensures Elems(s.anc) !! Subtree(s.node)
  {
    SubtreeSites(s.node, s.anc);
    SitesClosed(forest, s);
    forall j | 0 <= j < |s.anc|
      ensures s.anc[j] !in Subtree(s.node)
    {
      var p := AncestorSite(forest, s, j);
      if s.anc[j] in Subtree(s.node) {
        var u :| u in SitesOf(s.node, s.anc) && u.node.value == s.anc[j];
        SitesOfAnc(s.node, s.anc, u);
      }
    }
  }

  /** With unique identifiers, the ancestor chain has no repetition. */
  lemma AncestorsDistinct(forest: seq<Node>, s: Site)
    requires Unique(forest) && s in Sites(forest)
    ensures forall i, j :: 0 <= i < j < |s.anc| ==> s.anc[i] != s.anc[j]
  {
    forall i, j | 0 <= i < j < |s.anc|
      ensures s.anc[i] != s.anc[j]
    {
      var p := AncestorSite(forest, s, i);
      var q := AncestorSite(forest, s, j);
      assert |p.anc| != |q.anc|;
    }
  }

  /** With unique identifiers, an occurrence lies below another exactly when
      it is that occurrence or has the other's value among its ancestors. */
  lemma BelowIff(forest: seq<Node>, u: Site, t: Site)
    requires Unique(forest) && u in Sites(forest) && t in Sites(forest)
    ensures u in SitesOf(t.node, t.anc) <==> u == t || t.node.value in Elems(u.anc)
  {
    if u in SitesOf(t.node, t.anc) && u != t {
      SitesOfAnc(t.node, t.anc, u);
      assert u.anc[|u.anc| - |t.anc| - 1] == t.node.value;
    }
    if u != t && t.node.value in Elems(u.anc) {
      var i :| 0 <= i < |u.anc| && u.anc[i] == t.node.value;
      var p := AncestorSite(forest, u, i);
    }
  }

  /** With unique identifiers, a value lies in the subtree of an occurrence
      exactly when its own occurrence lies below that occurrence. */
  lemma SubtreeIff(forest: seq<Node>, t: Site, u: Site)
    requires Unique(forest) && t in Sites(forest) && u in Sites(forest)
    ensures u.node.value in Subtree(t.node) <==> u in SitesOf(t.node, t.anc)
  {
    SubtreeSites(t.node, t.anc);
    SitesClosed(forest, t);
    if u.node.value in Subtree(t.node) {
      var w :| w in SitesOf(t.node, t.anc) && w.node.value == u.node.value;
    }
  }

  /** The occurrences above a given occurrence form a chain: of two of them,
      one lies below the other. */
  lemma Linear(forest: seq<Node>, u: Site, t: Site, s: Site)
    requires Unique(forest) && u in Sites(forest) && t in Sites(forest) && s in Sites(forest)
    requires u in SitesOf(t.node, t.anc) && u in SitesOf(s.node, s.anc)
    ensures t in SitesOf(s.node, s.anc) || s in SitesOf(t.node, t.anc)
  {
    if u != t && u != s && t != s {
      BelowIff(forest, u, t);
      BelowIff(forest, u, s);
      var i :| 0 <= i < |u.anc| && u.anc[i] == t.node.value;
      var j :| 0 <= j < |u.anc| && u.anc[j] == s.node.value;
      var pt := AncestorSite(forest, u, i);
      var ps := AncestorSite(forest, u, j);
      assert pt == t && ps == s;
      if i < j {
        assert t.anc[j - i - 1] == s.node.value;
        BelowIff(forest, t, s);
      } else {
        assert s.anc[i - j - 1] == t.node.value;
        BelowIff(forest, s, t);
      }
    }
  }
}
