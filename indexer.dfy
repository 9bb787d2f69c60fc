/**
  The memoised index of `TreeViewCheckbox`: a breadth-first walk over the
  forest that records every node under its value (`mapData`) and every
  non-root node's parent value (`parentMapData`).
 */
module Indexer {
  import opened Tree

  /** The two lookup maps the component memoises. */
  datatype Index = Index(mapData: map<Value, Node>, parentMapData: map<Value, Value>)

  /** An entry of the work queue: a node and its parent's value (`null` for a root). */
  datatype QueueItem = QueueItem(item: Node, parentId: Option<Value>)

  /** Queue entries for the nodes `ns`, all with the parent `parentId`. */
  function Tag(ns: seq<Node>, parentId: Option<Value>): (q: seq<QueueItem>)
    ensures |q| == |ns|
    ensures forall i :: 0 <= i < |ns| ==> q[i] == QueueItem(ns[i], parentId)
  {
    if ns == [] then [] else Tag(ns[..|ns| - 1], parentId) + [QueueItem(ns[|ns| - 1], parentId)]
  }

  /** The values of the occurrences that have a parent. */
  function NonRootValuesOf(ss: set<Site>): set<Value>
  {
    set s | s in ss && s.anc != [] :: s.node.value
  }

  /** The (child value, parent value) pairs of the occurrences that have a parent. */
  function EdgesOf(ss: set<Site>): set<(Value, Value)>
  {
    set s | s in ss && s.anc != [] :: (s.node.value, s.anc[0])
  }

  function NodesOf(ss: set<Site>): set<Node>
  {
    set s | s in ss :: s.node
  }

  /** `idx` is the index of `forest`: every occurrence is recorded under its
      value, and a non-root occurrence's parent value under its value; nothing
      else is recorded. */
  ghost predicate IndexOf(idx: Index, forest: seq<Node>)
  {
    && idx.mapData.Keys == Values(forest)
    && (forall s :: s in Sites(forest) ==>
          s.node.value in idx.mapData && idx.mapData[s.node.value] == s.node)
    && idx.parentMapData.Keys == NonRootValuesOf(Sites(forest))
    && (forall s :: s in Sites(forest) && s.anc != [] ==>
          s.node.value in idx.parentMapData && idx.parentMapData[s.node.value] == s.anc[0])
  }

  // ---------------------------------------------------------------------------
  // Ghost bookkeeping for the queue

  /** The parent value recorded for an occurrence with ancestors `anc`. */
  function ParentOf(anc: seq<Value>): Option<Value>
  {
    if anc == [] then None else Some(anc[0])
  }

  /** The occurrences still to be visited: the queued nodes, placed below the
      ancestor chains `paths`, and everything below them. */
  function SitesQ(q: seq<QueueItem>, paths: seq<seq<Value>>): set<Site>
    requires |paths| == |q|
  {
    if q == [] then {} else SitesOf(q[0].item, paths[0]) + SitesQ(q[1..], paths[1..])
  }

  /** The number of nodes still to be visited. */
  function Size(n: Node): nat
  {
    1 + SizeIn(n.children)
  }

  function SizeIn(ns: seq<Node>): nat
  {
    if ns == [] then 0 else SizeIn(ns[..|ns| - 1]) + Size(ns[|ns| - 1])
  }

  function SizeQ(q: seq<QueueItem>): nat
  {
    if q == [] then 0 else Size(q[0].item) + SizeQ(q[1..])
  }

  lemma {:induction false} SizeQConcat(a: seq<QueueItem>, b: seq<QueueItem>)
    ensures SizeQ(a + b) == SizeQ(a) + SizeQ(b)
    decreases |a|
  {
    if a != [] {
      assert (a + b)[0] == a[0] && (a + b)[1..] == a[1..] + b;
      SizeQConcat(a[1..], b);
    } else {
      assert a + b == b;
    }
  }

  lemma {:induction false} SizeQTag(ns: seq<Node>, parentId: Option<Value>)
    ensures SizeQ(Tag(ns, parentId)) == SizeIn(ns)
    decreases |ns|
  {
    if ns != [] {
      SizeQTag(ns[..|ns| - 1], parentId);
      SizeQConcat(Tag(ns[..|ns| - 1], parentId), [QueueItem(ns[|ns| - 1], parentId)]);
    }
  }

  lemma {:induction false} SitesQConcat(a: seq<QueueItem>, pa: seq<seq<Value>>,
                                        b: seq<QueueItem>, pb: seq<seq<Value>>)
    requires |pa| == |a| && |pb| == |b|
    ensures SitesQ(a + b, pa + pb) == SitesQ(a, pa) + SitesQ(b, pb)
    decreases |a|
  {
    if a != [] {
      assert (a + b)[0] == a[0] && (a + b)[1..] == a[1..] + b;
      assert (pa + pb)[0] == pa[0] && (pa + pb)[1..] == pa[1..] + pb;
      SitesQConcat(a[1..], pa[1..], b, pb);
    } else {
      assert a + b == b && pa + pb == pb;
    }
  }

  lemma {:induction false} SitesQTag(ns: seq<Node>, parentId: Option<Value>, anc: seq<Value>)
    ensures SitesQ(Tag(ns, parentId), seq(|ns|, _ => anc)) == SitesIn(ns, anc)
    decreases |ns|
  {
    if ns != [] {
      var init := ns[..|ns| - 1];
      SitesQTag(init, parentId, anc);
      assert seq(|ns|, _ => anc) == seq(|init|, _ => anc) + [anc];
      SitesQConcat(Tag(init, parentId), seq(|init|, _ => anc),
                   [QueueItem(ns[|ns| - 1], parentId)], [anc]);
    }
  }

  /** The maps record exactly the occurrences in `done`: each key is the
      value of such an occurrence and maps to that occurrence's node or
      parent value. */
  ghost predicate Records(done: set<Site>, mapData: map<Value, Node>, parentMapData: map<Value, Value>)
  {
    && mapData.Keys == ValuesOf(done)
    && (forall v :: v in mapData ==> mapData[v].value == v && mapData[v] in NodesOf(done))
    && parentMapData.Keys == NonRootValuesOf(done)
    && (forall v :: v in parentMapData ==> (v, parentMapData[v]) in EdgesOf(done))
  }

  /** Recording one more occurrence, as the loop body does, keeps `Records`. */
  lemma Record(done: set<Site>, mapData: map<Value, Node>, parentMapData: map<Value, Value>, site: Site)
    requires Records(done, mapData, parentMapData)
    ensures var v := site.node.value;
      Records(done + {site}, mapData[v := site.node],
              if site.anc != [] then parentMapData[v := site.anc[0]] else parentMapData)
  {
    var v := site.node.value;
    assert ValuesOf(done + {site}) == ValuesOf(done) + {v};
    assert NodesOf(done + {site}) == NodesOf(done) + {site.node};
    if site.anc != [] {
      assert NonRootValuesOf(done + {site}) == NonRootValuesOf(done) + {v};
      assert EdgesOf(done + {site}) == EdgesOf(done) + {(v, site.anc[0])};
    } else {
      assert NonRootValuesOf(done + {site}) == NonRootValuesOf(done);
      assert EdgesOf(done + {site}) == EdgesOf(done);
    }
  }

  /** Dequeuing the head of the queue and enqueuing its children (an empty
      push when it has none) visits exactly the head's occurrence and leaves
      one node fewer to visit. */
  lemma Advance(q: seq<QueueItem>, paths: seq<seq<Value>>)
    requires |paths| == |q| > 0
    ensures var n, anc := q[0].item, paths[0];
      var q', paths' := q[1..] + Tag(n.children, Some(n.value)),
                        paths[1..] + seq(|n.children|, _ => [n.value] + anc);
      && |paths'| == |q'|
      && SitesQ(q, paths) == {Site(n, anc)} + SitesQ(q', paths')
      && SizeQ(q') < SizeQ(q)
      && (n.children == [] ==> q' == q[1..] && paths' == paths[1..])
  {
    var n, anc := q[0].item, paths[0];
    var pushed, pushedPaths := Tag(n.children, Some(n.value)), seq(|n.children|, _ => [n.value] + anc);
    SitesQTag(n.children, Some(n.value), [n.value] + anc);
    SitesQConcat(q[1..], paths[1..], pushed, pushedPaths);
    SizeQConcat(q[1..], pushed);
    SizeQTag(n.children, Some(n.value));
  }

  // ---------------------------------------------------------------------------
  // The indexer

  /** Breadth-first indexing of `data`, as the component's `useMemo` does it.
      Without any assumption on the identifiers, the maps hold exactly the
      forest's values and non-root values, each entry taken from an occurrence
      of the forest (the last one visited wins); with unique identifiers the
      result is the index of the forest. */
  method BuildIndex(data: seq<Node>) returns (idx: Index)
    ensures idx.mapData.Keys == Values(data)
    ensures forall v :: v in idx.mapData ==>
      idx.mapData[v].value == v && idx.mapData[v] in NodesOf(Sites(data))
    ensures idx.parentMapData.Keys == NonRootValuesOf(Sites(data))
    ensures forall v :: v in idx.parentMapData ==> (v, idx.parentMapData[v]) in EdgesOf(Sites(data))
    ensures Unique(data) ==> IndexOf(idx, data)
  {
    var mapData: map<Value, Node> := map[];
    var parentMapData: map<Value, Value> := map[];
    var queue := Tag(data, None);
    ghost var paths: seq<seq<Value>> := seq(|data|, _ => []);
    ghost var done: set<Site> := {};
    SitesQTag(data, None, []);

    while |queue| > 0
      invariant |paths| == |queue|
      invariant forall i :: 0 <= i < |queue| ==> queue[i].parentId == ParentOf(paths[i])
      invariant Sites(data) == done + SitesQ(queue, paths)
      invariant Records(done, mapData, parentMapData)
      decreases SizeQ(queue)
    {
      var currentData := queue[0];
      ghost var anc := paths[0];
      ghost var site := Site(currentData.item, anc);
      Advance(queue, paths);
      Record(done, mapData, parentMapData, site);
      queue, paths := queue[1..], paths[1..];
      var value := currentData.item.value;

      mapData := mapData[value := currentData.item];
      if currentData.parentId != None {
        parentMapData := parentMapData[value := currentData.parentId.value];
      }
      if |currentData.item.children| > 0 {
        queue := queue + Tag(currentData.item.children, Some(value));
        paths := paths + seq(|currentData.item.children|, _ => [value] + anc);
      }
      done := done + {site};
    }
    idx := Index(mapData, parentMapData);
    if Unique(data) {
      IndexExact(data, idx);
    }
  }

  /** With unique identifiers, the facts `BuildIndex` establishes for any
      forest pin the maps down to the index of the forest. */
  lemma IndexExact(forest: seq<Node>, idx: Index)
    requires Unique(forest)
    requires idx.mapData.Keys == Values(forest)
    requires forall v :: v in idx.mapData ==>
      idx.mapData[v].value == v && idx.mapData[v] in NodesOf(Sites(forest))
    requires idx.parentMapData.Keys == NonRootValuesOf(Sites(forest))
    requires forall v :: v in idx.parentMapData ==> (v, idx.parentMapData[v]) in EdgesOf(Sites(forest))
    ensures IndexOf(idx, forest)
  {
    forall s | s in Sites(forest)
      ensures s.node.value in idx.mapData && idx.mapData[s.node.value] == s.node
    {
      var v := s.node.value;
      assert v in Values(forest);
      var t :| t in Sites(forest) && t.node == idx.mapData[v];
    }
    forall s | s in Sites(forest) && s.anc != []
      ensures s.node.value in idx.parentMapData && idx.parentMapData[s.node.value] == s.anc[0]
    {
      var v := s.node.value;
      assert v in NonRootValuesOf(Sites(forest));
      var t :| t in Sites(forest) && t.anc != [] && (t.node.value, t.anc[0]) == (v, idx.parentMapData[v]);
    }
  }
}
