/**
  The selection engine of `TreeViewCheckbox` (`onSelect`): toggling one value
  fills or clears its subtree and then walks up the parent chain.
 */
module Selection {
  import opened Tree
  import opened Indexer

  /** A JavaScript `Set` of selected values, updated in place by `add` and
      `delete`. */
  class SelectionSet {
    var elems: set<Value>

    /** `new Set(values)`. */
    constructor (values: set<Value>)
      ensures elems == values
    {
      elems := values;
    }

    /** `has`: is `v` selected? */
    predicate Has(v: Value)
      reads this
    {
      v in elems
    }

    method Add(v: Value)
      modifies this
      ensures elems == old(elems) + {v}
    {
      elems := elems + {v};
    }

    method Delete(v: Value)
      modifies this
      ensures elems == old(elems) - {v}
    {
      elems := elems - {v};
    }
  }

  /** `Map.get`: `undefined` (here `None`) for a missing key. */
  function Get<K, V>(m: map<K, V>, k: K): (r: Option<V>)
    ensures r.Some? <==> k in m
    ensures r.Some? ==> r.value == m[k]
  {
    if k in m then Some(m[k]) else None
  }

  // ---------------------------------------------------------------------------
  // Specification

  /** The part of an ancestor chain that the upward walks visit: they stop at
      the first parent value that is falsy (`if (parentId)`). */
  function Chain(anc: seq<Value>): (c: seq<Value>)
    ensures |c| <= |anc| && c == anc[..|c|]
    ensures forall j :: 0 <= j < |c| ==> Truthy(c[j])
    ensures |c| < |anc| ==> !Truthy(anc[|c|])
  {
    if anc == [] || !Truthy(anc[0]) then [] else [anc[0]] + Chain(anc[1..])
  }

  /** The upward walk of the select path, started with the selection `sel`:
      each ancestor in `chain` whose direct children are all selected is
      selected in turn; the walk stops at the first one that fails the test
      (or that is unknown). */
  function RollUp(forest: seq<Node>, sel: set<Value>, chain: seq<Value>): (r: set<Value>)
    ensures sel <= r
    ensures forall x :: x in r ==> x in sel || x in chain
    decreases |chain|
  {
    if chain == [] then sel
    else
      match Find(forest, chain[0])
      case None => sel
      case Some(p) =>
        if ChildValues(p.node) <= sel then RollUp(forest, sel + {chain[0]}, chain[1..]) else sel
  }

  /** Toggling the value of the occurrence `s` when the upward walk visits the
      ancestors `walk`: a selected value loses its subtree and every visited
      ancestor; an unselected one gains its subtree and then the roll-up. */
  function Update(forest: seq<Node>, sel: set<Value>, s: Site, walk: seq<Value>): set<Value>
  {
    if s.node.value in sel then sel - Subtree(s.node) - Elems(walk)
    else RollUp(forest, sel + Subtree(s.node), walk)
  }

  /** The selection after toggling `v` in `sel`, stated on the forest itself:
      an unknown value changes nothing; a known one is updated along the part
      of its ancestor chain that the walks visit. */
  function Toggle(forest: seq<Node>, sel: set<Value>, v: Value): (r: set<Value>)
    ensures Find(forest, v).Some? ==> (v in r <==> v !in sel)
  {
    FindSites(forest, v);
    match Find(forest, v)
    case None => sel
    case Some(s) => Update(forest, sel, s, Chain(s.anc))
  }

  // ---------------------------------------------------------------------------
  // The index seen from an occurrence

  /** A value found in `mapData` is found in the forest, at the node stored for it. */
  lemma KnownValue(forest: seq<Node>, idx: Index, v: Value)
    requires IndexOf(idx, forest)
    ensures v in idx.mapData <==> Find(forest, v).Some?
    ensures v in idx.mapData ==>
      Find(forest, v).value in Sites(forest) && Find(forest, v).value.node == idx.mapData[v]
  {
    FindSites(forest, v);
  }

  /** One step up the parent chain, read from the index. */
  lemma ParentStep(forest: seq<Node>, idx: Index, c: Site)
    requires Unique(forest) && IndexOf(idx, forest) && c in Sites(forest)
    ensures c.node.value in idx.parentMapData <==> c.anc != []
    ensures c.anc != [] ==>
      && idx.parentMapData[c.node.value] == c.anc[0]
      && c.anc[0] in idx.mapData
      && Find(forest, c.anc[0]).Some?
      && Find(forest, c.anc[0]).value in Sites(forest)
      && Find(forest, c.anc[0]).value.anc == c.anc[1..]
      && Find(forest, c.anc[0]).value.node == idx.mapData[c.anc[0]]
  {
    if c.anc != [] {
      var p := ParentSite(forest, c);
      FindUnique(forest, p);
    }
  }

  // ---------------------------------------------------------------------------
  // The operation

  /** `removeChildren`: deselect `item` and everything below it. */
  method RemoveChildren(sel: SelectionSet, item: Node)
    modifies sel
    ensures sel.elems == old(sel.elems) - Subtree(item)
    decreases item
  {
    sel.Delete(item.value);
    if |item.children| > 0 {
      for i := 0 to |item.children|
        invariant sel.elems == old(sel.elems) - {item.value} - SubtreeIn(item.children[..i])
      {
        assert item.children[..i + 1][..i] == item.children[..i];
        RemoveChildren(sel, item.children[i]);
      }
      assert item.children[..|item.children|] == item.children;
    }
  }

  /** `addChildren`: select `item` and everything below it. */
  method AddChildren(sel: SelectionSet, item: Node)
    modifies sel
    ensures sel.elems == old(sel.elems) + Subtree(item)
    decreases item
  {
    sel.Add(item.value);
    if |item.children| > 0 {
      for i := 0 to |item.children|
        invariant sel.elems == old(sel.elems) + {item.value} + SubtreeIn(item.children[..i])
      {
        assert item.children[..i + 1][..i] == item.children[..i];
        AddChildren(sel, item.children[i]);
      }
      assert item.children[..|item.children|] == item.children;
    }
  }

  /** `children.every((item) => sel.has(item.value))`. */
  method AllSelected(sel: SelectionSet, children: seq<Node>) returns (all: bool)
    ensures all <==> forall i :: 0 <= i < |children| ==> children[i].value in sel.elems
  {
    all := true;
    var i := 0;
    while i < |children|
      invariant 0 <= i <= |children|
      invariant forall j :: 0 <= j < i ==> children[j].value in sel.elems
    {
      if !sel.Has(children[i].value) {
        return false;
      }
      i := i + 1;
    }
  }

  /** The upward walk of the deselect path: every ancestor reached through
      `parentMapData` is deselected, until a parent is missing or falsy. */
  method ClearAncestors(ghost forest: seq<Node>, memoizedData: Index, sel: SelectionSet,
                        value: Value, ghost s: Site)
    requires Unique(forest) && IndexOf(memoizedData, forest)
    requires s in Sites(forest) && s.node.value == value
    modifies sel
    ensures sel.elems == old(sel.elems) - Elems(Chain(s.anc))
  {
    ghost var chain := Chain(s.anc);
    var parentMapData := memoizedData.parentMapData;
    // `currentId` is never null: the loop leaves through `break`.
    var currentId := value;
    ghost var c, k := s, 0;
    while true
      invariant 0 <= k <= |chain|
      invariant c in Sites(forest) && c.node.value == currentId && c.anc == s.anc[k..]
      invariant sel.elems == old(sel.elems) - Elems(chain[..k])
      decreases |chain| - k
    {
      ParentStep(forest, memoizedData, c);
      var parentId := Get(parentMapData, currentId);
      if parentId.Some? && Truthy(parentId.value) {
        assert parentId.value == s.anc[k] && k < |chain|;
        assert chain[..k + 1] == chain[..k] + [parentId.value];
        sel.Delete(parentId.value);
        currentId := parentId.value;
        c, k := Find(forest, currentId).value, k + 1;
      } else {
        assert k == |chain| && chain[..k] == chain;
        break;
      }
    }
  }

  /** The upward walk of the select path: an ancestor is selected when all its
      direct children are; the walk stops at the first one that is not, or at a
      missing or falsy parent. */
  method FillAncestors(ghost forest: seq<Node>, memoizedData: Index, sel: SelectionSet,
                       value: Value, ghost s: Site)
    requires Unique(forest) && IndexOf(memoizedData, forest)
    requires s in Sites(forest) && s.node.value == value
    modifies sel
    ensures sel.elems == RollUp(forest, old(sel.elems), Chain(s.anc))
  {
    ghost var chain := Chain(s.anc);
    var mapData, parentMapData := memoizedData.mapData, memoizedData.parentMapData;
    var currentId := value;
    ghost var c, k := s, 0;
    while true
      invariant 0 <= k <= |chain|
      invariant c in Sites(forest) && c.node.value == currentId && c.anc == s.anc[k..]
      invariant RollUp(forest, sel.elems, chain[k..]) == RollUp(forest, old(sel.elems), chain)
      decreases |chain| - k
    {
      ParentStep(forest, memoizedData, c);
      var parentId := Get(parentMapData, currentId);
      if parentId.Some? && Truthy(parentId.value) {
        assert parentId.value == s.anc[k] && k < |chain|;
        assert chain[k..][0] == parentId.value && chain[k..][1..] == chain[k + 1..];
        var parentNode := Get(mapData, parentId.value);
        ghost var p := Find(forest, parentId.value).value;
        assert parentNode == Some(p.node);
        var isAllSelected := false;
        if parentNode.Some? {
          isAllSelected := AllSelected(sel, parentNode.value.children);
        }
        assert isAllSelected <==> ChildValues(p.node) <= sel.elems;
        if isAllSelected {
          sel.Add(parentId.value);
          currentId := parentId.value;
          c, k := Find(forest, currentId).value, k + 1;
        } else {
          break;
        }
      } else {
        assert k == |chain|;
        break;
      }
    }
  }

  /** `onSelect(value)` applied to the previous selection `prev`: an unknown
      value gives back `prev` itself; otherwise a fresh copy is updated and
      returned, and `prev` is left as it was. The new selection is `Toggle`
      of the old one. */
  method OnSelect(ghost forest: seq<Node>, memoizedData: Index, prev: SelectionSet, value: Value)
    returns (next: SelectionSet)
    requires Unique(forest) && IndexOf(memoizedData, forest)
    ensures value !in memoizedData.mapData ==> next == prev
    ensures value in memoizedData.mapData ==> fresh(next)
    ensures prev.elems == old(prev.elems)
    ensures next.elems == Toggle(forest, prev.elems, value)
  {
    var newSelectedValues := new SelectionSet(prev.elems);
    KnownValue(forest, memoizedData, value);
    var node := Get(memoizedData.mapData, value);
    if node == None {
      return prev;
    }
    ghost var s := Find(forest, value).value;
    if newSelectedValues.Has(value) {
      RemoveChildren(newSelectedValues, node.value);
      ClearAncestors(forest, memoizedData, newSelectedValues, value, s);
    } else {
      AddChildren(newSelectedValues, node.value);
      FillAncestors(forest, memoizedData, newSelectedValues, value, s);
    }
    return newSelectedValues;
  }
}
