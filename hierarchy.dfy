/** `PageHierarchyGenerator`'s pruning of an outline to the focused
    component: every branch that leads to the focused node is kept, every
    other component is kept without its slots and marked as collapsed. */
module PageHierarchy {
  import opened Wrappers
  import opened Outline

  /** `hasChildren`: some slot holds a non-empty components array. */
  predicate HasChildren(n: Node) {
    exists s | s in n.slots :: s.components.Present? && |s.components.nodes| > 0
  }

  /** A component that does not lead to the focused node: its slots are
      dropped and `_hasCollapsedChildren` says whether it had children. */
  function Collapse(c: Node): (r: Node)
    ensures r.id == c.id && r.ns == c.ns && r.title == c.title && r.slots == []
    ensures r.collapsed <==> HasChildren(c)
  {
    c.(slots := [], collapsed := HasChildren(c))
  }

  /** `filterToFocusedComponent(n, t)`: the node itself when it is the
      target; otherwise the node with its slots filtered, or `null` when no
      slot survives. A slot survives when it holds a non-empty components
      array, since every component of it is kept, pruned or collapsed. */
  function FilterToFocused(n: Node, t: string): (r: Option<Node>)
    ensures r.Some? <==> n.id == t || HasChildren(n)
    ensures r.Some? ==> r.value.id == n.id
  {
    if n.id == t then Some(n)
    else
      var ss := FilterSlots(n.slots, t);
      if |ss| > 0 then Some(n.(slots := ss)) else None
  }

  /** The `map` / `filter(Boolean)` over a node's slots. */
  function FilterSlots(ss: seq<Slot>, t: string): (r: seq<Slot>)
    ensures |r| > 0 <==> exists s | s in ss :: s.components.Present? && |s.components.nodes| > 0
  {
    if ss == [] then []
    else
      var head := if ss[0].components.Present? && |ss[0].components.nodes| > 0
        then [FilteredSlot(ss[0], t)]
        else [];
      var r := head + FilterSlots(ss[1..], t);
      assert forall s | s in ss[1..] :: s in ss;
      assert ss[0] in ss;
      r
  }

  /** A slot that holds components, with each of them filtered. */
  function FilteredSlot(s: Slot, t: string): Slot
    requires s.components.Present?
  {
    s.(components := Present(FilterComps(s.components.nodes, t)))
  }

  /** The `map` / `filter(Boolean)` over a slot's components: one result
      per component, with the same id. */
  function FilterComps(cs: seq<Node>, t: string): (r: seq<Node>)
    ensures |r| == |cs|
    ensures forall i | 0 <= i < |cs| :: r[i].id == cs[i].id
  {
    if cs == [] then []
    else
      var c := cs[0];
      var first := if Contains(c, t) then
          (var f := FilterToFocused(c, t); if f.Some? then f.value else assert false; c)
        else Collapse(c);
      [first] + FilterComps(cs[1..], t)
  }

  /** Some component of these slots contains `t`. */
  predicate SlotsLeadTo(ss: seq<Slot>, t: string) {
    exists s | s in ss :: s.components.Present? && exists c | c in s.components.nodes :: Contains(c, t)
  }

  /** `r` is pruned towards `t`: either `r` is the target, kept whole, or
      each of its slots holds components, and each component either leads
      to `t` and is pruned in turn, or does not and has no slots left. */
  predicate Pruned(r: Node, t: string)
    decreases r, 2
  {
    r.id == t || forall s | s in r.slots :: PrunedSlot(s, t)
  }

  /** A slot of a pruned node: it holds components, each pruned or collapsed. */
  predicate PrunedSlot(s: Slot, t: string)
    decreases s, 1
  {
    s.components.Present? && |s.components.nodes| > 0 &&
    forall c | c in s.components.nodes :: PrunedComp(c, t)
  }

  /** A component leading to `t` is pruned in turn; any other has no slots. */
  predicate PrunedComp(c: Node, t: string)
    decreases c, 3
  {
    if Contains(c, t) then Pruned(c, t) else c.slots == []
  }

  /** The filtered outline is pruned towards the focused node, and contains
      it exactly when the original outline did. */
  lemma {:induction false} FilterPrunes(n: Node, t: string)
    requires FilterToFocused(n, t).Some?
    ensures Pruned(FilterToFocused(n, t).value, t)
    ensures Contains(FilterToFocused(n, t).value, t) <==> Contains(n, t)
    decreases n, 2
  {
    if n.id != t {
      FilterSlotsPrune(n.slots, t);
    }
  }

  lemma {:induction false} FilterSlotsPrune(ss: seq<Slot>, t: string)
    ensures forall s | s in FilterSlots(ss, t) :: PrunedSlot(s, t)
    ensures SlotsLeadTo(FilterSlots(ss, t), t) <==> SlotsLeadTo(ss, t)
    decreases ss, 1
  {
    if ss != [] {
      var rest := FilterSlots(ss[1..], t);
      FilterSlotsPrune(ss[1..], t);
      SlotsLeadToAppend([ss[0]], ss[1..], t);
      assert [ss[0]] + ss[1..] == ss;
      if ss[0].components.Present? && |ss[0].components.nodes| > 0 {
        FilteredSlotPrunes(ss[0], t);
        SlotsLeadToAppend([FilteredSlot(ss[0], t)], rest, t);
      } else {
        assert FilterSlots(ss, t) == rest;
        assert !SlotsLeadTo([ss[0]], t);
      }
    }
  }

  lemma {:induction false} FilteredSlotPrunes(s: Slot, t: string)
    requires s.components.Present? && |s.components.nodes| > 0
    ensures PrunedSlot(FilteredSlot(s, t), t)
    ensures SlotsLeadTo([FilteredSlot(s, t)], t) <==> SlotsLeadTo([s], t)
    decreases s, 2
  {
    FilterCompsPrune(s.components.nodes, t);
    assert FilteredSlot(s, t) in [FilteredSlot(s, t)] && s in [s];
  }

  lemma SlotsLeadToAppend(a: seq<Slot>, b: seq<Slot>, t: string)
    ensures SlotsLeadTo(a + b, t) <==> SlotsLeadTo(a, t) || SlotsLeadTo(b, t)
  {
    assert forall s | s in a + b :: s in a || s in b;
  }

  lemma {:induction false} FilterCompsPrune(cs: seq<Node>, t: string)
    ensures forall c | c in FilterComps(cs, t) :: PrunedComp(c, t)
    ensures (exists c | c in FilterComps(cs, t) :: Contains(c, t)) <==> (exists c | c in cs :: Contains(c, t))
    decreases cs, 0
  {
    if cs != [] {
      var r := FilterComps(cs, t);
      FilterCompsPrune(cs[1..], t);
      assert r == [r[0]] + FilterComps(cs[1..], t);
      assert forall c | c in cs :: c == cs[0] || c in cs[1..];
      if Contains(cs[0], t) {
        FilterPrunes(cs[0], t);
      } else {
        assert !Contains(r[0], t);
      }
    }
  }
}
