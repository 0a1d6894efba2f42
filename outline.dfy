/** The host's component outline (`OutlineNode` / `SlotInfo`) and the pure
    tree queries of `ComponentsInfoGenerator`: containment, root-to-target
    path search, node lookup, and the minimal common ancestor of a list of
    target ids, specified here as functions and proved about. */
module Outline {
  import opened Wrappers
  import opened JsValues

  /** An outline node. `ns` is `def.namespace`, with "" standing for an absent
      or empty namespace (the source treats both as falsy); an absent `slots`
      array is the empty sequence (every reader treats both alike);
      `collapsed` is `_hasCollapsedChildren`. */
  datatype Node = Node(
    id: string,
    title: string,
    ns: string,
    data: Value,
    style: Value,
    slots: seq<Slot>,
    collapsed: bool)

  /** A slot. An absent `components` array differs from an empty one in the
      target-mode renderer, so the two are kept apart. */
  datatype Slot = Slot(id: string, title: string, layout: Value, components: Comps)

  datatype Comps = Absent | Present(nodes: seq<Node>)

  /** `c` is a component in one of `p`'s slots. */
  predicate IsChild(p: Node, c: Node) {
    exists s | s in p.slots :: s.components.Present? && c in s.components.nodes
  }

  /** Each node of `p` is a child of the one before it. */
  predicate IsChain(p: seq<Node>) {
    forall i | 0 <= i < |p| - 1 :: IsChild(p[i], p[i + 1])
  }

  /** `m` is `n` or lies somewhere below it. */
  predicate Within(m: Node, n: Node) {
    m == n ||
    exists s | s in n.slots :: s.components.Present? && exists c | c in s.components.nodes :: Within(m, c)
  }

  /** No two nodes of the tree carry the same id. */
  ghost predicate UniqueIds(root: Node) {
    forall a, b | Within(a, root) && Within(b, root) && a.id == b.id :: a == b
  }

  /** `containsNode` (and `PageHierarchyGenerator.containsComponent`, which
      is the same test): `n` has id `t` or some component below it has. */
  predicate Contains(n: Node, t: string) {
    n.id == t ||
    exists s | s in n.slots :: s.components.Present? && exists c | c in s.components.nodes :: Contains(c, t)
  }

  /** `findPathToNode`: depth-first, slots in order, components in order; the
      first path found wins. */
  function FindPath(n: Node, t: string): Option<seq<Node>> {
    if n.id == t then Some([n])
    else match PathInSlots(n.slots, t)
      case None => None
      case Some(p) => Some([n] + p)
  }

  function PathInSlots(ss: seq<Slot>, t: string): Option<seq<Node>> {
    if ss == [] then None
    else
      var r := if ss[0].components.Absent? then None else PathInComps(ss[0].components.nodes, t);
      if r.Some? then r else PathInSlots(ss[1..], t)
  }

  function PathInComps(cs: seq<Node>, t: string): Option<seq<Node>> {
    if cs == [] then None
    else
      var r := FindPath(cs[0], t);
      if r.Some? then r else PathInComps(cs[1..], t)
  }

  /** `findNodeById`, the same search returning the node itself. */
  function FindNode(n: Node, t: string): Option<Node> {
    if n.id == t then Some(n) else NodeInSlots(n.slots, t)
  }

  function NodeInSlots(ss: seq<Slot>, t: string): Option<Node> {
    if ss == [] then None
    else
      var r := if ss[0].components.Absent? then None else NodeInComps(ss[0].components.nodes, t);
      if r.Some? then r else NodeInSlots(ss[1..], t)
  }

  function NodeInComps(cs: seq<Node>, t: string): Option<Node> {
    if cs == [] then None
    else
      var r := FindNode(cs[0], t);
      if r.Some? then r else NodeInComps(cs[1..], t)
  }

  // ---------------------------------------------------------------------
  // Path search: found exactly when contained, and a real root-to-target chain

  /** `findPathToNode(n, t)` is null exactly when `containsNode(n, t)` is false;
      otherwise the path starts at `n`, ends at a node with id `t`, and each
      step is a component in a slot of the node before it. */
  lemma {:induction false} FindPathCorrect(n: Node, t: string)
    ensures FindPath(n, t).Some? <==> Contains(n, t)
    ensures FindPath(n, t).Some? ==>
      var p := FindPath(n, t).value;
      |p| >= 1 && p[0] == n && p[|p| - 1].id == t && IsChain(p)
  {
    if n.id != t {
      PathInSlotsCorrect(n.slots, t);
      if PathInSlots(n.slots, t).Some? {
        var q := PathInSlots(n.slots, t).value;
        var p := [n] + q;
        assert IsChild(n, q[0]);
        forall i | 0 <= i < |p| - 1 ensures IsChild(p[i], p[i + 1]) {
          if i > 0 {
            assert p[i] == q[i - 1] && p[i + 1] == q[i];
          }
        }
      }
    }
  }

  lemma {:induction false} PathInSlotsCorrect(ss: seq<Slot>, t: string)
    ensures PathInSlots(ss, t).Some? <==>
      exists s | s in ss :: s.components.Present? && exists c | c in s.components.nodes :: Contains(c, t)
    ensures PathInSlots(ss, t).Some? ==>
      var p := PathInSlots(ss, t).value;
      |p| >= 1 && p[|p| - 1].id == t && IsChain(p) &&
      exists s | s in ss :: s.components.Present? && p[0] in s.components.nodes
  {
    if ss != [] {
      if ss[0].components.Present? {
        PathInCompsCorrect(ss[0].components.nodes, t);
      }
      PathInSlotsCorrect(ss[1..], t);
      forall s | s in ss[1..] ensures s in ss { }
      assert ss == [ss[0]] + ss[1..];
    }
  }

  lemma {:induction false} PathInCompsCorrect(cs: seq<Node>, t: string)
    ensures PathInComps(cs, t).Some? <==> exists c | c in cs :: Contains(c, t)
    ensures PathInComps(cs, t).Some? ==>
      var p := PathInComps(cs, t).value;
      |p| >= 1 && p[|p| - 1].id == t && IsChain(p) && p[0] in cs
  {
    if cs != [] {
      FindPathCorrect(cs[0], t);
      PathInCompsCorrect(cs[1..], t);
      assert cs == [cs[0]] + cs[1..];
    }
  }

  /** `findNodeById` returns the last node of the path `findPathToNode` finds. */
  lemma {:induction false} FindNodeIsPathEnd(n: Node, t: string)
    ensures FindNode(n, t) == match FindPath(n, t)
      case None => None
      case Some(p) => Some(p[|p| - 1])
  {
    if n.id != t {
      NodeInSlotsIsPathEnd(n.slots, t);
      FindPathCorrect(n, t);
    }
  }

  lemma {:induction false} NodeInSlotsIsPathEnd(ss: seq<Slot>, t: string)
    ensures PathInSlots(ss, t).None? ==> NodeInSlots(ss, t).None?
    ensures PathInSlots(ss, t).Some? ==>
      var p := PathInSlots(ss, t).value; |p| >= 1 && NodeInSlots(ss, t) == Some(p[|p| - 1])
  {
    if ss != [] {
      if ss[0].components.Present? {
        NodeInCompsIsPathEnd(ss[0].components.nodes, t);
        PathInCompsCorrect(ss[0].components.nodes, t);
      }
      NodeInSlotsIsPathEnd(ss[1..], t);
      PathInSlotsCorrect(ss[1..], t);
    }
  }

  lemma {:induction false} NodeInCompsIsPathEnd(cs: seq<Node>, t: string)
    ensures PathInComps(cs, t).None? ==> NodeInComps(cs, t).None?
    ensures PathInComps(cs, t).Some? ==>
      var p := PathInComps(cs, t).value; |p| >= 1 && NodeInComps(cs, t) == Some(p[|p| - 1])
  {
    if cs != [] {
      FindNodeIsPathEnd(cs[0], t);
      FindPathCorrect(cs[0], t);
      NodeInCompsIsPathEnd(cs[1..], t);
      PathInCompsCorrect(cs[1..], t);
    }
  }

  // ---------------------------------------------------------------------
  // Chains, containment and `Within`

  /** Every node of a chain contains the id of the chain's last node. */
  lemma {:induction false} ChainContainsEnd(p: seq<Node>)
    requires |p| >= 1 && IsChain(p)
    ensures forall i | 0 <= i < |p| :: Contains(p[i], p[|p| - 1].id)
  {
    var t := p[|p| - 1].id;
    var k := |p| - 1;
    while k > 0
      invariant 0 <= k <= |p| - 1
      invariant forall i | k <= i < |p| :: Contains(p[i], t)
    {
      assert IsChild(p[k - 1], p[k]);
      var s :| s in p[k - 1].slots && s.components.Present? && p[k] in s.components.nodes;
      assert Contains(p[k - 1], t);
      k := k - 1;
    }
  }

  /** Below a node, then one step down, is still below it. */
  lemma {:induction false} WithinStep(m: Node, n: Node, c: Node)
    requires Within(m, n) && IsChild(m, c)
    ensures Within(c, n)
  {
    if m == n {
      var s :| s in n.slots && s.components.Present? && c in s.components.nodes;
      assert Within(c, c);
    } else {
      var s :| s in n.slots && s.components.Present? && exists c' | c' in s.components.nodes :: Within(m, c');
      var c' :| c' in s.components.nodes && Within(m, c');
      WithinStep(m, c', c);
    }
  }

  /** Every node of a chain lies below its first node. */
  lemma {:induction false} ChainWithin(p: seq<Node>)
    requires |p| >= 1 && IsChain(p)
    ensures forall i | 0 <= i < |p| :: Within(p[i], p[0])
  {
    var k := 0;
    while k < |p| - 1
      invariant 0 <= k <= |p| - 1
      invariant forall i | 0 <= i <= k :: Within(p[i], p[0])
    {
      WithinStep(p[k], p[0], p[k + 1]);
      k := k + 1;
    }
  }

  /** `containsNode(n, t)` holds exactly when some node below `n` has id `t`. */
  lemma {:induction false} ContainsIffWithin(n: Node, t: string)
    ensures Contains(n, t) <==> exists m | Within(m, n) :: m.id == t
  {
    FindPathCorrect(n, t);
    if Contains(n, t) {
      var p := FindPath(n, t).value;
      ChainWithin(p);
      assert Within(p[|p| - 1], n);
    } else {
      forall m | Within(m, n) ensures m.id != t {
        WithinContains(m, n);
      }
    }
  }

  /** A node contains every id found below it. */
  lemma {:induction false} WithinContains(m: Node, n: Node)
    requires Within(m, n)
    ensures Contains(n, m.id)
  {
    if m != n {
      var s :| s in n.slots && s.components.Present? && exists c | c in s.components.nodes :: Within(m, c);
      var c :| c in s.components.nodes && Within(m, c);
      WithinContains(m, c);
    }
  }

  // ---------------------------------------------------------------------
  // Minimal common ancestor (`findMinimalCommonAncestors`)

  /** The paths `findPathToNode` finds for the targets, in target order;
      targets that are not found contribute nothing. */
  function FoundPaths(root: Node, ts: seq<string>): (r: seq<seq<Node>>)
    ensures |r| <= |ts|
    ensures forall j | 0 <= j < |r| ::
      |r[j]| >= 1 && r[j][0] == root && IsChain(r[j]) && Contains(root, r[j][|r[j]| - 1].id)
    decreases |ts|
  {
    if ts == [] then []
    else
      var init := FoundPaths(root, ts[..|ts| - 1]);
      FindPathCorrect(root, ts[|ts| - 1]);
      match FindPath(root, ts[|ts| - 1])
      case None => init
      case Some(p) => init + [p]
  }

  /** `Math.min(...paths.map(path => path.length))`. */
  function MinLen(paths: seq<seq<Node>>): (m: nat)
    requires |paths| > 0
    ensures forall j | 0 <= j < |paths| :: m <= |paths[j]|
    ensures exists j | 0 <= j < |paths| :: m == |paths[j]|
  {
    if |paths| == 1 then |paths[0]|
    else
      var m := MinLen(paths[1..]);
      assert forall j | 1 <= j < |paths| :: paths[j] == paths[1..][j - 1];
      if |paths[0]| <= m then |paths[0]| else m
  }

  /** Every path has, at depth `i`, a node with the id of the first path's node there. */
  predicate SameIdAt(paths: seq<seq<Node>>, i: nat)
    requires |paths| > 0 && i < MinLen(paths)
  {
    forall j | 0 <= j < |paths| :: paths[j][i].id == paths[0][i].id
  }

  /** The loop over depths `i` from `i` up to `m` that stops at the first
      depth where the paths disagree. */
  function AgreeDepth(paths: seq<seq<Node>>, i: nat, m: nat): (d: nat)
    requires |paths| > 0 && i <= m <= MinLen(paths)
    ensures i <= d <= m
    ensures forall k | i <= k < d :: SameIdAt(paths, k)
    ensures d == m || !SameIdAt(paths, d)
    decreases m - i
  {
    if i < m && SameIdAt(paths, i) then AgreeDepth(paths, i + 1, m) else i
  }

  /** `findMinimalCommonAncestors(root, ts)`. */
  function MinimalCommonAncestors(root: Node, ts: seq<string>): seq<Node> {
    if |ts| == 0 then [root]
    else if |ts| == 1 then
      match FindNode(root, ts[0])
      case None => []
      case Some(n) => [n]
    else CommonOfPaths(root, FoundPaths(root, ts))
  }

  /** The part of `findMinimalCommonAncestors` for two or more targets,
      once their paths are found. */
  function CommonOfPaths(root: Node, paths: seq<seq<Node>>): seq<Node>
    requires forall j | 0 <= j < |paths| :: |paths[j]| >= 1
  {
    if |paths| == 0 then []
    else if |paths| == 1 then [paths[0][|paths[0]| - 1]]
    else
      var d := AgreeDepth(paths, 0, MinLen(paths));
      if d > 0 then [paths[0][d - 1]] else [root]
  }

  /** One root-to-`t` chain is an id-prefix of another. */
  predicate IdPrefix(q: seq<Node>, p: seq<Node>) {
    |q| <= |p| && forall i | 0 <= i < |q| :: q[i].id == p[i].id
  }

  /** The found paths are exactly the paths of the targets that the tree contains. */
  lemma {:induction false} FoundPathsCover(root: Node, ts: seq<string>)
    ensures forall t | t in ts && Contains(root, t) ::
      FindPath(root, t).Some? && FindPath(root, t).value in FoundPaths(root, ts)
    ensures forall p | p in FoundPaths(root, ts) :: exists t | t in ts :: FindPath(root, t) == Some(p)
    decreases |ts|
  {
    if ts != [] {
      var init := ts[..|ts| - 1];
      var last := ts[|ts| - 1];
      FoundPathsCover(root, init);
      FindPathCorrect(root, last);
      assert ts == init + [last];
      forall t | t in ts && Contains(root, t)
        ensures FindPath(root, t).Some? && FindPath(root, t).value in FoundPaths(root, ts)
      {
        FindPathCorrect(root, t);
        if t != last { assert t in init; }
      }
      forall p | p in FoundPaths(root, ts) ensures exists t | t in ts :: FindPath(root, t) == Some(p) {
        if p !in FoundPaths(root, init) {
          assert FindPath(root, last) == Some(p);
        } else {
          var t :| t in init && FindPath(root, t) == Some(p);
          assert t in ts;
        }
      }
    }
  }

  /** The result holds at most one node, a node of the tree; with at least
      one target it is empty exactly when no target is in the tree. */
  lemma MinimalCommonAncestorsShape(root: Node, ts: seq<string>)
    ensures |MinimalCommonAncestors(root, ts)| <= 1
    ensures forall n | n in MinimalCommonAncestors(root, ts) :: Within(n, root)
    ensures |ts| >= 1 ==>
      (|MinimalCommonAncestors(root, ts)| == 1 <==> exists t | t in ts :: Contains(root, t))
  {
    var r := MinimalCommonAncestors(root, ts);
    if |ts| == 1 {
      FindNodeIsPathEnd(root, ts[0]);
      FindPathCorrect(root, ts[0]);
      if FindPath(root, ts[0]).Some? {
        ChainWithin(FindPath(root, ts[0]).value);
      }
    } else if |ts| >= 2 {
      var paths := FoundPaths(root, ts);
      FoundPathsCover(root, ts);
      if |paths| == 0 {
        forall t | t in ts ensures !Contains(root, t) { }
      } else {
        var t :| t in ts && FindPath(root, t) == Some(paths[0]);
        ChainWithin(paths[0]);
        FindPathCorrect(root, t);
        assert Contains(root, t);
      }
    }
  }

  /** With two or more found paths, the loop at lines 582-592 always records
      a common node: every path starts at the root, so the paths agree at
      depth 0 and the `[root]` fallback is never taken. */
  lemma McaFallbackUnreachable(root: Node, ts: seq<string>)
    requires |ts| >= 2 && |FoundPaths(root, ts)| >= 2
    ensures AgreeDepth(FoundPaths(root, ts), 0, MinLen(FoundPaths(root, ts))) >= 1
  {
    var paths := FoundPaths(root, ts);
    assert SameIdAt(paths, 0);
  }

  /** When ids are unique, the node returned contains every target that is
      in the tree. */
  lemma McaContainsFoundTargets(root: Node, ts: seq<string>, t: string)
    requires UniqueIds(root)
    requires t in ts && Contains(root, t)
    ensures |MinimalCommonAncestors(root, ts)| == 1
    ensures Contains(MinimalCommonAncestors(root, ts)[0], t)
  {
    MinimalCommonAncestorsShape(root, ts);
    if |ts| == 1 {
      FindNodeIsPathEnd(root, ts[0]);
      FindPathCorrect(root, ts[0]);
      ChainContainsEnd(FindPath(root, t).value);
    } else {
      McaSeveralContains(root, ts, t);
    }
  }

  /** For two or more targets, the node returned has the id of a node on
      the path to any found target `t`. */
  lemma McaSeveralOnPath(root: Node, ts: seq<string>, t: string) returns (i: nat)
    requires |ts| >= 2 && t in ts && Contains(root, t)
    ensures FindPath(root, t).Some? && i < |FindPath(root, t).value|
    ensures |MinimalCommonAncestors(root, ts)| == 1
    ensures MinimalCommonAncestors(root, ts)[0].id == FindPath(root, t).value[i].id
    ensures Within(MinimalCommonAncestors(root, ts)[0], root) && Within(FindPath(root, t).value[i], root)
  {
    var paths := FoundPaths(root, ts);
    FoundPathsCover(root, ts);
    FindPathCorrect(root, t);
    var p := FindPath(root, t).value;
    var j :| 0 <= j < |paths| && paths[j] == p;
    ChainWithin(paths[0]);
    ChainWithin(p);
    var i0;
    i0, i := CommonOnPath(root, paths, j);
    assert MinimalCommonAncestors(root, ts) == CommonOfPaths(root, paths);
  }

  /** The node chosen from the found paths lies on the first path and
      shares its id with a node of every path. */
  lemma CommonOnPath(root: Node, paths: seq<seq<Node>>, j: nat) returns (i0: nat, i: nat)
    requires j < |paths|
    requires forall k | 0 <= k < |paths| :: |paths[k]| >= 1 && paths[k][0] == root
    ensures |CommonOfPaths(root, paths)| == 1
    ensures i0 < |paths[0]| && CommonOfPaths(root, paths)[0] == paths[0][i0]
    ensures i < |paths[j]| && CommonOfPaths(root, paths)[0].id == paths[j][i].id
  {
    if |paths| >= 2 {
      var d := AgreeDepth(paths, 0, MinLen(paths));
      assert SameIdAt(paths, 0);
      assert SameIdAt(paths, d - 1);
      i0, i := d - 1, d - 1;
    } else {
      i0, i := |paths[0]| - 1, |paths[0]| - 1;
    }
  }

  /** `McaContainsFoundTargets` for two or more targets. */
  lemma McaSeveralContains(root: Node, ts: seq<string>, t: string)
    requires UniqueIds(root)
    requires |ts| >= 2 && t in ts && Contains(root, t)
    ensures |MinimalCommonAncestors(root, ts)| == 1
    ensures Contains(MinimalCommonAncestors(root, ts)[0], t)
  {
    var i := McaSeveralOnPath(root, ts, t);
    FindPathCorrect(root, t);
    var p := FindPath(root, t).value;
    ChainContainsEnd(p);
    SameIdSameNode(root, MinimalCommonAncestors(root, ts)[0], p[i]);
  }

  /** With unique ids, a node of the tree is known by its id. */
  lemma SameIdSameNode(root: Node, a: Node, b: Node)
    requires UniqueIds(root) && Within(a, root) && Within(b, root) && a.id == b.id
    ensures a == b
  {
  }

  /** When `q` is one of the paths and an id-prefix of all of them, the
      paths agree all the way down `q`. */
  lemma AgreeAlongPrefix(paths: seq<seq<Node>>, q: seq<Node>)
    requires |paths| > 0 && q in paths
    requires forall j | 0 <= j < |paths| :: IdPrefix(q, paths[j])
    ensures MinLen(paths) == |q|
    ensures AgreeDepth(paths, 0, |q|) == |q|
  {
    var m := MinLen(paths);
    var d := AgreeDepth(paths, 0, m);
    if d < m {
      assert SameIdAt(paths, d);
    }
  }

  /** When the path of one found target is an id-prefix of every found path
      (that target is an ancestor of all the others), the result is that
      target's node itself. */
  lemma McaAncestorTarget(root: Node, ts: seq<string>, a: string)
    requires |ts| >= 2 && a in ts && Contains(root, a)
    requires forall t | t in ts && Contains(root, t) ::
      FindPath(root, a).Some? && FindPath(root, t).Some? &&
      IdPrefix(FindPath(root, a).value, FindPath(root, t).value)
    ensures |MinimalCommonAncestors(root, ts)| == 1
    ensures MinimalCommonAncestors(root, ts)[0].id == a
  {
    var paths := FoundPaths(root, ts);
    FoundPathsCover(root, ts);
    FindPathCorrect(root, a);
    var q := FindPath(root, a).value;
    forall j | 0 <= j < |paths| ensures IdPrefix(q, paths[j]) {
      assert paths[j] in paths;
      var t :| t in ts && FindPath(root, t) == Some(paths[j]);
      FindPathCorrect(root, t);
    }
    if |paths| >= 2 {
      AgreeAlongPrefix(paths, q);
      assert IdPrefix(q, paths[0]);
    }
  }
}
