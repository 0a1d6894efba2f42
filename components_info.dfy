/** `ComponentsInfoGenerator`: the JSX-like rendering of a component outline
    that the agent is shown. The source keeps its state in two static
    fields; here one object stands for that static state. Every method is
    proved to compute what module Jsx (rendering) and module Outline (tree
    search) specify. */
module ComponentsInfo {
  import opened Wrappers
  import opened JsValues
  import opened Outline
  import opened Jsx

  class ComponentsInfoGenerator {
    /** `namespacesSet`: a `Set<string>`, kept in insertion order. */
    var namespacesSet: seq<string>
    /** `targetComponentIds`, set by each call of `Generate`. */
    var targetComponentIds: seq<string>
    /** `JSON.stringify`, a foreign call. */
    const json: Value -> string

    constructor (json: Value -> string)
      ensures this.json == json && namespacesSet == [] && targetComponentIds == []
    {
      this.json := json;
      namespacesSet := [];
      targetComponentIds := [];
    }

    // -------------------------------------------------------------------
    // Tree search

    /** `containsNode`: depth-first search for `t` below `root`. */
    static method ContainsNode(root: Node, t: string) returns (b: bool)
      ensures b == Contains(root, t)
      decreases root
    {
      if root.id == t {
        return true;
      }
      var i := 0;
      while i < |root.slots|
        invariant 0 <= i <= |root.slots|
        invariant forall k | 0 <= k < i ::
          !(root.slots[k].components.Present? &&
            exists c | c in root.slots[k].components.nodes :: Contains(c, t))
      {
        var slot := root.slots[i];
        if slot.components.Present? {
          var cs := slot.components.nodes;
          var j := 0;
          while j < |cs|
            invariant 0 <= j <= |cs|
            invariant forall l | 0 <= l < j :: !Contains(cs[l], t)
          {
            assert cs[j] in slot.components.nodes && slot in root.slots;
            var found := ContainsNode(cs[j], t);
            if found {
              return true;
            }
            j := j + 1;
          }
        }
        i := i + 1;
      }
      return false;
    }

    /** `findNodeById`: the first node with id `t`, depth-first. */
    static method FindNodeById(root: Node, t: string) returns (r: Option<Node>)
      ensures r == FindNode(root, t)
      decreases root
    {
      if root.id == t {
        return Some(root);
      }
      var i := 0;
      while i < |root.slots|
        invariant 0 <= i <= |root.slots|
        invariant NodeInSlots(root.slots[i..], t) == NodeInSlots(root.slots, t)
      {
        var slot := root.slots[i];
        if slot.components.Present? {
          var cs := slot.components.nodes;
          var j := 0;
          while j < |cs|
            invariant 0 <= j <= |cs|
            invariant NodeInComps(cs[j..], t) == NodeInComps(cs, t)
          {
            assert cs[j] in slot.components.nodes && slot in root.slots;
            var found := FindNodeById(cs[j], t);
            if found.Some? {
              return found;
            }
            assert cs[j..][1..] == cs[j + 1..];
            j := j + 1;
          }
        }
        assert root.slots[i..][1..] == root.slots[i + 1..];
        i := i + 1;
      }
      return None;
    }

    /** `findPathToNode`: the root-to-`t` path of the first node with id `t`. */
    static method FindPathToNode(root: Node, t: string) returns (r: Option<seq<Node>>)
      ensures r == FindPath(root, t)
      decreases root
    {
      if root.id == t {
        return Some([root]);
      }
      var i := 0;
      while i < |root.slots|
        invariant 0 <= i <= |root.slots|
        invariant PathInSlots(root.slots[i..], t) == PathInSlots(root.slots, t)
      {
        var slot := root.slots[i];
        if slot.components.Present? {
          var cs := slot.components.nodes;
          var j := 0;
          while j < |cs|
            invariant 0 <= j <= |cs|
            invariant PathInComps(cs[j..], t) == PathInComps(cs, t)
          {
            assert cs[j] in slot.components.nodes && slot in root.slots;
            var path := FindPathToNode(cs[j], t);
            if path.Some? {
              return Some([root] + path.value);
            }
            assert cs[j..][1..] == cs[j + 1..];
            j := j + 1;
          }
        }
        assert root.slots[i..][1..] == root.slots[i + 1..];
        i := i + 1;
      }
      return None;
    }

    /** `findMinimalCommonAncestors`: with one target its node; with more, the
        deepest node whose id every found path shares at the same depth. */
    static method FindMinimalCommonAncestors(root: Node, targetIds: seq<string>) returns (r: seq<Node>)
      ensures r == MinimalCommonAncestors(root, targetIds)
    {
      if |targetIds| == 0 {
        return [root];
      }
      if |targetIds| == 1 {
        var targetNode := FindNodeById(root, targetIds[0]);
        return if targetNode.Some? then [targetNode.value] else [];
      }
      var paths := CollectPaths(root, targetIds);
      if |paths| == 0 {
        return [];
      }
      if |paths| == 1 {
        return [paths[0][|paths[0]| - 1]];
      }
      var commonAncestor := DeepestCommonNode(paths);
      if commonAncestor.Some? {
        return [commonAncestor.value];
      }
      return [root];
    }

    /** The loop of `findMinimalCommonAncestors` that collects the path to
        each target that is found, in target order. */
    static method CollectPaths(root: Node, targetIds: seq<string>) returns (paths: seq<seq<Node>>)
      ensures paths == FoundPaths(root, targetIds)
    {
      paths := [];
      var k := 0;
      while k < |targetIds|
        invariant 0 <= k <= |targetIds|
        invariant paths == FoundPaths(root, targetIds[..k])
      {
        var path := FindPathToNode(root, targetIds[k]);
        assert targetIds[..k + 1][..k] == targetIds[..k] && targetIds[..k + 1][k] == targetIds[k];
        if path.Some? {
          paths := paths + [path.value];
        }
        k := k + 1;
      }
      assert targetIds[..k] == targetIds;
    }

    /** The loop of `findMinimalCommonAncestors` over depths below the
        shortest path: the node at the last depth where every path has the
        same id, if there is one. */
    static method DeepestCommonNode(paths: seq<seq<Node>>) returns (commonAncestor: Option<Node>)
      requires |paths| > 0
      ensures var d := AgreeDepth(paths, 0, MinLen(paths));
        commonAncestor == if d > 0 then Some(paths[0][d - 1]) else None
    {
      commonAncestor := None;
      var minLength := MinLen(paths);
      var i := 0;
      while i < minLength
        invariant 0 <= i <= minLength
        invariant forall d | 0 <= d < i :: SameIdAt(paths, d)
        invariant commonAncestor == if i == 0 then None else Some(paths[0][i - 1])
      {
        var firstNode := paths[0][i];
        if SameIdAt(paths, i) {
          commonAncestor := Some(firstNode);
        } else {
          break;
        }
        i := i + 1;
      }
      assert i == AgreeDepth(paths, 0, minLength);
    }
 
    // -------------------------------------------------------------------
    // Which parts are rendered

    /** `targetComponentIds.some(targetId => containsNode(c, targetId))`. */
    method ContainsAnyTarget(c: Node) returns (b: bool)
      ensures b <==> exists t | t in targetComponentIds :: Contains(c, t)
    {
      b := false;
      var k := 0;
      while k < |targetComponentIds| && !b
        invariant 0 <= k <= |targetComponentIds|
        invariant b <==> exists l | 0 <= l < k :: Contains(c, targetComponentIds[l])
      {
        b := ContainsNode(c, targetComponentIds[k]);
        k := k + 1;
      }
    }

    /** `shouldExpandChildren`: the node is a target or contains one. */
    method ShouldExpandChildren(n: Node) returns (b: bool)
      ensures b == Jsx.ShouldExpandChildren(n, targetComponentIds)
    {
      if n.id in targetComponentIds {
        return true;
      }
      b := ContainsAnyTarget(n);
    }

    /** The test that opens a slot: in full mode its id; in target mode also
        `hasTargetComponents`. */
    method SlotIsShown(s: Slot, mode: Mode) returns (b: bool)
      requires mode == Full || mode == Targeted(targetComponentIds)
      ensures b == SlotShown(s, mode)
    {
      if s.id == "" {
        return false;
      }
      if mode.Full? {
        return true;
      }
      if s.components.Absent? {
        return false;
      }
      var parentIsTarget := |targetComponentIds| > 0;
      if parentIsTarget {
        return true;
      }
      var cs := s.components.nodes;
      b := false;
      var j := 0;
      while j < |cs| && !b
        invariant 0 <= j <= |cs|
        invariant b <==> exists l | 0 <= l < j :: exists t | t in targetComponentIds :: Contains(cs[l], t)
      {
        b := ContainsAnyTarget(cs[j]);
        j := j + 1;
      }
    }

    /** `shouldProcessChild` (always true in full mode). */
    method ChildIsShown(c: Node, mode: Mode) returns (b: bool)
      requires mode == Full || mode == Targeted(targetComponentIds)
      ensures b == ChildShown(c, mode)
    {
      if mode.Full? || |targetComponentIds| > 0 {
        return true;
      }
      b := ContainsAnyTarget(c);
    }

    // -------------------------------------------------------------------
    // Attributes

    /** `extractLayout`: copies the size properties that are defined, then
        the flex properties when `layout` is defined. */
    static method ExtractLayout(style: Value) returns (layout: seq<Field>)
      ensures layout == Jsx.ExtractLayout(style)
    {
      if !Truthy(style) {
        return [];
      }
      layout := CopyDefinedProps(style, SizeProps);
      if Get(style, "layout") != Undefined {
        var flex := FlexLayout(style);
        layout := layout + flex;
      }
    }

    /** The `forEach` of `extractLayout` that copies each of `props` whose
        value in `style` is not undefined. */
    static method CopyDefinedProps(style: Value, props: seq<string>) returns (layout: seq<Field>)
      ensures layout == CopyDefined(style, props)
    {
      layout := [];
      var k := 0;
      while k < |props|
        invariant 0 <= k <= |props|
        invariant layout + CopyDefined(style, props[k..]) == CopyDefined(style, props)
      {
        var prop := props[k];
        CopyStep(style, props, k, layout);
        if Get(style, prop) != Undefined {
          layout := layout + [Field(prop, Get(style, prop))];
        }
        k := k + 1;
      }
    }

    /** The flex part of `extractLayout`. */
    static method FlexLayout(style: Value) returns (flex: seq<Field>)
      ensures flex == FlexFields(style)
    {
      var l := Get(style, "layout");
      flex := [];
      if l == Str("flex-column") || l == Str("flex") {
        flex := flex + [Field(Display, Str("flex")), Field(FlexDirection, Str("column"))];
      }
      if l == Str("flex-row") {
        flex := flex + [Field(Display, Str("flex")), Field(FlexDirection, Str("row"))];
      }
      assert flex == DirectionFields(l);
      if Truthy(Get(style, AlignItems)) {
        flex := flex + [Field(AlignItems, Get(style, AlignItems))];
      }
      if Truthy(Get(style, JustifyContent)) {
        flex := flex + [Field(JustifyContent, Get(style, JustifyContent))];
      }
    }

    /** The opening tag both component renderers write before their slots. */
    method OpeningTag(n: Node) returns (jsx: string)
      ensures jsx == Head(n, json)
    {
      var dataStr := json(Or(n.data, Obj([])));
      var layout := ExtractLayout(n.style);
      var styleArray := ExtractStyleArray(n.style);
      jsx := TagStart(n.ns, n.id, dataStr);
      if |layout| > 0 {
        jsx := jsx + LayoutAttr(json(Obj(layout)));
      }
      if |styleArray| > 0 {
        jsx := jsx + StyleAryAttr(styleArray);
      }
    }

    // -------------------------------------------------------------------
    // Rendering

    /** `generateComponentJSX` (full mode) and
        `generateComponentJSXWithTargets` (target mode): records the
        namespace, writes the opening tag and, when the node expands and its
        slots produce text, the slots and the closing tag. */
    method GenerateComponentJSX(n: Node, indent: string, mode: Mode) returns (jsx: string)
      requires mode == Full || mode == Targeted(targetComponentIds)
      modifies this`namespacesSet
      ensures jsx == ComponentJSX(n, indent, mode, json)
      ensures namespacesSet == SetAddAll(old(namespacesSet), RenderedNs(n, mode))
      decreases n, 1
    {
      if n.id == "" || n.ns == "" {
        return "";
      }
      namespacesSet := SetAdd(namespacesSet, n.ns);
      jsx := OpeningTag(n);
      var expand := true;
      if mode.Targeted? {
        expand := ShouldExpandChildren(n);
      }
      if expand {
        var slotsJSX := GenerateSlotsJSX(n.slots, indent + "  ", mode);
        if slotsJSX != "" {
          jsx := jsx + slotsJSX;
          jsx := jsx + TagEnd(indent, n.ns);
        } else {
          jsx := jsx + SelfClosing;
        }
      } else {
        jsx := jsx + SelfClosing;
      }
    }

    /** `generateSlotsJSX` / `generateSlotsJSXWithTargets`: the `forEach`
        over the slots, appending what each slot renders to. */
    method GenerateSlotsJSX(ss: seq<Slot>, indent: string, mode: Mode) returns (slotsJSX: string)
      requires mode == Full || mode == Targeted(targetComponentIds)
      modifies this`namespacesSet
      ensures slotsJSX == SlotsJSX(ss, indent, mode, json)
      ensures namespacesSet == SetAddAll(old(namespacesSet), SlotsNs(ss, mode))
      decreases ss, 1
    {
      slotsJSX := "";
      var i := 0;
      assert ss[i..] == ss;
      while i < |ss|
        invariant 0 <= i <= |ss|
        invariant slotsJSX + SlotsJSX(ss[i..], indent, mode, json) == SlotsJSX(ss, indent, mode, json)
        invariant SetAddAll(namespacesSet, SlotsNs(ss[i..], mode)) == SetAddAll(old(namespacesSet), SlotsNs(ss, mode))
      {
        SlotsNsStep(ss, i, namespacesSet, mode);
        var text := RenderSlot(ss[i], indent, mode);
        SlotsStep(ss, i, slotsJSX, text, indent, mode, json);
        slotsJSX := slotsJSX + text;
        i := i + 1;
      }
    }

    /** The `forEach` callback of the slot renderers: a slot that is shown
        is written with its title, its layout and its components. */
    method RenderSlot(slot: Slot, indent: string, mode: Mode) returns (text: string)
      requires mode == Full || mode == Targeted(targetComponentIds)
      modifies this`namespacesSet
      ensures text == SlotJSX(slot, indent, mode, json)
      ensures namespacesSet == SetAddAll(old(namespacesSet), SlotNs(slot, mode))
      decreases slot, 1
    {
      text := "";
      var shown := SlotIsShown(slot, mode);
      if shown {
        ghost var title := if slot.title != "" then TitleAttr(slot.title) else "";
        ghost var layoutAttr := if Truthy(slot.layout) then LayoutAttr(json(Obj(Jsx.ExtractLayout(slot.layout)))) else "";
        text := SlotStart(indent, slot.id);
        if slot.title != "" {
          text := text + TitleAttr(slot.title);
        }
        assert text == SlotStart(indent, slot.id) + title;
        if Truthy(slot.layout) {
          var layout := ExtractLayout(slot.layout);
          text := text + LayoutAttr(json(Obj(layout)));
        }
        assert text == SlotStart(indent, slot.id) + title + layoutAttr;
        text := text + ">";
        ghost var children := if slot.components.Present? then ChildrenJSX(slot.components.nodes, indent, mode, json) else "";
        if slot.components.Present? {
          var childrenJSX := GenerateChildrenJSX(slot.components.nodes, indent, mode);
          text := text + childrenJSX;
        }
        assert text == SlotStart(indent, slot.id) + title + layoutAttr + ">" + children;
        text := text + SlotEnd(indent, slot.id);
      }
    }

    /** The `slot.components.forEach` loop of the slot renderers. */
    method GenerateChildrenJSX(cs: seq<Node>, indent: string, mode: Mode) returns (out: string)
      requires mode == Full || mode == Targeted(targetComponentIds)
      modifies this`namespacesSet
      ensures out == ChildrenJSX(cs, indent, mode, json)
      ensures namespacesSet == SetAddAll(old(namespacesSet), ChildrenNs(cs, mode))
      decreases cs, 1
    {
      out := "";
      var j := 0;
      assert cs[j..] == cs;
      while j < |cs|
        invariant 0 <= j <= |cs|
        invariant out + ChildrenJSX(cs[j..], indent, mode, json) == ChildrenJSX(cs, indent, mode, json)
        invariant SetAddAll(namespacesSet, ChildrenNs(cs[j..], mode)) == SetAddAll(old(namespacesSet), ChildrenNs(cs, mode))
      {
        ChildrenNsStep(cs, j, namespacesSet, mode);
        var text := RenderChild(cs[j], indent, mode);
        ChildrenStep(cs, j, out, text, indent, mode, json);
        out := out + text;
        j := j + 1;
      }
    }

    /** The callback of `slot.components.forEach`: renders the component
        when it is to be processed and appends it on its own line. */
    method RenderChild(component: Node, indent: string, mode: Mode) returns (text: string)
      requires mode == Full || mode == Targeted(targetComponentIds)
      modifies this`namespacesSet
      ensures text == ChildText(component, indent, mode, json)
      ensures namespacesSet == SetAddAll(old(namespacesSet), ChildNs(component, mode))
      decreases component, 2
    {
      text := "";
      var shouldProcessChild := ChildIsShown(component, mode);
      if shouldProcessChild {
        var childJSX := GenerateComponentJSX(component, indent + "    ", mode);
        if childJSX != "" {
          text := ChildLine(indent, childJSX);
        }
      }
    }

    /** `processData` / `processDataWithTargets` on one node: a node with an
        id is rendered as a component (indent ""); one without renders the
        components of its slots, each slot's text appended in order. */
    method ProcessData(n: Node, mode: Mode) returns (r: string)
      requires mode == Full || mode == Targeted(targetComponentIds)
      modifies this`namespacesSet
      ensures r == Jsx.ProcessData(n, mode, json)
      ensures namespacesSet == SetAddAll(old(namespacesSet), ProcessNs(n, mode))
      decreases n, 2
    {
      if n.id != "" {
        r := GenerateComponentJSX(n, "", mode);
        return;
      }
      var ss := n.slots;
      r := "";
      var i := 0;
      assert ss[i..] == ss;
      while i < |ss|
        invariant 0 <= i <= |ss|
        invariant r + ProcessSlots(ss[i..], mode, json) == ProcessSlots(ss, mode, json)
        invariant SetAddAll(namespacesSet, ProcessSlotsNs(ss[i..], mode)) == SetAddAll(old(namespacesSet), ProcessSlotsNs(ss, mode))
      {
        ghost var before := r;
        ghost var nsBefore := namespacesSet;
        assert ss[i..][0] == ss[i] && ss[i..][1..] == ss[i + 1..];
        var part := ProcessSlot(ss[i], mode);
        r := r + part;
        SetAddAllConcat(nsBefore, ProcessSlotNs(ss[i], mode), ProcessSlotsNs(ss[i + 1..], mode));
        ConcatAssoc(before, part, ProcessSlots(ss[i + 1..], mode, json));
        i := i + 1;
      }
      assert ss[i..] == [];
      assert r == r + ProcessSlots([], mode, json);
    }

    /** The `map` callback over the slots of a node without an id: the
        slot's components processed as an array, or nothing. */
    method ProcessSlot(slot: Slot, mode: Mode) returns (part: string)
      requires mode == Full || mode == Targeted(targetComponentIds)
      modifies this`namespacesSet
      ensures part == Jsx.ProcessSlot(slot, mode, json)
      ensures namespacesSet == SetAddAll(old(namespacesSet), ProcessSlotNs(slot, mode))
      decreases slot, 2
    {
      part := "";
      if slot.components.Present? {
        part := ProcessList(slot.components.nodes, mode);
      }
    }

    /** `processData` on an array: the non-empty renderings joined by line
        breaks (`map`, `filter(Boolean)`, `join('\n')`). */
    method ProcessList(cs: seq<Node>, mode: Mode) returns (r: string)
      requires mode == Full || mode == Targeted(targetComponentIds)
      modifies this`namespacesSet
      ensures r == Jsx.ProcessList(cs, mode, json)
      ensures namespacesSet == SetAddAll(old(namespacesSet), ProcessListNs(cs, mode))
      decreases cs, 2
    {
      var parts: seq<string> := [];
      var j := 0;
      assert cs[j..] == cs;
      while j < |cs|
        invariant 0 <= j <= |cs|
        invariant forall k | 0 <= k < |parts| :: parts[k] != ""
        invariant JoinLine(Join(parts, "\n"), Jsx.ProcessList(cs[j..], mode, json)) == Jsx.ProcessList(cs, mode, json)
        invariant SetAddAll(namespacesSet, ProcessListNs(cs[j..], mode)) == SetAddAll(old(namespacesSet), ProcessListNs(cs, mode))
      {
        ListNsStep(cs, j, namespacesSet, mode);
        parts := ProcessListItem(cs, j, parts, mode);
        j := j + 1;
      }
      assert cs[j..] == [];
      r := Join(parts, "\n");
    }

    /** One round of the `filter(Boolean)` loop of `ProcessList`: renders
        `cs[j]` and keeps the text when it is not empty. */
    method ProcessListItem(cs: seq<Node>, j: nat, parts: seq<string>, mode: Mode) returns (parts': seq<string>)
      requires j < |cs|
      requires mode == Full || mode == Targeted(targetComponentIds)
      requires forall k | 0 <= k < |parts| :: parts[k] != ""
      modifies this`namespacesSet
      ensures forall k | 0 <= k < |parts'| :: parts'[k] != ""
      ensures JoinLine(Join(parts', "\n"), Jsx.ProcessList(cs[j + 1..], mode, json)) ==
        JoinLine(Join(parts, "\n"), Jsx.ProcessList(cs[j..], mode, json))
      ensures namespacesSet == SetAddAll(old(namespacesSet), ProcessNs(cs[j], mode))
      decreases cs, 1
    {
      var item := ProcessData(cs[j], mode);
      ProcessListStep(cs, j, parts, item, mode, json);
      parts' := parts;
      if item != "" {
        parts' := parts + [item];
      }
    }

    /** `ancestorNodes.map(node => this.processDataWithTargets(node))`. */
    method ProcessEach(nodes: seq<Node>, mode: Mode) returns (parts: seq<string>)
      requires mode == Full || mode == Targeted(targetComponentIds)
      modifies this`namespacesSet
      ensures parts == Jsx.ProcessAll(nodes, mode, json)
      ensures namespacesSet == SetAddAll(old(namespacesSet), ProcessAllNs(nodes, mode))
    {
      parts := [];
      var j := 0;
      assert nodes[j..] == nodes;
      while j < |nodes|
        invariant 0 <= j <= |nodes|
        invariant parts + Jsx.ProcessAll(nodes[j..], mode, json) == Jsx.ProcessAll(nodes, mode, json)
        invariant SetAddAll(namespacesSet, ProcessAllNs(nodes[j..], mode)) == SetAddAll(old(namespacesSet), ProcessAllNs(nodes, mode))
      {
        AllNsStep(nodes, j, namespacesSet, mode);
        var item := ProcessData(nodes[j], mode);
        AllStep(nodes, j, parts, item, mode, json);
        parts := parts + [item];
        j := j + 1;
      }
      assert nodes[j..] == [];
    }

    /** `generate(outlineInfo, targetComponentIds)`: clears the namespace
        set, stores the targets, and renders the whole outline (no targets)
        or each minimal common ancestor in target mode. */
    method Generate(outline: Node, targets: seq<string>) returns (r: ComponentsResult)
      modifies this`namespacesSet, this`targetComponentIds
      ensures r == Jsx.Generate(outline, targets, json)
      ensures namespacesSet == r.namespaces && targetComponentIds == targets
    {
      namespacesSet := [];
      targetComponentIds := targets;
      if |targets| == 0 {
        var jsx := ProcessData(outline, Full);
        return ComponentsResult(Some(outline.id), jsx, namespacesSet);
      }
      var ancestorNodes := FindMinimalCommonAncestors(outline, targets);
      r := RenderAncestors(ancestorNodes);
    }

    /** The target-mode part of `generate`: one ancestor is rendered
        alone, several would be rendered and joined by line breaks. */
    method RenderAncestors(ancestorNodes: seq<Node>) returns (r: ComponentsResult)
      requires |targetComponentIds| > 0 && namespacesSet == []
      modifies this`namespacesSet
      ensures r == Jsx.RenderAncestors(ancestorNodes, targetComponentIds, json)
      ensures namespacesSet == r.namespaces
    {
      var mode := Targeted(targetComponentIds);
      var jsx := "";
      if |ancestorNodes| == 1 {
        jsx := ProcessData(ancestorNodes[0], mode);
        assert ancestorNodes[1..] == [];
        assert ProcessAllNs(ancestorNodes, mode) == ProcessNs(ancestorNodes[0], mode) + [];
        assert ProcessNs(ancestorNodes[0], mode) + [] == ProcessNs(ancestorNodes[0], mode);
      } else {
        var parts := ProcessEach(ancestorNodes, mode);
        jsx := Join(parts, "\n");
      }
      r := ComponentsResult(if |ancestorNodes| > 0 then Some(ancestorNodes[0].id) else None, jsx, namespacesSet);
    }
  }

  /** One step of the loop of `CopyDefinedProps`. */
  lemma CopyStep(style: Value, props: seq<string>, k: nat, done: seq<Field>)
    requires k < |props|
    ensures done + CopyDefined(style, props[k..]) ==
      (done + (if Get(style, props[k]) != Undefined then [Field(props[k], Get(style, props[k]))] else []))
      + CopyDefined(style, props[k + 1..])
  {
    assert props[k..][0] == props[k] && props[k..][1..] == props[k + 1..];
  }

  /** One step of the loop of `GenerateSlotsJSX` on the text. */
  lemma SlotsStep(ss: seq<Slot>, i: nat, done: string, text: string, indent: string, mode: Mode, json: Value -> string)
    requires i < |ss| && text == SlotJSX(ss[i], indent, mode, json)
    ensures (done + text) + SlotsJSX(ss[i + 1..], indent, mode, json) == done + SlotsJSX(ss[i..], indent, mode, json)
  {
    assert ss[i..][0] == ss[i] && ss[i..][1..] == ss[i + 1..];
  }

  /** One step of the loop of `GenerateSlotsJSX` on the namespaces. */
  lemma SlotsNsStep(ss: seq<Slot>, i: nat, ns: seq<string>, mode: Mode)
    requires i < |ss|
    ensures SetAddAll(SetAddAll(ns, SlotNs(ss[i], mode)), SlotsNs(ss[i + 1..], mode)) == SetAddAll(ns, SlotsNs(ss[i..], mode))
  {
    assert ss[i..][0] == ss[i] && ss[i..][1..] == ss[i + 1..];
    SetAddAllConcat(ns, SlotNs(ss[i], mode), SlotsNs(ss[i + 1..], mode));
  }

  /** One step of the loop of `GenerateChildrenJSX` on the text. */
  lemma ChildrenStep(cs: seq<Node>, j: nat, done: string, text: string, indent: string, mode: Mode, json: Value -> string)
    requires j < |cs| && text == ChildText(cs[j], indent, mode, json)
    ensures (done + text) + ChildrenJSX(cs[j + 1..], indent, mode, json) == done + ChildrenJSX(cs[j..], indent, mode, json)
  {
    assert cs[j..][0] == cs[j] && cs[j..][1..] == cs[j + 1..];
  }

  /** One step of the loop of `GenerateChildrenJSX` on the namespaces. */
  lemma ChildrenNsStep(cs: seq<Node>, j: nat, ns: seq<string>, mode: Mode)
    requires j < |cs|
    ensures SetAddAll(SetAddAll(ns, ChildNs(cs[j], mode)), ChildrenNs(cs[j + 1..], mode)) == SetAddAll(ns, ChildrenNs(cs[j..], mode))
  {
    assert cs[j..][0] == cs[j] && cs[j..][1..] == cs[j + 1..];
    SetAddAllConcat(ns, ChildNs(cs[j], mode), ChildrenNs(cs[j + 1..], mode));
  }

  /** One step of the loop of `ProcessList` on the text. */
  lemma ProcessListStep(cs: seq<Node>, j: nat, kept: seq<string>, item: string, mode: Mode, json: Value -> string)
    requires j < |cs| && item == Jsx.ProcessData(cs[j], mode, json)
    requires forall k | 0 <= k < |kept| :: kept[k] != ""
    ensures JoinLine(Join(kept + (if item != "" then [item] else []), "\n"), Jsx.ProcessList(cs[j + 1..], mode, json)) ==
      JoinLine(Join(kept, "\n"), Jsx.ProcessList(cs[j..], mode, json))
  {
    assert cs[j..][0] == cs[j] && cs[j..][1..] == cs[j + 1..];
    JoinKeptStep(kept, item, Jsx.ProcessList(cs[j + 1..], mode, json));
  }

  /** One step of the loop of `ProcessList` on the namespaces. */
  lemma ListNsStep(cs: seq<Node>, j: nat, ns: seq<string>, mode: Mode)
    requires j < |cs|
    ensures SetAddAll(SetAddAll(ns, ProcessNs(cs[j], mode)), ProcessListNs(cs[j + 1..], mode)) ==
      SetAddAll(ns, ProcessListNs(cs[j..], mode))
  {
    assert cs[j..][0] == cs[j] && cs[j..][1..] == cs[j + 1..];
    SetAddAllConcat(ns, ProcessNs(cs[j], mode), ProcessListNs(cs[j + 1..], mode));
  }

  /** One step of the loop of `ProcessEach` on the texts. */
  lemma AllStep(nodes: seq<Node>, j: nat, done: seq<string>, item: string, mode: Mode, json: Value -> string)
    requires j < |nodes| && item == Jsx.ProcessData(nodes[j], mode, json)
    ensures (done + [item]) + Jsx.ProcessAll(nodes[j + 1..], mode, json) == done + Jsx.ProcessAll(nodes[j..], mode, json)
  {
    assert nodes[j..][0] == nodes[j] && nodes[j..][1..] == nodes[j + 1..];
  }

  /** One step of the loop of `ProcessEach` on the namespaces. */
  lemma AllNsStep(nodes: seq<Node>, j: nat, ns: seq<string>, mode: Mode)
    requires j < |nodes|
    ensures SetAddAll(SetAddAll(ns, ProcessNs(nodes[j], mode)), ProcessAllNs(nodes[j + 1..], mode)) ==
      SetAddAll(ns, ProcessAllNs(nodes[j..], mode))
  {
    assert nodes[j..][0] == nodes[j] && nodes[j..][1..] == nodes[j + 1..];
    SetAddAllConcat(ns, ProcessNs(nodes[j], mode), ProcessAllNs(nodes[j + 1..], mode));
  }

  lemma ConcatAssoc(a: string, b: string, c: string)
    ensures (a + b) + c == a + (b + c)
  {
  }

  /** One step of `map(...).filter(Boolean).join('\n')`: keeping `item`
      when it is non-empty and joining is joining it in front of the rest. */
  lemma JoinKeptStep(kept: seq<string>, item: string, rest: string)
    requires forall k | 0 <= k < |kept| :: kept[k] != ""
    ensures JoinLine(Join(kept + (if item != "" then [item] else []), "\n"), rest) ==
      JoinLine(Join(kept, "\n"), JoinLine(item, rest))
  {
    if item != "" {
      JoinAppend(kept, item, "\n");
      if kept != [] {
        JoinNonEmpty(kept, "\n");
      }
    } else {
      assert kept + [] == kept;
    }
    JoinLineAssoc(Join(kept, "\n"), item, rest);
  }
}
