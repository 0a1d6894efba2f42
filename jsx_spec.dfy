/** What `ComponentsInfoGenerator` renders, as functions: the JSX-like text of
    a node and the namespaces recorded while rendering it, in full mode
    (`processData`, every branch expanded) and in target mode
    (`processDataWithTargets`, only branches that lead to a target). The
    imperative generator in module ComponentsInfo is proved to compute
    exactly these. `JSON.stringify` is the parameter `json`. */
module Jsx {
  import opened Wrappers
  import opened JsValues
  import opened Outline

  /** Full rendering, or rendering focused on a list of target ids. */
  datatype Mode = Full | Targeted(targets: seq<string>)

  /** The result of `ComponentsInfoGenerator.generate`: `id` is undefined when
      no ancestor was found. */
  datatype ComponentsResult = ComponentsResult(id: Option<string>, jsx: string, namespaces: seq<string>)

  // ---------------------------------------------------------------------
  // Attributes

  /** The properties `extractLayout` copies whenever they are not undefined. */
  const SizeProps: seq<string> :=
    ["width", "height", "margin", "marginLeft", "marginRight", "marginTop", "marginBottom"]

  function CopyDefined(style: Value, props: seq<string>): seq<Field> {
    if props == [] then []
    else
      (if Get(style, props[0]) != Undefined then [Field(props[0], Get(style, props[0]))] else [])
      + CopyDefined(style, props[1..])
  }

  const Display: string := "display"
  const FlexDirection: string := "flexDirection"
  const AlignItems: string := "alignItems"
  const JustifyContent: string := "justifyContent"

  /** The flex part of `extractLayout`, read only when `style.layout` is defined. */
  function FlexFields(style: Value): seq<Field> {
    DirectionFields(Get(style, "layout")) + CopyTruthy(style, AlignItems) + CopyTruthy(style, JustifyContent)
  }

  /** `display` and `flexDirection` for the three flex layouts. */
  function DirectionFields(l: Value): seq<Field> {
    (if l == Str("flex-column") || l == Str("flex")
     then [Field(Display, Str("flex")), Field(FlexDirection, Str("column"))] else [])
    + (if l == Str("flex-row") then [Field(Display, Str("flex")), Field(FlexDirection, Str("row"))] else [])
  }

  /** `if (style[key]) layout[key] = style[key]`. */
  function CopyTruthy(style: Value, key: string): seq<Field> {
    if Truthy(Get(style, key)) then [Field(key, Get(style, key))] else []
  }

  /** `extractLayout(style)`, as the object's fields in insertion order. */
  function ExtractLayout(style: Value): seq<Field> {
    if !Truthy(style) then []
    else CopyDefined(style, SizeProps) + (if Get(style, "layout") == Undefined then [] else FlexFields(style))
  }

  /** No two fields share a key, as in an object. */
  predicate UniqueKeys(fs: seq<Field>) {
    forall i, j | 0 <= i < j < |fs| :: fs[i].key != fs[j].key
  }

  /** The properties copied are among `props`, defined, with the style's
      value, each at most once; a property is copied exactly when it is
      defined. */
  lemma {:induction false} CopyDefinedFacts(style: Value, props: seq<string>)
    requires NoDuplicates(props)
    ensures forall f | f in CopyDefined(style, props) :: f.key in props && f.val == Get(style, f.key) && f.val != Undefined
    ensures forall p | p in props :: Field(p, Get(style, p)) in CopyDefined(style, props) <==> Get(style, p) != Undefined
    ensures UniqueKeys(CopyDefined(style, props))
  {
    if props != [] {
      CopyDefinedFacts(style, props[1..]);
      var head := if Get(style, props[0]) != Undefined then [Field(props[0], Get(style, props[0]))] else [];
      var rest := CopyDefined(style, props[1..]);
      assert CopyDefined(style, props) == head + rest;
      assert props[0] !in props[1..] by {
        forall k | 0 <= k < |props[1..]| ensures props[1..][k] != props[0] {
          assert props[1..][k] == props[k + 1];
        }
      }
      assert forall p | p in props :: p == props[0] || p in props[1..];
    }
  }

  /** The keys `extractLayout` may write besides the size properties. */
  const FlexProps: seq<string> := [Display, FlexDirection, AlignItems, JustifyContent]

  /** The flex keys differ from each other and from every size property:
      their first letters differ. */
  lemma FlexKeysDistinct()
    ensures Display != FlexDirection && Display != AlignItems && Display != JustifyContent
    ensures FlexDirection != AlignItems && FlexDirection != JustifyContent && AlignItems != JustifyContent
    ensures forall k | k in FlexProps :: k !in SizeProps
  {
    assert Display[0] == 'd' && FlexDirection[0] == 'f' && AlignItems[0] == 'a' && JustifyContent[0] == 'j';
    assert SizeProps[0][0] == 'w' && SizeProps[1][0] == 'h';
    assert forall j | 2 <= j < |SizeProps| :: SizeProps[j][0] == 'm';
    forall i, j | 0 <= i < |FlexProps| && 0 <= j < |SizeProps| ensures FlexProps[i] != SizeProps[j] {
      assert FlexProps[i][0] != SizeProps[j][0];
    }
  }

  /** The flex fields have keys among `FlexProps` and defined values. */
  lemma FlexFieldsKeys(style: Value)
    ensures forall f | f in FlexFields(style) :: f.key in FlexProps && f.val != Undefined
  {
    FlexKeysDistinct();
    DirectionFieldsFacts(Get(style, "layout"));
    CopyTruthyFacts(style, AlignItems);
    CopyTruthyFacts(style, JustifyContent);
    assert Display in FlexProps && FlexDirection in FlexProps && AlignItems in FlexProps && JustifyContent in FlexProps;
  }

  /** The flex fields have distinct keys. */
  lemma FlexFieldsUnique(style: Value)
    ensures UniqueKeys(FlexFields(style))
  {
    FlexKeysDistinct();
    var dir := DirectionFields(Get(style, "layout"));
    var align := CopyTruthy(style, AlignItems);
    var justify := CopyTruthy(style, JustifyContent);
    DirectionFieldsFacts(Get(style, "layout"));
    CopyTruthyFacts(style, AlignItems);
    CopyTruthyFacts(style, JustifyContent);
    UniqueKeysConcat(dir, align);
    UniqueKeysConcat(dir + align, justify);
  }

  /** A truthy copy writes `key` once, with a defined value. */
  lemma CopyTruthyFacts(style: Value, key: string)
    ensures forall f | f in CopyTruthy(style, key) :: f.key == key && f.val != Undefined
    ensures UniqueKeys(CopyTruthy(style, key))
  {
  }

  /** At most one flex layout applies, so `display` and `flexDirection`
      are written once each. */
  lemma DirectionFieldsFacts(l: Value)
    requires Display != FlexDirection
    ensures forall f | f in DirectionFields(l) :: (f.key == Display || f.key == FlexDirection) && f.val.Str?
    ensures UniqueKeys(DirectionFields(l))
  {
    if l == Str("flex-row") {
      assert l != Str("flex-column") && l != Str("flex");
    }
  }

  /** Two field lists with distinct keys and no key in common concatenate
      to one with distinct keys. */
  lemma UniqueKeysConcat(a: seq<Field>, b: seq<Field>)
    requires UniqueKeys(a) && UniqueKeys(b)
    requires forall f, g | f in a && g in b :: f.key != g.key
    ensures UniqueKeys(a + b)
  {
    forall i, j | 0 <= i < j < |a + b| ensures (a + b)[i].key != (a + b)[j].key {
      if i < |a| && j >= |a| {
        assert (a + b)[i] in a && (a + b)[j] in b;
      }
    }
  }

  /** `extractLayout` builds an object: every key at most once, every value
      defined; a size property is copied, with its value, exactly when the
      style is truthy and the property is defined. */
  lemma ExtractLayoutFacts(style: Value)
    ensures UniqueKeys(ExtractLayout(style))
    ensures forall f | f in ExtractLayout(style) :: f.val != Undefined
    ensures forall p | p in SizeProps ::
      Field(p, Get(style, p)) in ExtractLayout(style) <==> Truthy(style) && Get(style, p) != Undefined
  {
    if Truthy(style) {
      var sizes := CopyDefined(style, SizeProps);
      var flex: seq<Field> := if Get(style, "layout") == Undefined then [] else FlexFields(style);
      CopyDefinedFacts(style, SizeProps);
      FlexFieldsKeys(style);
      FlexFieldsUnique(style);
      FlexKeysDistinct();
      assert ExtractLayout(style) == sizes + flex;
      forall i, j | 0 <= i < j < |sizes + flex| ensures (sizes + flex)[i].key != (sizes + flex)[j].key {
        if j >= |sizes| && i < |sizes| {
          assert (sizes + flex)[i] in sizes && (sizes + flex)[j] in flex;
        }
      }
    }
  }

  /** One entry of `extractStyleArray`: `selector : { key: 'value', ... }`. */
  function StyleEntry(item: Value): string {
    var selector := Or(Get(item, "selector"), Str(""));
    var props := Entries(Or(Get(item, "css"), Obj([])));
    ToStr(selector) + " : { " + Join(seq(|props|, i requires 0 <= i < |props| =>
      props[i].key + ": '" + ToStr(props[i].val) + "'"), ", ") + " }"
  }

  /** `extractStyleArray(style)`: one entry per element of `style.css` when it is an array. */
  function ExtractStyleArray(style: Value): seq<string> {
    var css := Get(style, "css");
    if !Truthy(css) || !css.Arr? then []
    else seq(|css.items|, i requires 0 <= i < |css.items| => StyleEntry(css.items[i]))
  }

  /** `extractStyleArray` gives one entry per element of an array-valued
      `css`, each starting with its selector and ending with ` }`, and none
      for any other `css`. */
  lemma ExtractStyleArrayShape(style: Value)
    ensures var css := Get(style, "css");
      |ExtractStyleArray(style)| == (if Truthy(css) && css.Arr? then |css.items| else 0)
    ensures var css := Get(style, "css");
      forall i | 0 <= i < |ExtractStyleArray(style)| ::
        var e := ExtractStyleArray(style)[i];
        var sel := ToStr(Or(Get(css.items[i], "selector"), Str("")));
        |e| >= |sel| + 2 && e[..|sel|] == sel && e[|e| - 2..] == " }"
  {
  }

  // The pieces of text the renderers append, one per template literal

  /** `<namespace id="…" data={…}`. */
  function TagStart(ns: string, id: string, dataStr: string): string {
    "<" + ns + " id=\"" + id + "\" data={" + dataStr + "}"
  }

  /** ` layout={…}`. */
  function LayoutAttr(layoutStr: string): string {
    " layout={" + layoutStr + "}"
  }

  /** ` styleAry={["…", "…"]}`. */
  function StyleAryAttr(styles: seq<string>): string {
    " styleAry={[" + Join(seq(|styles|, i requires 0 <= i < |styles| => "\"" + styles[i] + "\""), ", ") + "]}"
  }

  /** The end of a component with slots, on its own line. */
  function TagEnd(indent: string, ns: string): string {
    "\n" + indent + "</" + ns + ">"
  }

  const SelfClosing: string := " />"

  /** The start of a slot, on its own line. */
  function SlotStart(indent: string, id: string): string {
    "\n" + indent + "<slots." + id
  }

  /** ` title="…"`. */
  function TitleAttr(title: string): string {
    " title=\"" + title + "\""
  }

  /** The end of a slot, on its own line. */
  function SlotEnd(indent: string, id: string): string {
    "\n" + indent + "</slots." + id + ">"
  }

  /** One rendered component inside a slot, on its own line. */
  function ChildLine(indent: string, child: string): string {
    "\n" + indent + "  " + child
  }

  /** The opening tag up to (not including) its end: namespace, id, data,
      then the layout and style attributes when they are not empty. */
  function Head(n: Node, json: Value -> string): string {
    var layout := ExtractLayout(n.style);
    var styles := ExtractStyleArray(n.style);
    TagStart(n.ns, n.id, json(Or(n.data, Obj([]))))
    + (if |layout| > 0 then LayoutAttr(json(Obj(layout))) else "")
    + (if |styles| > 0 then StyleAryAttr(styles) else "")
  }

  // ---------------------------------------------------------------------
  // Which parts are rendered

  /** `shouldExpandChildren`: the node is a target or contains one. */
  predicate ShouldExpandChildren(n: Node, targets: seq<string>) {
    n.id in targets || exists t | t in targets :: Contains(n, t)
  }

  /** Whether a rendered node's slots are written at all. */
  predicate Expands(n: Node, mode: Mode) {
    mode.Full? || ShouldExpandChildren(n, mode.targets)
  }

  /** Whether a slot is written: it needs an id; in target mode it also needs
      a components array and either a non-empty target list (the
      `parentIsTarget` shortcut) or a component that contains a target. */
  predicate SlotShown(s: Slot, mode: Mode) {
    s.id != "" &&
    (mode.Full? ||
     (s.components.Present? &&
      (|mode.targets| > 0 ||
       exists c | c in s.components.nodes :: exists t | t in mode.targets :: Contains(c, t))))
  }

  /** Whether a component of a written slot is rendered. */
  predicate ChildShown(c: Node, mode: Mode) {
    mode.Full? || |mode.targets| > 0 || exists t | t in mode.targets :: Contains(c, t)
  }

  // ---------------------------------------------------------------------
  // The rendered text

  /** `generateComponentJSX` / `generateComponentJSXWithTargets`. */
  function ComponentJSX(n: Node, indent: string, mode: Mode, json: Value -> string): string
    decreases n, 0
  {
    if n.id == "" || n.ns == "" then ""
    else if Expands(n, mode) then
      var inner := SlotsJSX(n.slots, indent + "  ", mode, json);
      if inner != "" then Head(n, json) + inner + TagEnd(indent, n.ns)
      else Head(n, json) + SelfClosing
    else Head(n, json) + SelfClosing
  }

  /** `generateSlotsJSX` / `generateSlotsJSXWithTargets`. */
  function SlotsJSX(ss: seq<Slot>, indent: string, mode: Mode, json: Value -> string): string {
    if ss == [] then "" else SlotJSX(ss[0], indent, mode, json) + SlotsJSX(ss[1..], indent, mode, json)
  }

  /** The text one slot contributes. */
  function SlotJSX(s: Slot, indent: string, mode: Mode, json: Value -> string): string {
    if !SlotShown(s, mode) then ""
    else
      SlotStart(indent, s.id)
      + (if s.title != "" then TitleAttr(s.title) else "")
      + (if Truthy(s.layout) then LayoutAttr(json(Obj(ExtractLayout(s.layout)))) else "")
      + ">"
      + (if s.components.Present? then ChildrenJSX(s.components.nodes, indent, mode, json) else "")
      + SlotEnd(indent, s.id)
  }

  /** The text the components of one written slot contribute. */
  function ChildrenJSX(cs: seq<Node>, indent: string, mode: Mode, json: Value -> string): string {
    if cs == [] then "" else ChildText(cs[0], indent, mode, json) + ChildrenJSX(cs[1..], indent, mode, json)
  }

  /** The text one component of a written slot contributes: its rendering
      on its own line, when it is shown and renders to something. */
  function ChildText(c: Node, indent: string, mode: Mode, json: Value -> string): string
    decreases c, 1
  {
    var child := if ChildShown(c, mode) then ComponentJSX(c, indent + "    ", mode, json) else "";
    if child != "" then ChildLine(indent, child) else ""
  }

  /** `a` and `b` joined by a line break, empty parts dropped. */
  function JoinLine(a: string, b: string): string {
    if a == "" then b else if b == "" then a else a + "\n" + b
  }

  /** Joining by line breaks does not depend on grouping. */
  lemma JoinLineAssoc(a: string, b: string, c: string)
    ensures JoinLine(JoinLine(a, b), c) == JoinLine(a, JoinLine(b, c))
  {
    if a != "" && b != "" && c != "" {
      assert (a + "\n" + b) + "\n" + c == a + "\n" + (b + "\n" + c);
    }
  }

  /** `processData` / `processDataWithTargets` on one node: a node with an id
      renders as a component, one without renders its slots' components. */
  function ProcessData(n: Node, mode: Mode, json: Value -> string): string
    decreases n, 2
  {
    if n.id != "" then ComponentJSX(n, "", mode, json) else ProcessSlots(n.slots, mode, json)
  }

  function ProcessSlots(ss: seq<Slot>, mode: Mode, json: Value -> string): string {
    if ss == [] then "" else ProcessSlot(ss[0], mode, json) + ProcessSlots(ss[1..], mode, json)
  }

  /** The `map` callback over the slots of a node without an id. */
  function ProcessSlot(s: Slot, mode: Mode, json: Value -> string): string {
    if s.components.Present? then ProcessList(s.components.nodes, mode, json) else ""
  }

  /** `processData` on an array: non-empty renderings joined by line breaks. */
  function ProcessList(cs: seq<Node>, mode: Mode, json: Value -> string): string {
    if cs == [] then "" else JoinLine(ProcessData(cs[0], mode, json), ProcessList(cs[1..], mode, json))
  }

  // ---------------------------------------------------------------------
  // The namespaces recorded, in the order `namespacesSet.add` sees them

  function RenderedNs(n: Node, mode: Mode): seq<string>
    decreases n, 0
  {
    if n.id == "" || n.ns == "" then []
    else [n.ns] + (if Expands(n, mode) then SlotsNs(n.slots, mode) else [])
  }

  function SlotsNs(ss: seq<Slot>, mode: Mode): seq<string> {
    if ss == [] then [] else SlotNs(ss[0], mode) + SlotsNs(ss[1..], mode)
  }

  function SlotNs(s: Slot, mode: Mode): seq<string> {
    if SlotShown(s, mode) && s.components.Present? then ChildrenNs(s.components.nodes, mode) else []
  }

  function ChildrenNs(cs: seq<Node>, mode: Mode): seq<string> {
    if cs == [] then [] else ChildNs(cs[0], mode) + ChildrenNs(cs[1..], mode)
  }

  function ChildNs(c: Node, mode: Mode): seq<string>
    decreases c, 1
  {
    if ChildShown(c, mode) then RenderedNs(c, mode) else []
  }

  function ProcessNs(n: Node, mode: Mode): seq<string> {
    if n.id != "" then RenderedNs(n, mode) else ProcessSlotsNs(n.slots, mode)
  }

  function ProcessSlotsNs(ss: seq<Slot>, mode: Mode): seq<string> {
    if ss == [] then [] else ProcessSlotNs(ss[0], mode) + ProcessSlotsNs(ss[1..], mode)
  }

  function ProcessSlotNs(s: Slot, mode: Mode): seq<string> {
    if s.components.Present? then ProcessListNs(s.components.nodes, mode) else []
  }

  function ProcessListNs(cs: seq<Node>, mode: Mode): seq<string> {
    if cs == [] then [] else ProcessNs(cs[0], mode) + ProcessListNs(cs[1..], mode)
  }

  /** The namespaces recorded for a list of start nodes, in order. */
  function ProcessAllNs(ns: seq<Node>, mode: Mode): seq<string> {
    if ns == [] then [] else ProcessNs(ns[0], mode) + ProcessAllNs(ns[1..], mode)
  }

  /** `ComponentsInfoGenerator.generate(outline, targets)`. With no targets
      the whole outline is rendered; otherwise the minimal common ancestors
      are rendered in target mode. The namespace set is cleared first, so
      the namespaces are those recorded in this call, without repeats. */
  function Generate(outline: Node, targets: seq<string>, json: Value -> string): ComponentsResult {
    if |targets| == 0 then
      ComponentsResult(Some(outline.id), ProcessData(outline, Full, json), SetAddAll([], ProcessNs(outline, Full)))
    else
      RenderAncestors(MinimalCommonAncestors(outline, targets), targets, json)
  }

  /** `nodes.map(node => processDataWithTargets(node))`. */
  function ProcessAll(nodes: seq<Node>, mode: Mode, json: Value -> string): seq<string> {
    if nodes == [] then [] else [ProcessData(nodes[0], mode, json)] + ProcessAll(nodes[1..], mode, json)
  }

  /** The target-mode part of `generate`, once the ancestors are known. */
  function RenderAncestors(anc: seq<Node>, targets: seq<string>, json: Value -> string): ComponentsResult {
    var mode := Targeted(targets);
    var jsx :=
      if |anc| == 1 then ProcessData(anc[0], mode, json)
      else Join(ProcessAll(anc, mode, json), "\n");
    ComponentsResult(if |anc| > 0 then Some(anc[0].id) else None, jsx, SetAddAll([], ProcessAllNs(anc, mode)))
  }

  // ---------------------------------------------------------------------
  // Which nodes are rendered, stated as a relation

  /** `m` is rendered as a component when `n` is rendered as one: `n` has an
      id and a namespace, and `m` is `n` or is rendered below one of its
      components that is shown in a written slot of an expanded `n`. */
  predicate Shown(m: Node, n: Node, mode: Mode) {
    n.id != "" && n.ns != "" &&
    (m == n ||
     (Expands(n, mode) &&
      exists s | s in n.slots :: SlotShown(s, mode) && s.components.Present? &&
        exists c | c in s.components.nodes :: ChildShown(c, mode) && Shown(m, c, mode)))
  }

  /** `m` is rendered when `processData` starts at `n`. */
  predicate ProcessShown(m: Node, n: Node, mode: Mode) {
    if n.id != "" then Shown(m, n, mode)
    else exists s | s in n.slots :: (s.components.Present? &&
      exists c | c in s.components.nodes :: ProcessShown(m, c, mode))
  }

  /** The namespaces recorded while rendering `n` are exactly the namespaces
      of the nodes rendered. */
  lemma {:induction false} RenderedNsExact(n: Node, mode: Mode, x: string)
    ensures x in RenderedNs(n, mode) <==> exists m | Shown(m, n, mode) :: m.ns == x
  {
    if n.id != "" && n.ns != "" && x != n.ns {
      SlotsNsExact(n.slots, mode, x);
      if x in RenderedNs(n, mode) {
        var s :| s in n.slots && SlotShown(s, mode) && s.components.Present? &&
          exists c | c in s.components.nodes :: ChildShown(c, mode) && exists m | Shown(m, c, mode) :: m.ns == x;
        var c :| c in s.components.nodes && ChildShown(c, mode) && exists m | Shown(m, c, mode) :: m.ns == x;
        var m :| Shown(m, c, mode) && m.ns == x;
        assert Shown(m, n, mode);
      }
    } else if n.id != "" && n.ns != "" {
      assert Shown(n, n, mode);
    }
  }

  lemma {:induction false} SlotsNsExact(ss: seq<Slot>, mode: Mode, x: string)
    ensures x in SlotsNs(ss, mode) <==>
      exists s | s in ss :: SlotShown(s, mode) && s.components.Present? &&
        exists c | c in s.components.nodes :: ChildShown(c, mode) && exists m | Shown(m, c, mode) :: m.ns == x
  {
    if ss != [] {
      if SlotShown(ss[0], mode) && ss[0].components.Present? {
        ChildrenNsExact(ss[0].components.nodes, mode, x);
      }
      SlotsNsExact(ss[1..], mode, x);
      assert ss == [ss[0]] + ss[1..];
    }
  }

  lemma {:induction false} ChildrenNsExact(cs: seq<Node>, mode: Mode, x: string)
    ensures x in ChildrenNs(cs, mode) <==>
      exists c | c in cs :: ChildShown(c, mode) && exists m | Shown(m, c, mode) :: m.ns == x
  {
    if cs != [] {
      RenderedNsExact(cs[0], mode, x);
      ChildrenNsExact(cs[1..], mode, x);
      assert cs == [cs[0]] + cs[1..];
    }
  }

  /** The same for `processData`, which may start at a node without an id. */
  lemma {:induction false} ProcessNsExact(n: Node, mode: Mode, x: string)
    ensures x in ProcessNs(n, mode) <==> exists m | ProcessShown(m, n, mode) :: m.ns == x
  {
    if n.id != "" {
      RenderedNsExact(n, mode, x);
    } else {
      ProcessSlotsNsExact(n.slots, mode, x);
      if x in ProcessNs(n, mode) {
        var s :| s in n.slots && s.components.Present? &&
          exists c | c in s.components.nodes :: exists m | ProcessShown(m, c, mode) :: m.ns == x;
        var c :| c in s.components.nodes && exists m | ProcessShown(m, c, mode) :: m.ns == x;
        var m :| ProcessShown(m, c, mode) && m.ns == x;
        assert ProcessShown(m, n, mode);
      }
    }
  }

  lemma {:induction false} ProcessSlotsNsExact(ss: seq<Slot>, mode: Mode, x: string)
    ensures x in ProcessSlotsNs(ss, mode) <==>
      exists s | s in ss :: s.components.Present? &&
        exists c | c in s.components.nodes :: exists m | ProcessShown(m, c, mode) :: m.ns == x
  {
    if ss != [] {
      if ss[0].components.Present? {
        ProcessListNsExact(ss[0].components.nodes, mode, x);
      }
      ProcessSlotsNsExact(ss[1..], mode, x);
      assert ss == [ss[0]] + ss[1..];
    }
  }

  lemma {:induction false} ProcessListNsExact(cs: seq<Node>, mode: Mode, x: string)
    ensures x in ProcessListNs(cs, mode) <==>
      exists c | c in cs :: exists m | ProcessShown(m, c, mode) :: m.ns == x
  {
    if cs != [] {
      ProcessNsExact(cs[0], mode, x);
      ProcessListNsExact(cs[1..], mode, x);
      assert cs == [cs[0]] + cs[1..];
      if x in ProcessNs(cs[0], mode) {
        assert cs[0] in cs;
      } else if x in ProcessListNs(cs[1..], mode) {
        var c :| c in cs[1..] && exists m | ProcessShown(m, c, mode) :: m.ns == x;
        assert c in cs;
      }
      if exists c | c in cs :: exists m | ProcessShown(m, c, mode) :: m.ns == x {
        var c :| c in cs && exists m | ProcessShown(m, c, mode) :: m.ns == x;
        if c != cs[0] {
          assert c in cs[1..];
        }
      }
    }
  }

  lemma {:induction false} ProcessAllNsExact(starts: seq<Node>, mode: Mode, x: string)
    ensures x in ProcessAllNs(starts, mode) <==>
      exists a | a in starts :: exists m | ProcessShown(m, a, mode) :: m.ns == x
  {
    if starts != [] {
      ProcessNsExact(starts[0], mode, x);
      ProcessAllNsExact(starts[1..], mode, x);
      assert starts == [starts[0]] + starts[1..];
      if x in ProcessNs(starts[0], mode) {
        assert starts[0] in starts;
      } else if x in ProcessAllNs(starts[1..], mode) {
        var a :| a in starts[1..] && exists m | ProcessShown(m, a, mode) :: m.ns == x;
        assert a in starts;
      }
      if exists a | a in starts :: exists m | ProcessShown(m, a, mode) :: m.ns == x {
        var a :| a in starts && exists m | ProcessShown(m, a, mode) :: m.ns == x;
        if a != starts[0] {
          assert a in starts[1..];
        }
      }
    }
  }

  /** The nodes `generate` starts rendering from, and the mode it renders in. */
  function Starts(outline: Node, targets: seq<string>): seq<Node> {
    if |targets| == 0 then [outline] else MinimalCommonAncestors(outline, targets)
  }

  function ModeFor(targets: seq<string>): Mode {
    if |targets| == 0 then Full else Targeted(targets)
  }

  /** `generate` returns each namespace once, and exactly the namespaces of
      the nodes it rendered in this call (the set is cleared on entry, so
      nothing from an earlier call leaks in). */
  lemma GenerateNamespacesExact(outline: Node, targets: seq<string>, json: Value -> string, x: string)
    ensures NoDuplicates(Generate(outline, targets, json).namespaces)
    ensures x in Generate(outline, targets, json).namespaces <==>
      exists a | a in Starts(outline, targets) :: exists m | ProcessShown(m, a, ModeFor(targets)) :: m.ns == x
  {
    var all := ProcessAllNs(Starts(outline, targets), ModeFor(targets));
    GenerateRecordsAll(outline, targets, json);
    SetAddAllFacts([], all);
    ProcessAllNsExact(Starts(outline, targets), ModeFor(targets), x);
  }

  lemma GenerateRecordsAll(outline: Node, targets: seq<string>, json: Value -> string)
    ensures Generate(outline, targets, json).namespaces ==
      SetAddAll([], ProcessAllNs(Starts(outline, targets), ModeFor(targets)))
  {
    if |targets| == 0 {
      assert [outline][1..] == [];
      assert ProcessAllNs([outline], Full) == ProcessNs(outline, Full) + [];
      assert ProcessNs(outline, Full) + [] == ProcessNs(outline, Full);
    }
  }

  // ---------------------------------------------------------------------
  // Target mode expands only the branches that lead to a target

  /** In target mode a node that neither is nor contains a target is written
      as a self-closing tag, and nothing below it is rendered. */
  lemma TargetModeCollapses(n: Node, indent: string, ts: seq<string>, json: Value -> string)
    requires n.id != "" && n.ns != ""
    requires forall t | t in ts :: !Contains(n, t)
    ensures ComponentJSX(n, indent, Targeted(ts), json) == Head(n, json) + SelfClosing
    ensures RenderedNs(n, Targeted(ts)) == [n.ns]
    ensures forall m | Shown(m, n, Targeted(ts)) :: m == n
  {
    if n.id in ts {
      assert Contains(n, n.id);
    }
  }

  /** A slot that is written contributes text. */
  lemma {:induction false} SlotsJSXNonEmpty(ss: seq<Slot>, indent: string, mode: Mode, json: Value -> string)
    requires exists s | s in ss :: SlotShown(s, mode)
    ensures SlotsJSX(ss, indent, mode, json) != ""
  {
    if !SlotShown(ss[0], mode) {
      assert exists s | s in ss[1..] :: SlotShown(s, mode) by {
        var s :| s in ss && SlotShown(s, mode);
        assert s != ss[0];
        assert ss == [ss[0]] + ss[1..];
      }
      SlotsJSXNonEmpty(ss[1..], indent, mode, json);
    } else {
      assert SlotStart(indent, ss[0].id)[0] == '\n';
      assert SlotJSX(ss[0], indent, mode, json)[0] == '\n';
    }
  }

  /** In target mode a node that is or contains a target and has a slot
      with an id and a components array is written open, with its slots,
      and closed by its end tag. */
  lemma TargetModeExpands(n: Node, indent: string, ts: seq<string>, json: Value -> string, t: string)
    requires n.id != "" && n.ns != ""
    requires t in ts && Contains(n, t)
    requires exists s | s in n.slots :: s.id != "" && s.components.Present?
    ensures ComponentJSX(n, indent, Targeted(ts), json) ==
      Head(n, json) + SlotsJSX(n.slots, indent + "  ", Targeted(ts), json) + TagEnd(indent, n.ns)
  {
    SlotsJSXNonEmpty(n.slots, indent + "  ", Targeted(ts), json);
  }

  /** A node renders to non-empty text exactly when it has an id and a namespace. */
  lemma ComponentJSXNonEmpty(n: Node, indent: string, mode: Mode, json: Value -> string)
    ensures ComponentJSX(n, indent, mode, json) != "" <==> n.id != "" && n.ns != ""
  {
    if n.id != "" && n.ns != "" {
      assert TagStart(n.ns, n.id, json(Or(n.data, Obj([]))))[0] == '<';
      assert ComponentJSX(n, indent, mode, json)[0] == '<';
    }
  }
}
