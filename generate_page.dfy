/** The rule-based parts of the page generation tool: the canonical-root
    substitution `fixActions`, the callbacks `stream` fires for a chunk of
    output, and the summary `execute` returns. The actions parser, the
    operation summary, the id-to-title map and `stripFileBlocks` are
    foreign calls and arrive as parameters. */
module GeneratePage {
  import opened Wrappers
  import opened JsValues
  import opened Files
  import opened Actions

  const RootCom: string := "_root_"
  const RootSlot: string := "_rootSlot_"
  const AddChild: string := "addChild"

  /** `rootId`: the page's `id` when the page JSON has a truthy `asRoot`,
      otherwise undefined. */
  function RootId(pageJson: Value): (r: Value)
    ensures Truthy(Get(pageJson, "asRoot")) ==> r == Get(pageJson, "id")
    ensures !Truthy(Get(pageJson, "asRoot")) ==> r == Undefined
  {
    if Truthy(Get(pageJson, "asRoot")) then Get(pageJson, "id") else Undefined
  }

  /** The test of `fixActions`: an `addChild` into `_rootSlot_` addressed to
      the page's root component. */
  predicate AddsToRoot(a: Action, rootId: Value) {
    StrictEquals(a.comId, rootId) && a.actionType == Str(AddChild) && a.target == Str(RootSlot)
  }

  /** One action after `fixActions`. */
  function FixAction(a: Action, rootId: Value): (r: Action)
    ensures r.actionType == a.actionType && r.target == a.target && r.params == a.params
    ensures r.comId == (if AddsToRoot(a, rootId) then Str(RootCom) else a.comId)
  {
    if AddsToRoot(a, rootId) then a.(comId := Str(RootCom)) else a
  }

  /** The action list after `fixActions`, for a truthy `rootId`. */
  function FixAll(s: seq<Action>, rootId: Value): (r: seq<Action>)
    ensures |r| == |s|
    ensures forall i | 0 <= i < |s| :: r[i] == FixAction(s[i], rootId)
  {
    if s == [] then [] else [FixAction(s[0], rootId)] + FixAll(s[1..], rootId)
  }

  /** What `fixActions(actions, rootId)` returns, as a sequence. */
  function Fixed(s: seq<Action>, rootId: Value): seq<Action> {
    if !Truthy(rootId) then s else FixAll(s, rootId)
  }

  /** `fixActions`: with a falsy `rootId` the same array comes back;
      otherwise every action addressed to the root is rewritten in place and
      a new array holding the same actions is returned. */
  method FixActions(actions: array<Action>, rootId: Value) returns (r: array<Action>)
    modifies actions
    ensures actions[..] == Fixed(old(actions[..]), rootId)
    ensures r[..] == actions[..]
    ensures !Truthy(rootId) ==> r == actions
    ensures Truthy(rootId) ==> fresh(r)
  {
    if !Truthy(rootId) {
      return actions;
    }
    var i := 0;
    while i < actions.Length
      invariant 0 <= i <= actions.Length
      invariant forall k | 0 <= k < i :: actions[k] == FixAction(old(actions[k]), rootId)
      invariant forall k | i <= k < actions.Length :: actions[k] == old(actions[k])
    {
      var action := actions[i];
      if StrictEquals(action.comId, rootId) && action.actionType == Str(AddChild) && action.target == Str(RootSlot) {
        actions[i] := action.(comId := Str(RootCom));
      }
      i := i + 1;
    }
    r := new Action[actions.Length](k reads actions requires 0 <= k < actions.Length => actions[k]);
  }

  /** `fixActions` keeps the length and the order, changes only `comId`,
      and sets it to `_root_` exactly when the three conditions hold. */
  lemma FixedShape(s: seq<Action>, rootId: Value)
    ensures |Fixed(s, rootId)| == |s|
    ensures forall i | 0 <= i < |s| ::
      var a := Fixed(s, rootId)[i];
      a.actionType == s[i].actionType && a.target == s[i].target && a.params == s[i].params &&
      (Truthy(rootId) && AddsToRoot(s[i], rootId) ==> a.comId == Str(RootCom)) &&
      (!(Truthy(rootId) && AddsToRoot(s[i], rootId)) ==> a == s[i])
  {
  }

  /** Applying `fixActions` twice is applying it once. */
  lemma FixedIdempotent(s: seq<Action>, rootId: Value)
    ensures Fixed(Fixed(s, rootId), rootId) == Fixed(s, rootId)
  {
    if Truthy(rootId) {
      var once := FixAll(s, rootId);
      var twice := FixAll(once, rootId);
      forall i | 0 <= i < |s| ensures twice[i] == once[i] {
        if AddsToRoot(s[i], rootId) {
          assert once[i].comId == Str(RootCom);
        }
      }
    }
  }

  // ---------------------------------------------------------------------
  // `stream`

  /** A callback fired by `stream`. */
  datatype Event = ClearPage | Actions(actions: seq<Action>, status: string)

  /** `stream({files, status})`: the callbacks fired, in order. */
  method Stream(files: RxFiles, status: string, rootId: Value, parse: string -> seq<Action>) returns (events: seq<Event>)
    ensures var acts := Fixed(ParsedActions(files, parse), rootId);
            var fires := |acts| > 0 || status == "start" || status == "complete";
            (ClearPage in events <==> status == "start") &&
            (ClearPage in events ==> events[0] == ClearPage) &&
            (Actions(acts, status) in events <==> fires) &&
            |events| == (if status == "start" then 1 else 0) + (if fires then 1 else 0) &&
            forall e | e in events :: e == ClearPage || e == Actions(acts, status)
  {
    var _, parsed := ReadActions(files, parse);
    var buffer := new Action[|parsed|](k requires 0 <= k < |parsed| => parsed[k]);
    assert buffer[..] == parsed;
    var fixed := FixActions(buffer, rootId);
    var actions := fixed[..];
    events := [];
    if status == "start" {
      events := events + [ClearPage];
    }
    if |actions| > 0 || status == "start" || status == "complete" {
      events := events + [Actions(actions, status)];
    }
  }

  // ---------------------------------------------------------------------
  // `execute`

  /** What `execute` returns: the text for the model and the text shown. */
  datatype ToolResult = ToolResult(llmContent: string, displayContent: string)

  const ChangesLead: string := "修改内容如下\n"
  const NoChangesText: string := "当前没有内容修改"
  const FallbackText: string := "已执行所有操作"

  /** The summary `execute` builds once the actions are known, or the
      fallback text when a foreign call throws. */
  function Summary(llm: Outcome<string>, operations: Outcome<string>): string {
    if llm.Threw? || operations.Threw? then FallbackText
    else
      (if llm.value != "" then llm.value + "\n\n" else "")
      + (if operations.value != "" then ChangesLead + operations.value else NoChangesText)
  }

  /** `execute({files, content})`. `strip` is `stripFileBlocks`; `summarize`
      is `getComponentOperationSummary` with the page's id-to-title map;
      either may throw. */
  method Execute(files: RxFiles, content: string, rootId: Value, parse: string -> seq<Action>,
                 strip: string -> Outcome<string>, summarize: seq<Action> -> Outcome<string>)
    returns (r: ToolResult)
    ensures r.llmContent == r.displayContent
    ensures LastMatch(files, "json").None? ==> r.llmContent == content
    ensures LastMatch(files, "json").Some? ==>
      var acts := Fixed(ParsedActions(files, parse), rootId);
      r.llmContent == Summary(strip(content), if |acts| > 0 then summarize(acts) else Returned(""))
  {
    var found, parsed := ReadActions(files, parse);
    if !found {
      return ToolResult(content, content);
    }
    var buffer := new Action[|parsed|](k requires 0 <= k < |parsed| => parsed[k]);
    assert buffer[..] == parsed;
    var fixed := FixActions(buffer, rootId);
    var actions := fixed[..];
    var llmContent := strip(content);
    if llmContent.Threw? {
      return ToolResult(FallbackText, FallbackText);
    }
    var actionsContent := if |actions| > 0 then summarize(actions) else Returned("");
    if actionsContent.Threw? {
      return ToolResult(FallbackText, FallbackText);
    }
    var summary := (if llmContent.value != "" then llmContent.value + "\n\n" else "")
      + (if actionsContent.value != "" then ChangesLead + actionsContent.value else NoChangesText);
    r := ToolResult(summary, summary);
  }

  /** With no actions and no exception, the summary ends by saying nothing
      was changed. */
  lemma {:induction false} NoActionsSaysNoChanges(llm: string)
    ensures var s := Summary(Returned(llm), Returned(""));
            |s| >= |NoChangesText| && s[|s| - |NoChangesText|..] == NoChangesText
  {
    var s := Summary(Returned(llm), Returned(""));
    var lead := if llm != "" then llm + "\n\n" else "";
    assert s == lead + NoChangesText;
  }
}
