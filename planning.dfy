/** `planningCheck`, the rule-based repair of a tool plan made by the
    agent: it adds at most one missing step. The tool names are the
    `toolName`s of the tool registry, which is not part of this model, so
    they arrive as a parameter. */
module Planning {
  import opened Wrappers
  import opened JsValues

  /** One plan step `[kind, toolName, params?]`; absent params are undefined. */
  datatype Step = Step(kind: string, name: string, params: Value)

  /** The `toolName`s the rules mention. */
  datatype ToolNames = ToolNames(
    openDsl: string,
    componentsDoc: string,
    answer: string,
    generatePage: string,
    refactorComponent: string)

  /** `tools.map(tool => tool[1])`. */
  function StepNames(tools: seq<Step>): (r: seq<string>)
    ensures |r| == |tools| && forall i | 0 <= i < |tools| :: r[i] == tools[i].name
  {
    seq(|tools|, i requires 0 <= i < |tools| => tools[i].name)
  }

  /** `Array.prototype.indexOf`: the first index holding `x`, or -1. */
  function IndexOf(xs: seq<string>, x: string): (r: int)
    ensures -1 <= r < |xs|
    ensures r >= 0 ==> xs[r] == x && forall j | 0 <= j < r :: xs[j] != x
    ensures r == -1 ==> forall j | 0 <= j < |xs| :: xs[j] != x
  {
    if xs == [] then -1
    else if xs[0] == x then 0
    else
      var r := IndexOf(xs[1..], x);
      assert forall j | 1 <= j < |xs| :: xs[j] == xs[1..][j - 1];
      if r == -1 then -1 else r + 1
  }

  /** Rule 1: the plan ends with an information tool. */
  predicate EndsWithInfoTool(tools: seq<Step>, names: ToolNames) {
    |tools| > 0 && (tools[|tools| - 1].name == names.openDsl || tools[|tools| - 1].name == names.componentsDoc)
  }

  /** Rule 2: page generation with no requirement tool before its first
      occurrence. */
  predicate GeneratesWithoutRequirement(tools: seq<Step>, names: ToolNames) {
    var g := IndexOf(StepNames(tools), names.generatePage);
    g >= 0 && forall j | 0 <= j < g :: tools[j].name != names.componentsDoc && tools[j].name != names.openDsl
  }

  /** Rule 3: refactoring with no `OpenDsl` before its first occurrence. */
  predicate RefactorsWithoutOpenDsl(tools: seq<Step>, names: ToolNames) {
    var r := IndexOf(StepNames(tools), names.refactorComponent);
    r >= 0 && forall j | 0 <= j < r :: tools[j].name != names.openDsl
  }

  const NodeKind: string := "node"

  /** `['node', Answer]`. */
  function AnswerStep(names: ToolNames): Step {
    Step(NodeKind, names.answer, Undefined)
  }

  /** `['node', GetComponentsDocAndPrd]`. */
  function ComponentsDocStep(names: ToolNames): Step {
    Step(NodeKind, names.componentsDoc, Undefined)
  }

  /** `['node', OpenDsl, {ids: targetPageId}]`. */
  function OpenDslStep(names: ToolNames, targetPageId: Value): Step {
    Step(NodeKind, names.openDsl, Obj([Field("ids", targetPageId)]))
  }

  /** `tools` with `s` inserted before index `k`. */
  function InsertAt(tools: seq<Step>, k: nat, s: Step): (r: seq<Step>)
    requires k <= |tools|
    ensures |r| == |tools| + 1 && r[k] == s && r[..k] + r[k + 1..] == tools
  {
    var r := tools[..k] + [s] + tools[k..];
    assert r[..k] == tools[..k] && r[k + 1..] == tools[k..];
    r
  }

  /** `planningCheck(tools)`: a copy of the plan, with the first rule that
      applies adding one step: an `Answer` step after a trailing information
      tool; a components-document step before the first page generation
      that nothing prepared; an `OpenDsl` step for the focused page before
      the first refactoring that no `OpenDsl` precedes. */
  method PlanningCheck(tools: seq<Step>, names: ToolNames, targetPageId: Value) returns (result: seq<Step>)
    ensures EndsWithInfoTool(tools, names) ==> result == tools + [AnswerStep(names)]
    ensures !EndsWithInfoTool(tools, names) && GeneratesWithoutRequirement(tools, names) ==>
      result == InsertAt(tools, IndexOf(StepNames(tools), names.generatePage), ComponentsDocStep(names))
    ensures !EndsWithInfoTool(tools, names) && !GeneratesWithoutRequirement(tools, names) && RefactorsWithoutOpenDsl(tools, names) ==>
      result == InsertAt(tools, IndexOf(StepNames(tools), names.refactorComponent), OpenDslStep(names, targetPageId))
    ensures !EndsWithInfoTool(tools, names) && !GeneratesWithoutRequirement(tools, names) && !RefactorsWithoutOpenDsl(tools, names) ==>
      result == tools
    ensures |result| == |tools| || (|result| == |tools| + 1 && exists k | 0 <= k < |result| :: result[..k] + result[k + 1..] == tools)
    ensures tools == [] ==> result == []
  {
    var toolNames := StepNames(tools);
    result := tools;
    if EndsWithInfoTool(tools, names) {
      result := result + [AnswerStep(names)];
      assert result[..|tools|] + result[|tools| + 1..] == tools;
      return;
    }
    var generatePageIndex := IndexOf(toolNames, names.generatePage);
    if GeneratesWithoutRequirement(tools, names) {
      result := InsertAt(result, generatePageIndex, ComponentsDocStep(names));
      return;
    }
    var refactorIndex := IndexOf(toolNames, names.refactorComponent);
    if RefactorsWithoutOpenDsl(tools, names) {
      result := InsertAt(result, refactorIndex, OpenDslStep(names, targetPageId));
      return;
    }
  }
}
