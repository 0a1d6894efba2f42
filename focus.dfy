/** The focus descriptions: `FocusDescriptionGenerator.generate` of the
    workspace and the three `generate*FocusDescription` formatters of the
    agent glue. They differ only in their framing text and in what they do
    with an unfocused or unknown focus. */
module Focus {
  import opened Wrappers

  /** `FocusInfo`; every field may be undefined. */
  datatype FocusInfo = FocusInfo(
    pageId: Option<string>,
    comId: Option<string>,
    title: Option<string>,
    focusType: Option<string>)

  const UiCom: string := "uiCom"
  const PageType: string := "page"
  const SectionType: string := "section"

  /** A template literal's rendering of a possibly undefined string. */
  function Show(v: Option<string>): string {
    if v.Some? then v.value else "undefined"
  }

  /** JavaScript truthiness of a possibly undefined string. */
  predicate Truthy(v: Option<string>) {
    v.Some? && v.value != ""
  }

  /** `组件(title=…,组件id=…)`. */
  function ComponentText(f: FocusInfo): string {
    "组件(title=" + Show(f.title) + ",组件id=" + Show(f.comId) + ")"
  }

  /** `页面(title=…,页面id=…)`. */
  function PageText(f: FocusInfo): string {
    "页面(title=" + Show(f.title) + ",页面id=" + Show(f.pageId) + ")"
  }

  /** `未知类型(title=…)`. */
  function UnknownText(f: FocusInfo): string {
    "未知类型(title=" + Show(f.title) + ")"
  }

  /** The focus is on one of the three element kinds the formatters know. */
  predicate KnownType(f: FocusInfo) {
    f.focusType == Some(UiCom) || f.focusType == Some(PageType) || f.focusType == Some(SectionType)
  }

  /** The `if / else if` chain shared by the three agent formatters: a
      component, a page (for `page` and for `section`), or nothing. */
  function Describe(f: FocusInfo): (r: string)
    ensures r != "" <==> KnownType(f)
  {
    if f.focusType == Some(UiCom) then ComponentText(f)
    else if f.focusType == Some(PageType) then PageText(f)
    else if f.focusType == Some(SectionType) then PageText(f)
    else ""
  }

  const FocusedLead: string := "当前已聚焦到"
  const FocusedTail: string := "中，后续用户的提问，关于\"这个\"、\"此\"、\"整体\"，甚至不提主语，都是指代此元素及其子组件内容。"
  const NoFocusText: string := "当前没有聚焦到任何页面或组件。"
  const HistoryLead: string := "对于"

  /** `generateFocusDescription`. */
  function FocusDescription(f: FocusInfo): string {
    FocusedLead + Describe(f) + FocusedTail
  }

  /** `generateHistoryFocusDescription`. */
  function HistoryFocusDescription(f: FocusInfo): string {
    HistoryLead + Describe(f)
  }

  /** `generateFocusTargetDescription`. */
  function FocusTargetDescription(f: FocusInfo): string {
    Describe(f)
  }

  /** `FocusDescriptionGenerator.generate`: a fixed text when neither id is
      truthy; otherwise the focused text, with `未知类型` for any type other
      than the three known ones. */
  function WorkspaceFocusDescription(f: FocusInfo): string {
    if !Truthy(f.pageId) && !Truthy(f.comId) then NoFocusText
    else
      var desc := if f.focusType == Some(UiCom) then ComponentText(f)
        else if f.focusType == Some(PageType) || f.focusType == Some(SectionType) then PageText(f)
        else UnknownText(f);
      FocusedLead + desc + FocusedTail
  }

  // ---------------------------------------------------------------------
  // Properties

  /** In every formatter `page` and `section` give identical text. */
  lemma PageAndSectionAgree(f: FocusInfo)
    ensures var p := f.(focusType := Some(PageType));
            var s := f.(focusType := Some(SectionType));
            Describe(p) == Describe(s) &&
            FocusDescription(p) == FocusDescription(s) &&
            HistoryFocusDescription(p) == HistoryFocusDescription(s) &&
            FocusTargetDescription(p) == FocusTargetDescription(s) &&
            WorkspaceFocusDescription(p) == WorkspaceFocusDescription(s)
  {
  }

  /** An unknown type gives an empty inner description in the agent
      formatters. */
  lemma UnknownTypeIsEmpty(f: FocusInfo)
    requires !KnownType(f)
    ensures FocusTargetDescription(f) == ""
    ensures HistoryFocusDescription(f) == HistoryLead
    ensures FocusDescription(f) == FocusedLead + FocusedTail
  {
  }

  /** The workspace reports "no focus" exactly when neither the page id nor
      the component id is truthy. */
  lemma {:induction false} NoFocusExactly(f: FocusInfo)
    ensures WorkspaceFocusDescription(f) == NoFocusText <==> !Truthy(f.pageId) && !Truthy(f.comId)
  {
    if Truthy(f.pageId) || Truthy(f.comId) {
      var r := WorkspaceFocusDescription(f);
      assert r[2] == FocusedLead[2];
      assert NoFocusText[2] != FocusedLead[2];
    }
  }

  /** With a focused id and a known type, the workspace's description is
      the agent's `generateFocusDescription`. */
  lemma WorkspaceAgreesWhenFocused(f: FocusInfo)
    requires Truthy(f.pageId) || Truthy(f.comId)
    requires KnownType(f)
    ensures WorkspaceFocusDescription(f) == FocusDescription(f)
  {
  }
}
