/** `WorkSpace`: the per-conversation record of which documents the agent
    has open. Pages are opened as separate entries; every opened component
    shares one consolidated `组件` entry that is rewritten in place; the
    namespaces of rendered components are kept, without repeats, as the
    component documentation to show. */
module Workspace {
  import opened Wrappers
  import opened Outline
  import opened Pages
  import opened Focus
  import Jsx
  import opened ComponentsInfo

  /** `DocumentInfo`. The id of the consolidated component entry comes from
      the rendering and is undefined when no ancestor was found. */
  datatype DocumentInfo = DocumentInfo(
    id: Option<string>,
    docType: string,
    title: string,
    desc: string,
    content: string)

  const PageDoc: string := "页面"
  const ComponentDoc: string := "组件"

  /** The read side of the host API: `getOutlineInfo(id, 'page')` and
      `getAllPageInfo()`, taken as fixed for the life of the workspace. */
  datatype Host = Host(outlineOf: Option<string> -> Node, pages: AllPageInfo)

  predicate IsComponentDoc(d: DocumentInfo) {
    d.docType == ComponentDoc
  }

  /** Some open document has id `id`. */
  predicate AlreadyOpen(docs: seq<DocumentInfo>, id: string) {
    exists k | 0 <= k < |docs| :: docs[k].id == Some(id)
  }

  /** The number of `组件` entries. */
  function CountComponentDocs(docs: seq<DocumentInfo>): nat {
    if docs == [] then 0 else (if IsComponentDoc(docs[0]) then 1 else 0) + CountComponentDocs(docs[1..])
  }

  /** The index of the first `组件` entry, if any. */
  function FirstComponentDoc(docs: seq<DocumentInfo>): (r: Option<nat>)
    ensures r.Some? ==> r.value < |docs| && IsComponentDoc(docs[r.value]) &&
                        forall j | 0 <= j < r.value :: !IsComponentDoc(docs[j])
    ensures r.None? ==> CountComponentDocs(docs) == 0 && forall j | 0 <= j < |docs| :: !IsComponentDoc(docs[j])
  {
    if docs == [] then None
    else if IsComponentDoc(docs[0]) then Some(0)
    else
      var r := FirstComponentDoc(docs[1..]);
      assert forall j | 1 <= j < |docs| :: docs[j] == docs[1..][j - 1];
      if r.Some? then Some(r.value + 1) else None
  }

  /** The defined ids of the `组件` entries, in order: the previously opened
      components that `openDocument` passes on as targets. An undefined id
      is dropped, since it can equal no node id. */
  function ComponentDocIds(docs: seq<DocumentInfo>): (r: seq<string>)
    ensures forall t | t in r :: exists k | 0 <= k < |docs| :: IsComponentDoc(docs[k]) && docs[k].id == Some(t)
  {
    if docs == [] then []
    else
      var rest := ComponentDocIds(docs[1..]);
      assert forall t | t in rest :: exists k | 1 <= k < |docs| :: IsComponentDoc(docs[k]) && docs[k].id == Some(t) by {
        forall t | t in rest ensures exists k | 1 <= k < |docs| :: IsComponentDoc(docs[k]) && docs[k].id == Some(t) {
          var k :| 0 <= k < |docs[1..]| && IsComponentDoc(docs[1..][k]) && docs[1..][k].id == Some(t);
          assert docs[k + 1] == docs[1..][k];
        }
      }
      (if IsComponentDoc(docs[0]) && docs[0].id.Some? then [docs[0].id.value] else []) + rest
  }

  // ---------------------------------------------------------------------
  // `openDocument`, specified on the state it leaves behind

  /** `!!findPageById(id)`: `id` names a page of the page index. */
  predicate IsPage(host: Host, id: string) {
    FirstWithId(Preorder(AllPages(host.pages)), id).Some?
  }

  /** The rendering `openDocument(id)` asks for: the whole page for a page;
      for a component, the focused page targeted at the previously opened
      components and `id`. */
  function OpenRendering(host: Host, focus: FocusInfo, docs: seq<DocumentInfo>, id: string, json: JsValues.Value -> string): Jsx.ComponentsResult {
    if IsPage(host, id) then Jsx.Generate(host.outlineOf(Some(id)), [], json)
    else Jsx.Generate(host.outlineOf(focus.pageId), ComponentDocIds(docs) + [id], json)
  }

  /** Where `openDocument` puts a rendering `r` of `id`: a page is appended
      as its own `页面` entry; a component rewrites the first `组件` entry's
      content and id, or is appended as the `组件` entry when there is none. */
  function Place(docs: seq<DocumentInfo>, id: string, isPage: bool, r: Jsx.ComponentsResult): seq<DocumentInfo> {
    if isPage then docs + [DocumentInfo(Some(id), PageDoc, "", "", r.jsx)]
    else
      var k := FirstComponentDoc(docs);
      if k.Some? then docs[k.value := docs[k.value].(content := r.jsx, id := r.id)]
      else docs + [DocumentInfo(r.id, ComponentDoc, "", "", r.jsx)]
  }

  /** The open documents after `openDocument(id)`. */
  function DocsAfterOpen(host: Host, focus: FocusInfo, docs: seq<DocumentInfo>, id: string, json: JsValues.Value -> string): seq<DocumentInfo> {
    if AlreadyOpen(docs, id) then docs
    else Place(docs, id, IsPage(host, id), OpenRendering(host, focus, docs, id, json))
  }

  /** The component documentation list after `openDocument(id)`. */
  function NamespacesAfterOpen(host: Host, focus: FocusInfo, docs: seq<DocumentInfo>, nss: seq<string>, id: string, json: JsValues.Value -> string): seq<string> {
    if AlreadyOpen(docs, id) then nss
    else SetAddAll(nss, OpenRendering(host, focus, docs, id, json).namespaces)
  }

  // ---------------------------------------------------------------------
  // `generateOpenedDocumentsList`

  const NoDocumentsText: string := "暂无打开的文档"

  /** `- title[id=…](type)`, the description and the content of one entry. */
  function DocLine(d: DocumentInfo): string {
    "- " + d.title + "[id=" + Show(d.id) + "](" + d.docType + ")\n  描述：" + d.desc + "\n  内容：" + d.content
  }

  function DocLines(docs: seq<DocumentInfo>): (r: seq<string>)
    ensures |r| == |docs|
    ensures forall k | 0 <= k < |docs| :: r[k] == DocLine(docs[k])
  {
    if docs == [] then [] else [DocLine(docs[0])] + DocLines(docs[1..])
  }

  /** `generateOpenedDocumentsList`: a fixed text when nothing is open,
      otherwise one block per entry, separated by a blank line. */
  function OpenedDocumentsList(docs: seq<DocumentInfo>): string {
    if |docs| == 0 then NoDocumentsText else Join(DocLines(docs), "\n\n")
  }

  // ---------------------------------------------------------------------
  // The workspace object

  class WorkSpace {
    /** `openedDocuments`. */
    var openedDocuments: seq<DocumentInfo>
    /** `openedComponentDocs`: namespaces, each at most once. */
    var openedComponentDocs: seq<string>
    /** `api`. */
    const host: Host
    /** `currentFocus`. */
    const currentFocus: FocusInfo
    /** The static state of `ComponentsInfoGenerator`. */
    const generator: ComponentsInfoGenerator

    /** No namespace is listed twice and there is at most one `组件` entry. */
    predicate Valid()
      reads this
    {
      NoDuplicates(openedComponentDocs) && CountComponentDocs(openedDocuments) <= 1
    }

    /** `new WorkSpace(config, api)`; a missing focus is the empty object. */
    constructor (focus: Option<FocusInfo>, host: Host, generator: ComponentsInfoGenerator)
      ensures Valid()
      ensures openedDocuments == [] && openedComponentDocs == []
      ensures this.host == host && this.generator == generator
      ensures currentFocus == if focus.Some? then focus.value else FocusInfo(None, None, None, None)
    {
      this.host := host;
      this.generator := generator;
      currentFocus := if focus.Some? then focus.value else FocusInfo(None, None, None, None);
      openedDocuments := [];
      openedComponentDocs := [];
    }

    /** `openDocument(id)`. */
    method OpenDocument(id: string)
      requires Valid()
      modifies this`openedDocuments, this`openedComponentDocs, generator`namespacesSet, generator`targetComponentIds
      ensures Valid()
      ensures openedDocuments == DocsAfterOpen(host, currentFocus, old(openedDocuments), id, generator.json)
      ensures openedComponentDocs == NamespacesAfterOpen(host, currentFocus, old(openedDocuments), old(openedComponentDocs), id, generator.json)
    {
      if exists k | 0 <= k < |openedDocuments| :: openedDocuments[k].id == Some(id) {
        return;
      }
      var page := FindPageById(host.pages, id);
      var isPage := page.Some?;
      var outline: Node;
      var targets: seq<string>;
      if isPage {
        outline := host.outlineOf(Some(id));
        targets := [];
      } else {
        outline := host.outlineOf(currentFocus.pageId);
        targets := ComponentDocIds(openedDocuments) + [id];
      }
      var info := generator.Generate(outline, targets);
      assert info == OpenRendering(host, currentFocus, openedDocuments, id, generator.json);
      AddNamespaces(info.namespaces);
      PlaceRendering(id, isPage, info);
    }

    /** The `forEach` of `openDocument` that opens every namespace the
        rendering recorded. */
    method AddNamespaces(nss: seq<string>)
      requires Valid()
      modifies this`openedComponentDocs
      ensures Valid()
      ensures openedComponentDocs == SetAddAll(old(openedComponentDocs), nss)
    {
      var i := 0;
      while i < |nss|
        invariant 0 <= i <= |nss|
        invariant openedComponentDocs == SetAddAll(old(openedComponentDocs), nss[..i])
        invariant Valid()
      {
        ghost var before := openedComponentDocs;
        OpenComponentDoc(nss[i]);
        assert nss[..i + 1] == nss[..i] + [nss[i]];
        SetAddAllConcat(old(openedComponentDocs), nss[..i], [nss[i]]);
        assert SetAddAll(before, [nss[i]]) == SetAdd(before, nss[i]);
        i := i + 1;
      }
      assert nss[..i] == nss;
    }

    /** The end of `openDocument`: where the rendering of `id` goes. */
    method PlaceRendering(id: string, isPage: bool, info: Jsx.ComponentsResult)
      requires Valid()
      modifies this`openedDocuments
      ensures Valid()
      ensures openedDocuments == Place(old(openedDocuments), id, isPage, info)
    {
      if isPage {
        openedDocuments := openedDocuments + [DocumentInfo(Some(id), PageDoc, "", "", info.jsx)];
        CountAppend(old(openedDocuments), DocumentInfo(Some(id), PageDoc, "", "", info.jsx));
      } else {
        var existing := FirstComponentDoc(openedDocuments);
        if existing.Some? {
          var k := existing.value;
          var d := openedDocuments[k].(content := info.jsx, id := info.id);
          openedDocuments := openedDocuments[k := d];
          CountUpdate(old(openedDocuments), k, d);
        } else {
          var d := DocumentInfo(info.id, ComponentDoc, "", "", info.jsx);
          openedDocuments := openedDocuments + [d];
          CountAppend(old(openedDocuments), d);
        }
      }
    }

    /** `closeDocument(id)`: drops every entry with that id. */
    method CloseDocument(id: string)
      requires Valid()
      modifies this`openedDocuments
      ensures Valid()
      ensures openedDocuments == Filter(old(openedDocuments), (d: DocumentInfo) => d.id != Some(id))
      ensures !AlreadyOpen(openedDocuments, id)
      ensures forall d | d in old(openedDocuments) && d.id != Some(id) :: d in openedDocuments
    {
      var keep := (d: DocumentInfo) => d.id != Some(id);
      openedDocuments := Filter(openedDocuments, keep);
      CountFilter(old(openedDocuments), keep);
    }

    /** `openComponentDoc(ns)`: appends `ns` unless it is listed. */
    method OpenComponentDoc(ns: string)
      requires Valid()
      modifies this`openedComponentDocs
      ensures Valid()
      ensures openedComponentDocs == SetAdd(old(openedComponentDocs), ns)
      ensures ns in openedComponentDocs
    {
      if exists k | 0 <= k < |openedComponentDocs| :: openedComponentDocs[k] == ns {
        return;
      }
      openedComponentDocs := openedComponentDocs + [ns];
    }

    /** `closeComponentDoc(ns)`: removes `ns`, keeping the others in order. */
    method CloseComponentDoc(ns: string)
      requires Valid()
      modifies this`openedComponentDocs
      ensures Valid()
      ensures openedComponentDocs == Filter(old(openedComponentDocs), (x: string) => x != ns)
      ensures ns !in openedComponentDocs
      ensures forall x | x in old(openedComponentDocs) && x != ns :: x in openedComponentDocs
    {
      var keep := (x: string) => x != ns;
      openedComponentDocs := Filter(openedComponentDocs, keep);
      FilterNoDuplicates(old(openedComponentDocs), keep);
    }

    /** `hasComponentsDocs()`. */
    method HasComponentsDocs() returns (r: bool)
      ensures r <==> |openedComponentDocs| > 0
    {
      r := |openedComponentDocs| > 0;
    }

    /** `generateOpenedDocumentsList()`: the fixed text when nothing is
        open, otherwise each entry's block, joined by a blank line. */
    method GenerateOpenedDocumentsList() returns (text: string)
      ensures text == OpenedDocumentsList(openedDocuments)
    {
      var docs := openedDocuments;
      if |docs| == 0 {
        return NoDocumentsText;
      }
      text := "";
      for i := 0 to |docs|
        invariant text == Join(DocLines(docs[..i]), "\n\n")
      {
        DocListStep(docs, i);
        if i == 0 {
          text := DocLine(docs[i]);
        } else {
          text := text + "\n\n" + DocLine(docs[i]);
        }
      }
      assert docs[..|docs|] == docs;
    }
  }

  // ---------------------------------------------------------------------
  // Lemmas about the state after each operation

  lemma {:induction false} CountAppend(docs: seq<DocumentInfo>, d: DocumentInfo)
    ensures CountComponentDocs(docs + [d]) == CountComponentDocs(docs) + if IsComponentDoc(d) then 1 else 0
  {
    if docs != [] {
      assert (docs + [d])[1..] == docs[1..] + [d];
      CountAppend(docs[1..], d);
    } else {
      assert ([d])[1..] == [];
    }
  }

  lemma {:induction false} CountUpdate(docs: seq<DocumentInfo>, k: nat, d: DocumentInfo)
    requires k < |docs| && IsComponentDoc(docs[k]) == IsComponentDoc(d)
    ensures CountComponentDocs(docs[k := d]) == CountComponentDocs(docs)
  {
    if k > 0 {
      assert docs[k := d][1..] == docs[1..][k - 1 := d];
      CountUpdate(docs[1..], k - 1, d);
    } else {
      assert docs[k := d][1..] == docs[1..];
    }
  }

  lemma {:induction false} CountFilter(docs: seq<DocumentInfo>, p: DocumentInfo -> bool)
    ensures CountComponentDocs(Filter(docs, p)) <= CountComponentDocs(docs)
  {
    if docs != [] {
      CountFilter(docs[1..], p);
      var head := if p(docs[0]) then [docs[0]] else [];
      if p(docs[0]) {
        assert (head + Filter(docs[1..], p))[1..] == Filter(docs[1..], p);
      } else {
        assert head + Filter(docs[1..], p) == Filter(docs[1..], p);
      }
    }
  }

  /** Opening a document that is already open changes nothing. */
  lemma OpenWhenOpenIsNoOp(host: Host, focus: FocusInfo, docs: seq<DocumentInfo>, nss: seq<string>, id: string, json: JsValues.Value -> string)
    requires AlreadyOpen(docs, id)
    ensures DocsAfterOpen(host, focus, docs, id, json) == docs
    ensures NamespacesAfterOpen(host, focus, docs, nss, id, json) == nss
  {
  }

  /** Opening a page appends one `页面` entry carrying the page's id and its
      full rendering; the earlier entries are untouched. */
  lemma OpenPageAppends(host: Host, focus: FocusInfo, docs: seq<DocumentInfo>, id: string, json: JsValues.Value -> string)
    requires !AlreadyOpen(docs, id) && IsPage(host, id)
    ensures var after := DocsAfterOpen(host, focus, docs, id, json);
            |after| == |docs| + 1 && after[..|docs|] == docs &&
            after[|docs|] == DocumentInfo(Some(id), PageDoc, "", "", Jsx.ProcessData(host.outlineOf(Some(id)), Jsx.Full, json))
  {
    var after := DocsAfterOpen(host, focus, docs, id, json);
    assert after[..|docs|] == docs;
  }

  /** Opening a component while a `组件` entry exists rewrites the first
      such entry in place, keeping its type, and leaves every other entry
      as it was; without one, a single `组件` entry is appended. */
  lemma OpenComponentConsolidates(host: Host, focus: FocusInfo, docs: seq<DocumentInfo>, id: string, json: JsValues.Value -> string)
    requires !AlreadyOpen(docs, id) && !IsPage(host, id)
    ensures var after := DocsAfterOpen(host, focus, docs, id, json);
            var r := OpenRendering(host, focus, docs, id, json);
            match FirstComponentDoc(docs)
            case Some(k) =>
              |after| == |docs| && IsComponentDoc(after[k]) && after[k].content == r.jsx && after[k].id == r.id &&
              forall j | 0 <= j < |docs| && j != k :: after[j] == docs[j]
            case None =>
              after == docs + [DocumentInfo(r.id, ComponentDoc, "", "", r.jsx)]
  {
  }

  /** There is never more than one `组件` entry: opening anything keeps it so. */
  lemma {:induction false} OpenKeepsOneComponentDoc(host: Host, focus: FocusInfo, docs: seq<DocumentInfo>, id: string, json: JsValues.Value -> string)
    requires CountComponentDocs(docs) <= 1
    ensures CountComponentDocs(DocsAfterOpen(host, focus, docs, id, json)) <= 1
  {
    if !AlreadyOpen(docs, id) {
      var r := OpenRendering(host, focus, docs, id, json);
      if IsPage(host, id) {
        CountAppend(docs, DocumentInfo(Some(id), PageDoc, "", "", r.jsx));
      } else if FirstComponentDoc(docs).Some? {
        var k := FirstComponentDoc(docs).value;
        CountUpdate(docs, k, docs[k].(content := r.jsx, id := r.id));
      } else {
        CountAppend(docs, DocumentInfo(r.id, ComponentDoc, "", "", r.jsx));
      }
    }
  }

  /** Placing two renderings of the same id, the second only when the first
      did not make `id` open, adds at most one entry. */
  lemma PlaceTwice(docs: seq<DocumentInfo>, id: string, isPage: bool, r1: Jsx.ComponentsResult, r2: Jsx.ComponentsResult)
    ensures var once := Place(docs, id, isPage, r1);
            AlreadyOpen(once, id) || |Place(once, id, isPage, r2)| <= |docs| + 1
  {
    var once := Place(docs, id, isPage, r1);
    if isPage {
      assert once[|docs|].id == Some(id);
    } else {
      var k := FirstComponentDoc(docs);
      if k.None? {
        assert IsComponentDoc(once[|docs|]);
      } else {
        assert IsComponentDoc(once[k.value]);
      }
      assert FirstComponentDoc(once).Some?;
    }
  }

  /** Opening the same id twice in a row adds at most one entry. */
  lemma {:induction false} OpenTwiceAddsAtMostOne(host: Host, focus: FocusInfo, docs: seq<DocumentInfo>, id: string, json: JsValues.Value -> string)
    ensures var once := DocsAfterOpen(host, focus, docs, id, json);
            |DocsAfterOpen(host, focus, once, id, json)| <= |docs| + 1
  {
    if !AlreadyOpen(docs, id) {
      var once := DocsAfterOpen(host, focus, docs, id, json);
      PlaceTwice(docs, id, IsPage(host, id), OpenRendering(host, focus, docs, id, json), OpenRendering(host, focus, once, id, json));
    }
  }

  /** Opening adds only the rendered namespaces, and the list stays free of
      repeats. */
  lemma OpenNamespaces(host: Host, focus: FocusInfo, docs: seq<DocumentInfo>, nss: seq<string>, id: string, json: JsValues.Value -> string)
    requires NoDuplicates(nss)
    ensures var after := NamespacesAfterOpen(host, focus, docs, nss, id, json);
            NoDuplicates(after) && |after| >= |nss| && after[..|nss|] == nss &&
            forall x :: x in after <==> x in nss || (!AlreadyOpen(docs, id) && x in OpenRendering(host, focus, docs, id, json).namespaces)
  {
    if !AlreadyOpen(docs, id) {
      var ns := OpenRendering(host, focus, docs, id, json).namespaces;
      assert NamespacesAfterOpen(host, focus, docs, nss, id, json) == SetAddAll(nss, ns);
      SetAddAllFacts(nss, ns);
    }
  }

  /** One round of the loop of `GenerateOpenedDocumentsList`: the block of
      `docs[i]` joins the text after a blank line, or starts it. */
  lemma DocListStep(docs: seq<DocumentInfo>, i: nat)
    requires i < |docs|
    ensures Join(DocLines(docs[..i + 1]), "\n\n") ==
      if i == 0 then DocLine(docs[i]) else Join(DocLines(docs[..i]), "\n\n") + "\n\n" + DocLine(docs[i])
  {
    assert docs[..i + 1] == docs[..i] + [docs[i]];
    assert DocLines(docs[..i] + [docs[i]]) == DocLines(docs[..i]) + [DocLine(docs[i])];
    JoinAppend(DocLines(docs[..i]), DocLine(docs[i]), "\n\n");
  }

  /** The list is the fixed text exactly when nothing is open. */
  lemma {:induction false} OpenedDocumentsListEmpty(docs: seq<DocumentInfo>)
    ensures OpenedDocumentsList(docs) == NoDocumentsText <==> docs == []
  {
    if docs != [] {
      var lines := DocLines(docs);
      JoinStartsWithFirst(lines, "\n\n");
      assert lines[0][0] == '-';
      assert NoDocumentsText[0] != '-';
    }
  }

  lemma {:induction false} JoinStartsWithFirst(parts: seq<string>, sep: string)
    requires |parts| > 0
    ensures |Join(parts, sep)| >= |parts[0]| && Join(parts, sep)[..|parts[0]|] == parts[0]
  {
    if |parts| > 1 {
      assert Join(parts, sep) == parts[0] + (sep + Join(parts[1..], sep));
    }
  }

  /** Opening one more document adds its block after a blank line. */
  lemma {:induction false} OpenedDocumentsListAppend(docs: seq<DocumentInfo>, d: DocumentInfo)
    requires docs != []
    ensures OpenedDocumentsList(docs + [d]) == OpenedDocumentsList(docs) + "\n\n" + DocLine(d)
  {
    assert DocLines(docs + [d]) == DocLines(docs) + [DocLine(d)];
    JoinAppend(DocLines(docs), DocLine(d), "\n\n");
  }
}
