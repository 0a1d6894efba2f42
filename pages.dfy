/** The host's page index (`PageInfo` / `PagesData`): the depth-first page
    search of `WorkSpace.findPageById` / `searchPageInArray`, and the
    indented page tree of `PageTreeGenerator.generateTreeText`. */
module Pages {
  import opened Wrappers

  /** A page. An absent `componentType` is "" (the source only tests its
      truthiness); an absent `children` array is the empty sequence. */
  datatype PageInfo = PageInfo(
    id: string,
    title: string,
    pageType: string,
    componentType: string,
    children: seq<PageInfo>)

  /** `PagesData`; `pageAry` may be missing from what the host returns. */
  datatype PagesData = PagesData(pageAry: Option<seq<PageInfo>>)

  /** What `getAllPageInfo` returns: one `PagesData` or an array of them. */
  datatype AllPageInfo = Single(data: PagesData) | Several(canvases: seq<PagesData>)

  // ---------------------------------------------------------------------
  // Page search

  /** The pages of one `PagesData`, none when `pageAry` is missing. */
  function PageAry(d: PagesData): seq<PageInfo> {
    if d.pageAry.Some? then d.pageAry.value else []
  }

  /** The top-level pages `findPageById` searches: every canvas's pages in
      order, or the one `PagesData`'s pages. */
  function AllPages(info: AllPageInfo): seq<PageInfo> {
    match info
    case Single(d) => PageAry(d)
    case Several(ds) => CanvasPages(ds)
  }

  function CanvasPages(ds: seq<PagesData>): seq<PageInfo> {
    if ds == [] then [] else PageAry(ds[0]) + CanvasPages(ds[1..])
  }

  /** The collecting `forEach` of `findPageById`. */
  method CollectPages(info: AllPageInfo) returns (pages: seq<PageInfo>)
    ensures pages == AllPages(info)
  {
    if info.Single? {
      return PageAry(info.data);
    }
    var ds := info.canvases;
    pages := [];
    var i := 0;
    while i < |ds|
      invariant 0 <= i <= |ds|
      invariant pages + CanvasPages(ds[i..]) == CanvasPages(ds)
    {
      assert ds[i..][1..] == ds[i + 1..];
      if ds[i].pageAry.Some? {
        pages := pages + ds[i].pageAry.value;
      }
      i := i + 1;
    }
    assert ds[i..] == [];
  }

  /** `searchPageInArray(id, pages)`: each page, then its children, in order. */
  function SearchPage(id: string, pages: seq<PageInfo>): Option<PageInfo> {
    if pages == [] then None
    else if pages[0].id == id then Some(pages[0])
    else
      var found := SearchPage(id, pages[0].children);
      if found.Some? then found else SearchPage(id, pages[1..])
  }

  /** The pages of a forest in depth-first preorder. */
  function Preorder(pages: seq<PageInfo>): seq<PageInfo> {
    if pages == [] then [] else [pages[0]] + Preorder(pages[0].children) + Preorder(pages[1..])
  }

  /** The first page of a list that has id `id`. */
  function FirstWithId(ps: seq<PageInfo>, id: string): (r: Option<PageInfo>)
    ensures r.Some? <==> exists i | 0 <= i < |ps| :: ps[i].id == id
    ensures r.Some? ==> r.value.id == id
    ensures r.Some? ==> exists i | 0 <= i < |ps| :: ps[i] == r.value && forall j | 0 <= j < i :: ps[j].id != id
  {
    if ps == [] then None
    else if ps[0].id == id then Some(ps[0])
    else
      var r := FirstWithId(ps[1..], id);
      assert forall i | 1 <= i < |ps| :: ps[i] == ps[1..][i - 1];
      assert r.Some? ==> exists i | 0 <= i < |ps| :: ps[i] == r.value && forall j | 0 <= j < i :: ps[j].id != id by {
        if r.Some? {
          var i :| 0 <= i < |ps[1..]| && ps[1..][i] == r.value && forall j | 0 <= j < i :: ps[1..][j].id != id;
          assert ps[i + 1] == r.value && forall j | 0 <= j < i + 1 :: ps[j].id != id;
        }
      }
      r
  }

  lemma {:induction false} FirstWithIdAppend(a: seq<PageInfo>, b: seq<PageInfo>, id: string)
    ensures FirstWithId(a + b, id) == if FirstWithId(a, id).Some? then FirstWithId(a, id) else FirstWithId(b, id)
  {
    if a != [] {
      assert (a + b)[0] == a[0] && (a + b)[1..] == a[1..] + b;
      FirstWithIdAppend(a[1..], b, id);
    } else {
      assert a + b == b;
    }
  }

  /** `searchPageInArray` finds the first page with that id in depth-first
      preorder, and finds nothing exactly when no page of the forest has it. */
  lemma {:induction false} SearchPageIsFirstInPreorder(id: string, pages: seq<PageInfo>)
    ensures SearchPage(id, pages) == FirstWithId(Preorder(pages), id)
  {
    if pages != [] {
      SearchPageIsFirstInPreorder(id, pages[0].children);
      SearchPageIsFirstInPreorder(id, pages[1..]);
      FirstWithIdAppend([pages[0]] + Preorder(pages[0].children), Preorder(pages[1..]), id);
      FirstWithIdAppend([pages[0]], Preorder(pages[0].children), id);
    }
  }

  /** `findPageById(id)`: collects the top-level pages, then searches them. */
  method FindPageById(info: AllPageInfo, id: string) returns (r: Option<PageInfo>)
    ensures r == FirstWithId(Preorder(AllPages(info)), id)
  {
    var pages := CollectPages(info);
    r := SearchPage(id, pages);
    SearchPageIsFirstInPreorder(id, pages);
  }

  // ---------------------------------------------------------------------
  // Page tree text

  const FocusMark: string := " 【当前聚焦】"

  /** `- title[id=…]`, indented. */
  function Bullet(indent: string, title: string, id: string): string {
    indent + "- " + title + "[id=" + id + "]"
  }

  /** `(componentType)`. */
  function TypeSuffix(componentType: string): string {
    "(" + componentType + ")"
  }

  /** The line `generateTreeText` writes for one page at one depth. */
  function TreeLine(p: PageInfo, focused: string, level: nat): string {
    Bullet(Repeat("  ", level), p.title, p.id) + TypePart(p) + FocusPart(p, focused) + "\n"
  }

  /** The component type, when the page has one. */
  function TypePart(p: PageInfo): string {
    if p.componentType != "" then TypeSuffix(p.componentType) else ""
  }

  /** The focus mark, on the focused page only. */
  function FocusPart(p: PageInfo, focused: string): string {
    if focused != "" && p.id == focused then FocusMark else ""
  }

  /** `generateTreeText(pages, focusedPageId, level)`: each page's line,
      then its children one level deeper. An undefined focused id is "". */
  function TreeText(pages: seq<PageInfo>, focused: string, level: nat): string {
    if pages == [] then ""
    else PageText(pages[0], focused, level) + TreeText(pages[1..], focused, level)
  }

  /** The text of one page and the pages below it. */
  function PageText(p: PageInfo, focused: string, level: nat): string {
    TreeLine(p, focused, level) + (if |p.children| > 0 then TreeText(p.children, focused, level + 1) else "")
  }

  /** A page with the depth at which the tree shows it. */
  datatype Entry = Entry(page: PageInfo, depth: nat)

  /** The tree's pages with their depths, in depth-first preorder. */
  function Entries(pages: seq<PageInfo>, level: nat): seq<Entry> {
    if pages == [] then []
    else [Entry(pages[0], level)] + Entries(pages[0].children, level + 1) + Entries(pages[1..], level)
  }

  /** The entries are the preorder of the pages, each at least as deep as
      the level the list starts at. */
  lemma {:induction false} EntriesFollowPreorder(pages: seq<PageInfo>, level: nat)
    ensures |Entries(pages, level)| == |Preorder(pages)|
    ensures forall i | 0 <= i < |Entries(pages, level)| ::
      Entries(pages, level)[i].page == Preorder(pages)[i] && Entries(pages, level)[i].depth >= level
  {
    if pages != [] {
      EntriesFollowPreorder(pages[0].children, level + 1);
      EntriesFollowPreorder(pages[1..], level);
      var head := Entries(pages[0].children, level + 1);
      var tail := Entries(pages[1..], level);
      var es := Entries(pages, level);
      var pre := Preorder(pages);
      assert es == [Entry(pages[0], level)] + head + tail;
      assert pre == [pages[0]] + Preorder(pages[0].children) + Preorder(pages[1..]);
      forall i | 0 <= i < |es| ensures es[i].page == pre[i] && es[i].depth >= level {
        if 1 <= i < 1 + |head| {
          assert es[i] == head[i - 1] && pre[i] == Preorder(pages[0].children)[i - 1];
        } else if 1 + |head| <= i {
          assert es[i] == tail[i - 1 - |head|] && pre[i] == Preorder(pages[1..])[i - 1 - |head|];
        }
      }
    }
  }

  /** The lines of a list of entries, in order. */
  function Lines(es: seq<Entry>, focused: string): string {
    if es == [] then "" else TreeLine(es[0].page, focused, es[0].depth) + Lines(es[1..], focused)
  }

  lemma {:induction false} LinesAppend(a: seq<Entry>, b: seq<Entry>, focused: string)
    ensures Lines(a + b, focused) == Lines(a, focused) + Lines(b, focused)
  {
    if a != [] {
      assert (a + b)[0] == a[0] && (a + b)[1..] == a[1..] + b;
      LinesAppend(a[1..], b, focused);
    } else {
      assert a + b == b;
    }
  }

  /** The page tree is one line per page, in depth-first preorder, each
      indented by its depth. */
  lemma {:induction false} TreeTextIsLines(pages: seq<PageInfo>, focused: string, level: nat)
    ensures TreeText(pages, focused, level) == Lines(Entries(pages, level), focused)
  {
    if pages != [] {
      TreeTextIsLines(pages[0].children, focused, level + 1);
      TreeTextIsLines(pages[1..], focused, level);
      var head := Entries(pages[0].children, level + 1);
      var tail := Entries(pages[1..], level);
      LinesAppend([Entry(pages[0], level)] + head, tail, focused);
      LinesAppend([Entry(pages[0], level)], head, focused);
      assert Lines([Entry(pages[0], level)], focused) == TreeLine(pages[0], focused, level) + Lines([], focused);
    }
  }

  /** One step of the loop of `GenerateTreeText`. */
  lemma TreeTextStep(pages: seq<PageInfo>, i: nat, focused: string, level: nat, done: string, text: string)
    requires i < |pages| && text == PageText(pages[i], focused, level)
    ensures done + TreeText(pages[i..], focused, level) == (done + text) + TreeText(pages[i + 1..], focused, level)
  {
    assert pages[i..][0] == pages[i] && pages[i..][1..] == pages[i + 1..];
  }

  /** `PageTreeGenerator.generateTreeText`: the `forEach` over the pages. */
  method GenerateTreeText(pages: seq<PageInfo>, focusedPageId: string, level: nat) returns (result: string)
    ensures result == TreeText(pages, focusedPageId, level)
    decreases pages, 0
  {
    result := "";
    var i := 0;
    assert pages[i..] == pages;
    while i < |pages|
      invariant 0 <= i <= |pages|
      invariant result + TreeText(pages[i..], focusedPageId, level) == TreeText(pages, focusedPageId, level)
    {
      var text := RenderPage(pages[i], focusedPageId, level);
      TreeTextStep(pages, i, focusedPageId, level, result, text);
      result := result + text;
      i := i + 1;
    }
    assert pages[i..] == [];
  }

  /** The `forEach` callback of `generateTreeText`: the page's line, with
      its component type and the focus mark when they apply, then its
      children one level deeper. */
  method RenderPage(page: PageInfo, focusedPageId: string, level: nat) returns (text: string)
    ensures text == PageText(page, focusedPageId, level)
    decreases page, 1
  {
    var indent := Repeat("  ", level);
    var line := Bullet(indent, page.title, page.id);
    if page.componentType != "" {
      line := line + TypeSuffix(page.componentType);
    }
    assert line == Bullet(indent, page.title, page.id) + TypePart(page);
    if focusedPageId != "" && page.id == focusedPageId {
      line := line + FocusMark;
    }
    assert line == Bullet(indent, page.title, page.id) + TypePart(page) + FocusPart(page, focusedPageId);
    text := line + "\n";
    assert text == TreeLine(page, focusedPageId, level);
    if |page.children| > 0 {
      var sub := GenerateTreeText(page.children, focusedPageId, level + 1);
      text := text + sub;
    }
  }
}
