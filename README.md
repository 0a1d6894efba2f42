# plugin-ai workspace and tool rules, in Dafny

This project models the rule-based core of the `plugin-ai` assistant for the
MyBricks page editor. The agent is shown a compact view of the page being
edited. The core builds that view and turns the model's answers into editor
actions.

- **`WorkSpace`** (`workspace.dfy`) is the per-conversation state.
  - It holds the list of opened documents and the list of component namespaces whose docs were sent.
  - Pages are appended as separate entries.
  - All opened components share one `组件` entry, which is rewritten in place.
- **`ComponentsInfoGenerator`** (`components_info.dfy`, specified by `jsx_spec.dfy` and `outline.dfy`) renders a component outline as JSX-like text. It works in two modes:
  - in full mode it renders the whole outline;
  - in target mode it renders from the minimal common ancestor of the targets, expands only the branches that lead to a target, and records the namespaces it rendered.
- **Page lookup and page tree text** (`pages.dfy`): `searchPageInArray`, `findPageById` and `PageTreeGenerator.generateTreeText`.
- **Focused-branch filter** (`hierarchy.dfy`): `PageHierarchyGenerator.filterToFocusedComponent`.
- **Focus descriptions** (`focus.dfy`): the three focus formatters of the agent and `FocusDescriptionGenerator.generate`.
- **Tool glue** (`generate_page.dfy`, `modify_component.dfy`, `planning.dfy`, `files.dfy`, `actions.dfy`):
  - `fixActions`, and the callbacks and summary of the page generation tool;
  - the group-by-component reduction of the modification tool;
  - the plan repair `planningCheck`;
  - `getFiles`.

Mutable objects are classes, with `modifies` clauses on their methods:

- `WorkSpace`;
- the static state of `ComponentsInfoGenerator`, modelled as one object;
- the action array that `fixActions` rewrites in place.

Each method is proved against a specification function. The properties the
source promises are lemmas about those functions.

Several things are foreign calls and become parameters:

- `JSON.stringify`;
- the host API (`getOutlineInfo`, `getAllPageInfo`);
- the streaming action parser;
- `stripFileBlocks`;
- the operation summary.

JavaScript values that the code inspects dynamically (`style`, `data`, page
JSON, action fields) are a small `Value` datatype with JavaScript truthiness,
`===` and `String()`.

The code differs from the system's written description in one place, and the
model follows the code. The description says that opening a component on a
page already opened as a page document adds no redundant entry. The code
checks only whether the component's own id is open (`src/tools/workspace.ts:136`).
So it adds, or rewrites, the `组件` entry, whose id becomes the id of the
minimal common ancestor. For the same reason, the code does not guarantee that
no id appears twice in the opened-document list. `Workspace.OpenKeepsOneComponentDoc`
and `Workspace.OpenTwiceAddsAtMostOne` state what the code does guarantee.

## Model

| member | source | states |
|---|---|---|
| Workspace.WorkSpace.constructor | src/tools/workspace.ts:64-75 | A new workspace has no opened documents and no opened component docs; a missing focus becomes the empty focus |
| Workspace.WorkSpace.OpenDocument | src/tools/workspace.ts:133-200 | The new document list and namespace list are those of the open specification (`DocsAfterOpen`, `NamespacesAfterOpen`); the namespace list stays free of repeats and there stays at most one `组件` entry |
| Workspace.WorkSpace.AddNamespaces | src/tools/workspace.ts:167-168 | Each rendered namespace is added through `openComponentDoc`: the list becomes the old list plus the unseen namespaces in order |
| Workspace.WorkSpace.PlaceRendering | src/tools/workspace.ts:170-199 | The rendering is placed: appended as a `页面` entry for a page, written over the first `组件` entry, or appended as a new `组件` entry |
| Workspace.OpenWhenOpenIsNoOp | src/tools/workspace.ts:136-138 | Opening an id that some document already has changes neither list |
| Workspace.OpenPageAppends | src/tools/workspace.ts:147-178 | Opening a page appends exactly one `页面` entry with the page id and the full-mode rendering; all earlier entries are unchanged |
| Workspace.OpenComponentConsolidates | src/tools/workspace.ts:151-199 | Opening a component rewrites the id and content of the first `组件` entry and leaves every other entry as it was; without one, it appends a single `组件` entry |
| Workspace.OpenKeepsOneComponentDoc | src/tools/workspace.ts:179-199 | If there is at most one `组件` entry before an open, there is at most one after it |
| Workspace.OpenTwiceAddsAtMostOne | src/tools/workspace.ts:133-200 | Opening the same id twice in a row adds at most one entry |
| Workspace.PlaceTwice | src/tools/workspace.ts:170-199 | Two placements of the same id add at most one entry unless the first already made the id open |
| Workspace.OpenNamespaces | src/tools/workspace.ts:165-168 | After an open the namespace list has no repeats, keeps the old list as its prefix, and holds exactly the old namespaces plus the rendered ones |
| Workspace.WorkSpace.CloseDocument | src/tools/workspace.ts:205-207 | Every document with the id is removed, the others stay in order, and the id is no longer open |
| Workspace.WorkSpace.OpenComponentDoc | src/tools/workspace.ts:244-248 | The namespace is appended only when unseen, so the list stays free of repeats and then holds it |
| Workspace.WorkSpace.CloseComponentDoc | src/tools/workspace.ts:253-255 | Every occurrence of the namespace is removed and every other namespace kept |
| Workspace.WorkSpace.HasComponentsDocs | src/tools/workspace.ts:257-259 | True exactly when the namespace list is non-empty |
| Workspace.WorkSpace.GenerateOpenedDocumentsList | src/tools/workspace.ts:275-283 | The loop that maps each entry to its block and joins the blocks with a blank line yields the document list text, which `OpenedDocumentsListEmpty` and `OpenedDocumentsListAppend` characterise |
| Workspace.OpenedDocumentsListEmpty | src/tools/workspace.ts:276-278 | The list text is the "nothing open" text exactly when no document is open |
| Workspace.OpenedDocumentsListAppend | src/tools/workspace.ts:280-282 | One more document adds its block after a blank line and changes nothing before it |
| Workspace.CountFilter | src/tools/workspace.ts:205-207 | Closing documents never adds a `组件` entry |
| Workspace.FirstComponentDoc | src/tools/workspace.ts:181-186 | Returns the first `组件` entry's index, or none exactly when no entry is a `组件` entry |
| Workspace.ComponentDocIds | src/tools/workspace.ts:157-162 | Every collected target id is the id of some opened `组件` entry |
| Pages.CollectPages | src/tools/workspace.ts:95-109 | The pages searched are the page list, or the concatenated page lists of every canvas |
| Pages.FindPageById | src/tools/workspace.ts:94-112 | Returns the first page with the id in pre-order over all pages, or none |
| Pages.SearchPageIsFirstInPreorder | src/tools/workspace.ts:117-128 | The recursive search returns the first page with the id in the pre-order of the page tree |
| Pages.FirstWithId | src/tools/workspace.ts:117-128 | Finds a page exactly when one has the id; it is the earliest such page |
| Pages.FirstWithIdAppend | src/tools/workspace.ts:118-126 | Searching a concatenation finds a match in the first part before any in the second |
| Pages.GenerateTreeText | src/tools/workspace.ts:329-352 | The loop returns the recursive tree text |
| Pages.RenderPage | src/tools/workspace.ts:333-348 | One page renders to its bullet line, with the type and focus marks, followed by its children one level deeper |
| Pages.TreeTextIsLines | src/tools/workspace.ts:329-352 | The tree text is one line per page, in pre-order, each at the page's depth |
| Pages.EntriesFollowPreorder | src/tools/workspace.ts:329-352 | The lines follow the pre-order of the pages, with depth never below the starting level |
| PageHierarchy.Collapse | src/tools/workspace.ts:417-423 | A component off the focused branch keeps its id, namespace and title, loses its slots, and is marked collapsed exactly when it had children |
| PageHierarchy.FilterToFocused | src/tools/workspace.ts:404-437 | Keeps a node exactly when it is the focused node or has children; the kept node keeps its id |
| PageHierarchy.FilterSlots | src/tools/workspace.ts:411-435 | The filtered slot list is non-empty exactly when some slot has components |
| PageHierarchy.FilterComps | src/tools/workspace.ts:414-425 | Every component of a slot is kept, in order, with its id |
| PageHierarchy.FilterPrunes | src/tools/workspace.ts:404-437 | Only branches that contain the focused node keep their slots, and the result contains the focused node exactly when the input did |
| PageHierarchy.FilterSlotsPrune | src/tools/workspace.ts:412-430 | Filtering slots prunes every branch off the focused path, and a slot list leads to the focused node exactly when it did before |
| PageHierarchy.FilteredSlotPrunes | src/tools/workspace.ts:413-428 | One filtered slot is pruned and leads to the focused node exactly when the original slot did |
| PageHierarchy.FilterCompsPrune | src/tools/workspace.ts:414-425 | Filtered components are pruned, and one of them contains the focused node exactly when one of the originals did |
| PageHierarchy.SlotsLeadToAppend | src/tools/workspace.ts:412-430 | A slot list leads to the focused node exactly when one of its parts does |
| Outline.FindPathCorrect | src/tools/workspace.ts:604-623 | A path is found exactly when the node is contained; the path starts at the root, ends at a node with the id, and each step is a child in a slot of the previous node |
| Outline.PathInSlotsCorrect | src/tools/workspace.ts:609-620 | The slot search finds a path exactly when some slot component contains the id, and the path is a chain ending at the id |
| Outline.PathInCompsCorrect | src/tools/workspace.ts:612-618 | The component search finds a path exactly when some component contains the id, and the path starts at that component |
| Outline.FindNodeIsPathEnd | src/tools/workspace.ts:628-645 | `findNodeById` returns the last node of the path `findPathToNode` returns, and nothing when that finds no path |
| Outline.NodeInSlotsIsPathEnd | src/tools/workspace.ts:634-642 | The slot-level node search agrees with the end of the slot-level path search |
| Outline.NodeInCompsIsPathEnd | src/tools/workspace.ts:636-640 | The component-level node search agrees with the end of the component-level path search |
| Outline.ContainsIffWithin | src/tools/workspace.ts:650-668 | `containsNode` holds exactly when some node within the tree has the id |
| Outline.WithinContains | src/tools/workspace.ts:650-668 | A tree contains the id of every node within it |
| Outline.ChainContainsEnd | src/tools/workspace.ts:604-623 | Every node on a path contains the path's last node |
| Outline.ChainWithin | src/tools/workspace.ts:604-623 | Every node on a path lies within its first node |
| Outline.FoundPaths | src/tools/workspace.ts:563-569 | Every collected path is the root path of some target, and there are at most as many paths as targets |
| Outline.FoundPathsCover | src/tools/workspace.ts:563-569 | The path of every contained target is collected, and every collected path belongs to a target |
| Outline.MinLen | src/tools/workspace.ts:580 | The shortest path length is at most every path's length and is some path's length |
| Outline.AgreeDepth | src/tools/workspace.ts:582-592 | The common-prefix depth stops at the first depth where two paths differ in id, or at the shortest length |
| Outline.MinimalCommonAncestorsShape | src/tools/workspace.ts:555-599 | No targets gives `[root]`; one target gives its node or `[]`; the result never has more than one node, and that node lies within the root |
| Outline.McaFallbackUnreachable | src/tools/workspace.ts:578-598 | With two or more found paths all paths share the root, so the `[root]` fallback at line 598 is never reached |
| Outline.McaContainsFoundTargets | src/tools/workspace.ts:555-599 | In a tree with unique ids, the common ancestor contains every target the tree contains |
| Outline.McaSeveralOnPath | src/tools/workspace.ts:571-596 | With several targets, the common ancestor has the id of a node on each found target's path |
| Outline.CommonOnPath | src/tools/workspace.ts:578-596 | The deepest shared node lies on the first path and has the id of a node on every path |
| Outline.McaSeveralContains | src/tools/workspace.ts:571-596 | With several targets and unique ids, the common ancestor contains each found target |
| Outline.SameIdSameNode | src/tools/workspace.ts:582-592 | In a tree with unique ids, two nodes within it with the same id are the same node |
| Outline.AgreeAlongPrefix | src/tools/workspace.ts:580-592 | When one path's ids prefix every path, the common depth is that path's whole length |
| Outline.McaAncestorTarget | src/tools/workspace.ts:571-596 | When one target lies on the path of every found target, the common ancestor is that target |
| ComponentsInfo.ComponentsInfoGenerator.ContainsNode | src/tools/workspace.ts:650-668 | The depth-first search answers whether the tree contains the id |
| ComponentsInfo.ComponentsInfoGenerator.FindNodeById | src/tools/workspace.ts:628-645 | Returns the first node with the id, depth-first |
| ComponentsInfo.ComponentsInfoGenerator.FindPathToNode | src/tools/workspace.ts:604-623 | Returns the root-to-target path the specification defines |
| ComponentsInfo.ComponentsInfoGenerator.FindMinimalCommonAncestors | src/tools/workspace.ts:555-599 | Returns the minimal common ancestors the specification defines |
| ComponentsInfo.ComponentsInfoGenerator.CollectPaths | src/tools/workspace.ts:563-569 | Collects the root paths of the found targets, in target order |
| ComponentsInfo.ComponentsInfoGenerator.DeepestCommonNode | src/tools/workspace.ts:579-592 | Returns the node of the first path at the last depth where all paths agree in id, or none when they agree nowhere |
| ComponentsInfo.ComponentsInfoGenerator.ContainsAnyTarget | src/tools/workspace.ts:742-750 | True exactly when the node contains some target |
| ComponentsInfo.ComponentsInfoGenerator.ShouldExpandChildren | src/tools/workspace.ts:742-750 | A node is expanded exactly when it is a target or contains one |
| ComponentsInfo.ComponentsInfoGenerator.SlotIsShown | src/tools/workspace.ts:760-768 | A slot is written when it has an id; in target mode it also needs a components array, and the non-empty target list (`parentIsTarget`) or a component containing a target |
| ComponentsInfo.ComponentsInfoGenerator.ChildIsShown | src/tools/workspace.ts:785-788 | A child of a written slot is rendered in full mode, and in target mode when the target list is non-empty or the child contains a target |
| ComponentsInfo.ComponentsInfoGenerator.ExtractLayout | src/tools/workspace.ts:805-833 | Returns the layout object the specification defines |
| ComponentsInfo.ComponentsInfoGenerator.CopyDefinedProps | src/tools/workspace.ts:811-816 | Copies exactly the defined size properties, in order |
| ComponentsInfo.ComponentsInfoGenerator.FlexLayout | src/tools/workspace.ts:819-830 | Writes the flex fields for the style's `layout` |
| ComponentsInfo.ComponentsInfoGenerator.OpeningTag | src/tools/workspace.ts:707-719 | Writes the opening tag with namespace, id and data, then the layout only when it has keys and the style array only when it is non-empty |
| ComponentsInfo.ComponentsInfoGenerator.GenerateComponentJSX | src/tools/workspace.ts:699-737 | Returns the node's rendering and adds exactly the namespaces of the nodes it renders |
| ComponentsInfo.ComponentsInfoGenerator.GenerateSlotsJSX | src/tools/workspace.ts:755-803 | Returns the slots' rendering and adds exactly their rendered namespaces |
| ComponentsInfo.ComponentsInfoGenerator.RenderSlot | src/tools/workspace.ts:759-800 | One slot renders to its start tag, its children and its end tag, and adds their namespaces |
| ComponentsInfo.ComponentsInfoGenerator.GenerateChildrenJSX | src/tools/workspace.ts:781-795 | The slot's children render in order, and their namespaces are added |
| ComponentsInfo.ComponentsInfoGenerator.RenderChild | src/tools/workspace.ts:782-794 | One child renders as its own line, or as nothing, as the target rule says |
| ComponentsInfo.ComponentsInfoGenerator.ProcessData | src/tools/workspace.ts:673-694 | A node with an id renders as a component; otherwise its slots' component arrays are processed in turn |
| ComponentsInfo.ComponentsInfoGenerator.ProcessSlot | src/tools/workspace.ts:684-690 | A slot without an id contributes its processed component array or nothing |
| ComponentsInfo.ComponentsInfoGenerator.ProcessList | src/tools/workspace.ts:676-678 | An array is processed item by item; empty texts are dropped and the rest joined by newlines |
| ComponentsInfo.ComponentsInfoGenerator.ProcessListItem | src/tools/workspace.ts:677 | One array item is processed and kept only when its text is not empty |
| ComponentsInfo.ComponentsInfoGenerator.ProcessEach | src/tools/workspace.ts:537-543 | Each ancestor is processed in order and its namespaces are recorded |
| ComponentsInfo.ComponentsInfoGenerator.Generate | src/tools/workspace.ts:517-550 | The namespace set is cleared, the targets stored, and the result is the specified rendering with exactly the namespaces rendered in this call |
| ComponentsInfo.ComponentsInfoGenerator.RenderAncestors | src/tools/workspace.ts:536-549 | The ancestors' texts are joined by newlines and the result carries the first ancestor's id |
| Jsx.GenerateNamespacesExact | src/tools/workspace.ts:517-529 | `generate` returns each namespace once, and a namespace exactly when some node rendered in this call has it |
| Jsx.GenerateRecordsAll | src/tools/workspace.ts:517-529 | The returned namespaces are those recorded while processing every starting node, from an empty set |
| Jsx.ProcessAllNsExact | src/tools/workspace.ts:534-543 | The recorded namespaces are exactly those of the nodes shown from the ancestors |
| Jsx.ProcessNsExact | src/tools/workspace.ts:673-694 | Processing a node records exactly the namespaces of the nodes it shows |
| Jsx.ProcessListNsExact | src/tools/workspace.ts:676-678 | Processing an array records exactly the namespaces of the nodes it shows |
| Jsx.ProcessSlotsNsExact | src/tools/workspace.ts:684-690 | Processing id-less slots records exactly the namespaces of the nodes they show |
| Jsx.RenderedNsExact | src/tools/workspace.ts:699-737 | Rendering a component records exactly the namespaces of the nodes shown below it; a node without a namespace records none |
| Jsx.SlotsNsExact | src/tools/workspace.ts:755-803 | Rendering slots records exactly the namespaces of the nodes they show |
| Jsx.ChildrenNsExact | src/tools/workspace.ts:781-795 | Rendering a slot's children records exactly the namespaces of the nodes they show |
| Jsx.TargetModeCollapses | src/tools/workspace.ts:722-734 | In target mode, a node that neither is nor contains a target renders as a self-closing tag, and nothing below it is rendered or recorded |
| Jsx.TargetModeExpands | src/tools/workspace.ts:722-734 | In target mode, a node that contains a target and has a shown slot renders open, with its slots, and is closed by its end tag |
| Jsx.SlotsJSXNonEmpty | src/tools/workspace.ts:755-803 | If any slot is shown, the slots' text is not empty |
| Jsx.ComponentJSXNonEmpty | src/tools/workspace.ts:699-711 | A node renders to non-empty text exactly when it has an id and a namespace |
| Jsx.ExtractLayoutFacts | src/tools/workspace.ts:805-833 | The layout has each key at most once and only defined values; a size property is copied with its value exactly when the style is truthy and the property is defined |
| Jsx.CopyDefinedFacts | src/tools/workspace.ts:811-816 | The copied properties are among those listed, each once, with the style's defined value; a property is copied exactly when it is defined |
| Jsx.FlexFieldsKeys | src/tools/workspace.ts:819-830 | The flex fields use only `display`, `flexDirection`, `alignItems` and `justifyContent`, with defined values |
| Jsx.FlexFieldsUnique | src/tools/workspace.ts:819-830 | No flex key is written twice |
| Jsx.DirectionFieldsFacts | src/tools/workspace.ts:820-827 | At most one flex layout applies, so `display` and `flexDirection` are written once each, as strings |
| Jsx.CopyTruthyFacts | src/tools/workspace.ts:828-829 | A truthy alignment property is copied once, with a defined value |
| Jsx.ExtractStyleArrayShape | src/tools/workspace.ts:835-848 | A truthy `css` array gives one rule per entry, each starting with its selector and ending with ` }`; anything else gives no rules |
| Focus.Describe | src/agents/common.ts:253-269 | The inner description is non-empty exactly when the focus type is a component, a page or a section |
| Focus.PageAndSectionAgree | src/agents/common.ts:253-304 | In all three formatters and in the workspace's own description, `page` and `section` produce identical text |
| Focus.UnknownTypeIsEmpty | src/agents/common.ts:253-304 | Any other focus type gives an empty inner description in all three formatters |
| Focus.NoFocusExactly | src/tools/workspace.ts:484-507 | The workspace says nothing is focused exactly when neither a page id nor a component id is set |
| Focus.WorkspaceAgreesWhenFocused | src/tools/workspace.ts:484-507 | With a focus of a known type, the workspace's description is the agent's focus description |
| GeneratePage.RootId | src/tools/generate-page.ts:23-25 | The root id is the page id when the page JSON has a truthy `asRoot`, otherwise undefined |
| GeneratePage.FixAction | src/tools/generate-page.ts:531-536 | Only `comId` changes; it becomes `_root_` exactly when the action adds a child to `_rootSlot_` of the root |
| GeneratePage.FixAll | src/tools/generate-page.ts:531-536 | Every action is fixed at its own position and the length is kept |
| GeneratePage.FixActions | src/tools/generate-page.ts:529-537 | The array is rewritten in place to the fixed actions; a falsy root id returns the same array, otherwise a new array with the same actions |
| GeneratePage.FixedShape | src/tools/generate-page.ts:529-537 | The fix keeps length and order, changes only `comId`, and sets it to `_root_` exactly when the three conditions hold; other actions are unchanged |
| GeneratePage.FixedIdempotent | src/tools/generate-page.ts:529-537 | Applying the fix twice is applying it once |
| GeneratePage.Stream | src/tools/generate-page.ts:462-479 | `onClearPage` fires exactly when the status is `start`, and before anything else; `onActions` fires once with the fixed actions exactly when there are some or the status is `start` or `complete` |
| GeneratePage.Execute | src/tools/generate-page.ts:480-525 | Both texts are equal; without a `.json` file they are the content; otherwise they are the summary, or the fallback text when a foreign call throws |
| GeneratePage.NoActionsSaysNoChanges | src/tools/generate-page.ts:502-503 | With no actions the summary ends with the no-changes text |
| Planning.PlanningCheck | src/agents/common.ts:173-208 | The first applicable rule adds one step: `Answer` after a trailing information tool, a docs step before an unprepared page generation, or `OpenDsl` before an unprepared refactoring; at most one step is added, the others keep their order, and an empty plan comes back empty |
| Planning.IndexOf | src/agents/common.ts:185-197 | The index of the first occurrence, or -1 exactly when there is none |
| Planning.InsertAt | src/agents/common.ts:190-203 | Inserting puts the step at the index and leaves the plan around it unchanged |
| Planning.StepNames | src/agents/common.ts:174 | The tool names of the plan, position by position |
| ModifyComponent.Execute | src/tools/modify-component.ts:320-341 | One callback per distinct component id, in key order, each with that id's group, and the reply lists the same keys joined by `、`; when an action's id is a name inherited from `Object.prototype`, no callback fires and `execute` throws |
| ModifyComponent.GroupById | src/tools/modify-component.ts:327-334 | The reduction throws exactly when some action's id is an inherited name; otherwise it yields the keys in first-seen order and each key's group |
| ModifyComponent.AddToGroup | src/tools/modify-component.ts:327-333 | One reduction step throws exactly when the id is an inherited name, because `acc[id]` is then truthy and has no `push`; otherwise it keeps the grouping correct for the actions seen so far |
| ModifyComponent.ReduceThrowsIffInheritedKey | src/tools/modify-component.ts:327-334 | The reduction throws exactly when one of the grouping keys is an inherited name |
| ModifyComponent.FireCallbacks | src/tools/modify-component.ts:336-338 | The callbacks fire once per key, in key order, each with that key's group |
| ModifyComponent.GroupKeys | src/tools/modify-component.ts:327-334 | The keys are free of repeats, and a key is present exactly when some action has that id |
| ModifyComponent.Group | src/tools/modify-component.ts:327-334 | A group holds exactly the actions with that id |
| ModifyComponent.CallsFor | src/tools/modify-component.ts:336-338 | One call per key, in order, each carrying the key's group |
| ModifyComponent.GroupsPartition | src/tools/modify-component.ts:327-334 | Every action lies in the group of its own id, and a group holds only actions with its id |
| ModifyComponent.GroupKeepsOrder | src/tools/modify-component.ts:331-332 | A group is the actions with its id, in their original relative order |
| ModifyComponent.GroupsNonEmpty | src/tools/modify-component.ts:336-338 | Every key has a non-empty group, so every callback carries actions |
| ModifyComponent.NoFileNoCalls | src/tools/modify-component.ts:321-325 | Without a `.json` file nothing throws and there are no keys, so no callback fires |
| ModifyComponent.GroupSnocAt | src/tools/modify-component.ts:331-332 | Pushing an action extends only the group of its own id |
| Files.GetFiles | src/tools/utils.ts:1-14 | Returns nothing exactly when no entry matches; otherwise a matching entry with no matching entry after it |
| Files.LastMatch | src/tools/utils.ts:1-14 | The last single file with the extension, or none exactly when no entry has it |
| Files.LastMatchIsGetFiles | src/tools/utils.ts:1-14 | Any result meeting the contract of `getFiles` for a defined extension is the last match |
| Files.DefinedExtensionMatchesOneFile | src/tools/type.d.ts:12 | For a defined extension, only a single file matches, never an array of files |
| Actions.ReadActions | src/tools/generate-page.ts:482-490 | The actions are the parser's reading of the last `.json` file, and none without one |

## Left out

- `getProjectStruct`, `getComponentsDocs` and `PageHierarchyGenerator.generate`/`generateTreeDescription` (src/tools/workspace.ts:212-240, 264-270, 359-378, 439-482) only format host data into prompt text. Their string `replace` and their `processRawData` are not modelled.
- `PageTreeGenerator.processRawData` is not modelled: the page list arrives already in `PageInfo` form.
- The host API (`getOutlineInfo`, `getAllPageInfo`, `getPageJson`) and `JSON.stringify` are parameters. Their results are taken as given values.
- The streaming action parser is the parameter `parse` and is taken to be total. Its calls at src/tools/generate-page.ts:467, src/tools/generate-page.ts:490 and src/tools/modify-component.ts:324 lie outside any `try`, and an exception thrown there is not modelled.
- `stripFileBlocks` is the parameter `strip`. `getComponentOperationSummary`, applied to the id-to-title map that `getComponentIdToTitleMap` builds from the page JSON, is the single parameter `summarize`. Their bodies are not part of this model. Both sit inside the `try` of `execute`, so each returns an `Outcome`, and `Threw` leads to the fallback text.
- The `refactor-component` tool, the prompt-only tools, the chat UI and the asynchronous agent orchestration are not modelled.
- `DocumentInfo` records are values. The in-place write to the first `组件` entry is modelled as a sequence update, so aliasing of that record from elsewhere is not captured.
- ModifyComponent.GroupKeys: lists keys in first-seen order. JavaScript lists integer-like property keys first, in ascending order, so the model's key order differs when component ids look like integers.
- Files.GetFiles: follows `Object.keys` in insertion order. The same integer-key ordering rule is not modelled.
- JsValues.Lookup: a JavaScript object cannot hold a key twice. Where the field list holds one twice, the first field wins. Reading an inherited name such as `constructor` from a value's fields gives `undefined` here. The modification tool's accumulator is the one place where the model takes inherited names into account, in `ModifyComponent.AddToGroup`.
- Jsx.StyleEntry: an element of `style.css` that is `null` or `undefined` makes `cssItem.selector` throw a TypeError at src/tools/workspace.ts:839, and the whole rendering then throws. The model renders such an element as an empty rule ` : {  }` instead. So `Jsx.ExtractStyleArrayShape`, with its one rule per element, describes that model behaviour, not the source's throw.
- Number formatting in `String()` covers whole numbers only. Floating-point values are not modelled.
- Workspace.WorkSpace.OpenDocument: drops undefined ids from the component-doc targets. An undefined id never matches a node, and the target list always holds the opened id. So the rendering is the same, but the target list is not copied verbatim.
- GeneratePage.FixActions: does not model `null` or `undefined` action lists (the `actions ?? []` default). The parser is taken to return an array.
- The static state of `ComponentsInfoGenerator` is one object that the workspace holds, so two workspaces sharing it is not modelled beyond that object.
