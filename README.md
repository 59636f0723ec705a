# attachment-cms-lib, modelled in Dafny

`AttachmentCMS` is a small browser client. It fetches a table from a content service. The table maps URL path patterns to lists of overlay rules. The client keeps the rules whose pattern matches the current page path and splices their HTML fragments into the page. A rule has three parts:

- a CSS selector;
- an HTML fragment;
- an action: `innerHTML`, `remove`, `insertBefore`, `insertChildAfterBegin`, `insertChildBeforeEnd` or `insertAfter`.

This project models the core of `src/attachment-cms.ts` and proves properties of the model:

- **Endpoint choice (`endpoint.dfy`).** The constructor picks the endpoint and token. A truthy `token` query parameter on the page wins and selects `<base>/contents/limited`. Otherwise the constructor's token is used with `<base>/contents`. The base is the given base URL when it is truthy, and `https://attachment-cms.dev` otherwise. `fetchContents` requests `<url>?token=<token>`, with the token not percent-encoded. The model proves that this string can be split back into the endpoint and the token at its first `?`. That is a fact about the string; a query-string reader that splits at `&` or decodes `%` can read a different token.
- **Path matching (`matching.dfy`).** `extractMatchedContents` keeps the entries whose pattern matches the path, in key order, and concatenates their rule lists. The model proves where each rule ends up in the result, which rules are in it (both directions), when it is empty, and how it splits over a split table. A key that is not a valid pattern makes the extraction throw, whether or not it would have matched. The test table is proved with an anchored, case-insensitive literal matcher.
- **Document (`dom.dfy`, `dom_size.dfy`).** The document is an element tree held as a value in a `Document` class.
  - The tree is the children of `<html>`: `<head>` and `<body>`.
  - `querySelector` throws when the selector does not parse. Otherwise it is a pre-order search with a proved first-match contract. The selector engine sees the whole tree and the element's path, so selectors on ancestors, siblings and position can all be expressed.
  - The three DOM calls the client makes are the `innerHTML` setter, `removeChild` and `insertAdjacentHTML` in its four positions. Each is a `Document` method proved against a function. The function states where the element and the fragment end up, and that the rest of the tree (the context of the element's sibling list) is unchanged.
  - Node counts say how many nodes each call adds or removes.
- **Rule application (`patch.dfy`).** `applyContents` is a loop over the rules. Each turn looks the selector up. A selector that does not parse throws, and that ends the loop. If an element is found, the action string chooses the DOM call; an unknown action does nothing. The model proves:
  - that rules compose in list order;
  - that no rule after a throwing one is applied;
  - what each action does;
  - that nothing stops an insert rule from inserting again when it is applied a second time.
- **The client object (`attachment_cms.dfy`).** `AttachmentCMS` is a class with fields `url`, `token` and `contents`. Its methods are proved against the functions above; `ApplyContents` keeps a loop invariant.
- **Tests (`scenarios.dfy`, and the test table in `matching.dfy`).** The client's unit tests of the constructor, `fetchContents`, `extractMatchedContents` and `applyContents` are replayed on the model. The `observeElement` test is not, because the observer is not modelled. One scenario is the model's own: a selector that does not parse.

What the browser supplies is passed in as parameters:

- the value of the page's `token` query parameter;
- the page path;
- the `contents` field of the service's reply;
- the document, as the children of `<html>`;
- the selector engine, as `Selectors`: which selector strings parse, and whether the element at a path of the whole tree satisfies a selector;
- the HTML parser;
- the regular-expression engine, as `PathEngine`: which patterns compile, and whether a path matches a pattern that does.

Some consequences of the code of `src/attachment-cms.ts` are kept in the model as they are:

- The query parameter read is `token`. Each constructor call reads it again.
- `remove` takes the element out of the tree with `removeChild`.
- Nothing marks an element as already edited, so re-applying an insert rule inserts again (`Patch.InsertRuleTwice`).
- The rules are applied in the order of the table's keys, rule list by rule list.
- The pattern is used as `^pattern$` with the `i` flag. The base URL is concatenated as given; no slash is added or removed.
- A key of the reply that is not a valid pattern makes `new RegExp` throw inside `filter`. `contents` is then never assigned, and `run` stops before the page is touched (`PathMatching.ExtractOrThrow`, `AttachmentCms.AttachmentCMS.Run`).
- A selector that does not parse makes `querySelector` throw. That ends the `forEach`, so the later rules are not applied (`Patch.AbortSkipsLaterRules`), and `run` never reaches `observeElement`.

## Model

| member | source | states |
|---|---|---|
| Endpoints.SelectEndpoint | src/attachment-cms.ts:8-18 | A truthy query token gives that token and the base plus `/contents/limited`. Otherwise the constructor's token and the base plus `/contents`. The base is a truthy base URL, else `https://attachment-cms.dev` |
| Endpoints.LimitedIffQueryToken | src/attachment-cms.ts:11-17 | The URL ends in `/contents/limited` exactly when the query token is truthy (both directions) |
| Endpoints.SelectedUrlHasNoQuery | src/attachment-cms.ts:13-16 | The chosen endpoint URL contains no `?` when the base URL contains none |
| Endpoints.RequestUrl | src/attachment-cms.ts:34 | The URL `fetchContents` requests, `url?token=token`. Its inverse is `SplitRequestUrl`, by `RequestUrlRoundTrip`, and `RequestUrlInjective` states that distinct endpoints give distinct URLs |
| Endpoints.SplitRequestUrl | src/attachment-cms.ts:34 | Reads an endpoint back from a request URL string: the part before the first `?`, and everything after `token=`. It neither stops at `&` or `#` nor percent-decodes, so `RequestUrlRoundTrip` says that the string built at line 34 loses nothing, not that a query-string parser reads the token back. It has no counterpart in the source |
| Endpoints.RequestUrlRoundTrip | src/attachment-cms.ts:34 | Splitting `url?token=token` at its first `?` and after `token=` gives back the endpoint and the token when the URL has no `?` of its own |
| Endpoints.RequestUrlInjective | src/attachment-cms.ts:34 | Two endpoints without a query string that give the same request URL are equal |
| AttachmentCms.AttachmentCMS.constructor | src/attachment-cms.ts:8-18 | `url` and `token` are the chosen endpoint; no rules are held yet |
| AttachmentCms.AttachmentCMS.FetchContents | src/attachment-cms.ts:33-38 | Returns the requested URL built from the fields. `fetched` is false exactly when some key of the reply is not a valid pattern, and then `contents` keeps its old value. Otherwise `contents` becomes the extraction of the reply for the path. Nothing else changes |
| AttachmentCms.AttachmentCMS.ApplyContents | src/attachment-cms.ts:71-96 | The new tree is the rules applied in list order, each to the tree the earlier ones left, stopping at the first selector that throws. `completed` is true exactly when every selector parses. Loop invariant over prefixes |
| AttachmentCms.AttachmentCMS.ApplyRuleTo | src/attachment-cms.ts:72-74 | One turn of the loop: the tree becomes `ApplyRule` of the old tree. `ok` is false exactly when the selector does not parse, and then the tree is unchanged; no match leaves it unchanged too |
| AttachmentCms.AttachmentCMS.Perform | src/attachment-cms.ts:75-94 | The `switch` on the found element: each known action string makes its DOM call; any other string leaves the tree unchanged |
| AttachmentCms.AttachmentCMS.Run | src/attachment-cms.ts:20-31 | Fetch, then apply. If the extraction throws, neither `contents` nor the tree changes. Otherwise the rules kept are the extraction for the path, and the tree is those rules applied in order up to the first selector that throws; `completed` says whether none threw |
| PathMatching.MatchedEntries | src/attachment-cms.ts:41-47 | An entry is kept exactly when it is in the table and its pattern matches the path; never more entries than the table |
| PathMatching.RuleLists | src/attachment-cms.ts:48 | The `map` step, from each kept entry to its rule list. What it contributes is stated by `ExtractAt` and `ExtractMembership` |
| PathMatching.Flatten | src/attachment-cms.ts:49 | The `flat` step. `FlattenAppend` states that it distributes over concatenation, and `InFlatten` that a rule is in the result exactly when it is in one of the lists |
| PathMatching.ExtractMatchedContents | src/attachment-cms.ts:40-50 | `extractMatchedContents` when every key compiles. Its contract is carried by lemmas: `ExtractPlacement` gives the result as the matched lists laid end to end in key order; `ExtractMembership` gives membership in both directions; `ExtractEmptyIff` gives when it is empty. The throwing case is `ExtractOrThrow` |
| PathMatching.FilterOrThrow | src/attachment-cms.ts:43-47 | The `filter` with a regular expression built per key. `None` exactly when some key does not compile; otherwise the entries whose pattern matches, as `MatchedEntries` states |
| PathMatching.ExtractOrThrow | src/attachment-cms.ts:40-50 | `extractMatchedContents` with its failure. It throws (`None`) exactly when some key of the table is not a valid pattern, matching or not; otherwise it gives the extraction |
| PathMatching.FlattenAppend | src/attachment-cms.ts:49 | Flattening distributes over concatenation of the list of lists |
| PathMatching.MatchedEntriesAppend | src/attachment-cms.ts:43-47 | Filtering distributes over concatenation of the table |
| PathMatching.RuleListsAppend | src/attachment-cms.ts:48 | The `map` step distributes over concatenation of the matched entries |
| PathMatching.ExtractAppend | src/attachment-cms.ts:40-50 | Extracting from `a + b` is extracting from `a` followed by extracting from `b` |
| PathMatching.ExtractSnoc | src/attachment-cms.ts:40-50 | One more key at the end appends its list exactly when its pattern matches |
| PathMatching.MatchedLengthPrefix | src/attachment-cms.ts:40-50 | The offset of an entry does not depend on entries after it |
| PathMatching.ExtractLength | src/attachment-cms.ts:40-50 | The length of the result is the sum of the lengths of the matched lists |
| PathMatching.ExtractAt | src/attachment-cms.ts:40-50 | Rule `j` of matched entry `k` sits at the offset of entry `k` plus `j` |
| PathMatching.ExtractFits | src/attachment-cms.ts:40-50 | Every matched list lies within the result at its offset |
| PathMatching.ExtractPlacement | src/attachment-cms.ts:40-50 | For every matched entry and index at once: the result is the matched lists laid end to end in key order, with the length as their sum |
| PathMatching.MatchedListsInKeyOrder | src/attachment-cms.ts:41-49 | A matched entry's list ends no later than the offset of any later entry: key order is kept |
| PathMatching.InFlatten | src/attachment-cms.ts:49 | A rule is in the flattening exactly when it is in one of the lists |
| PathMatching.ExtractMembership | src/attachment-cms.ts:40-50 | A rule is in the result exactly when it belongs to the list of some pattern that matches the path (both directions) |
| PathMatching.ExtractEmptyIff | src/attachment-cms.ts:40-50 | The result is empty exactly when every matching pattern has an empty list, so in particular when none matches |
| PathMatching.LiteralMatchAnchored | src/attachment-cms.ts:45-46 | A literal pattern under `^…$` with `i` matches exactly the paths of the same length that agree up to ASCII letter case |
| PathMatching.NewsPatterns | src/attachment-cms.test.ts:53-58 | Of `/news`, `/news/1`, `/news/15` and `/news/20` only `/news/15` matches `/news/15`; `/NEWS/15` matches too |
| PathMatching.NewsExample | src/attachment-cms.test.ts:60-74 | On `/news/15` the test table gives exactly the `/news/15` list, with one rule or two, in order |
| PathMatching.NewsPrefix | src/attachment-cms.test.ts:53-55 | The first two keys of the test table contribute nothing on `/news/15` |
| PathMatching.NewsDeleted | src/attachment-cms.test.ts:75-79 | With `/news/15` deleted the result is empty |
| PathMatching.NewsExampleCompiles | src/attachment-cms.test.ts:60-74 | The test table's keys all compile, so the extraction that can throw gives the `/news/15` list |
| PathMatching.GlobKeyAborts | src/attachment-cms.ts:45 | A key `*` ahead of the matching key throws, and the extraction gives nothing, although `*` would never have matched |
| Dom.NodeAt | src/attachment-cms.ts:73 | A path that leads to an element yields that element |
| Dom.SiblingsAt | src/attachment-cms.ts:73 | The sibling list holds the element at the path's last index |
| Dom.ContextAt | src/attachment-cms.ts:73 | The context's hole is at the element's parent path |
| Dom.Decompose | src/attachment-cms.ts:76-93 | Plugging an element's sibling list back into its context gives the tree back |
| Dom.PlugFocus | src/attachment-cms.ts:76-93 | After plugging, the `i`-th node of the list is found at the hole's path plus `i`, with the same context and list |
| Dom.ReplaceSiblings | src/attachment-cms.ts:76-93 | Replacing an element's sibling list changes nothing outside it: the result is the old context around the new list |
| Dom.ReplaceFocus | src/attachment-cms.ts:76-93 | After a sibling-list replacement, a node of the new list keeps the old context under the same parent |
| Dom.RemoveAt | src/attachment-cms.ts:80 | One node shorter; the nodes before keep their index, the nodes after move down by one |
| Dom.InsertAt | src/attachment-cms.ts:83-92 | The fragment sits at the index; the nodes before keep their place, the nodes after move up by the fragment's length |
| Dom.InsertThenCut | src/attachment-cms.ts:83-92 | Cutting the inserted fragment out gives back the list |
| Dom.RemoveThenInsert | src/attachment-cms.ts:80 | Putting the removed node back at its index gives back the list |
| Dom.ReplaceChildren | src/attachment-cms.ts:77 | The `innerHTML` setter: the element stays at its path with the same context, tag and attributes, and its children become the parsed fragment |
| Dom.Detach | src/attachment-cms.ts:80 | `removeChild`: the result is the old context around the sibling list without the element |
| Dom.InsertSiblings | src/attachment-cms.ts:82-93 | The fragment enters the sibling list at the index; the element keeps its context and shifts by the fragment's length when the fragment goes before it |
| Dom.InsertAdjacent | src/attachment-cms.ts:82-93 | `beforebegin`/`afterend`: the fragment becomes the element's previous/next siblings, and the element shifts or stays. `afterbegin`/`beforeend`: the fragment becomes its first/last children. The context is unchanged in every case |
| Dom.FirstMatchFrom | src/attachment-cms.ts:73 | The path returned leads to an element that matches in the whole tree, and no matching element comes before it in document order. `None` means no element matches |
| Dom.FirstMatchDescends | src/attachment-cms.ts:73 | A match inside a non-matching element is found before its later siblings are looked at |
| Dom.FirstMatchSkips | src/attachment-cms.ts:73 | A node that neither matches nor holds a match is passed over |
| Dom.FirstMatch | src/attachment-cms.ts:73 | `querySelector` with a selector that parses: the first element in document order that matches in the whole tree, and `None` exactly when nothing matches |
| Dom.Document.constructor | src/attachment-cms.ts:73 | The document holds the given children of `<html>` |
| Dom.Document.QuerySelector | src/attachment-cms.ts:73 | Throws exactly when the selector does not parse. Otherwise it returns the first match in document order. It changes nothing |
| Dom.Document.SetInnerHTML | src/attachment-cms.ts:77 | The tree becomes `ReplaceChildren` of the old tree with the parsed HTML |
| Dom.Document.RemoveChild | src/attachment-cms.ts:80 | The tree becomes `Detach` of the old tree |
| Dom.Document.InsertAdjacentHTML | src/attachment-cms.ts:83-92 | The tree becomes `InsertAdjacent` of the old tree with the parsed HTML |
| DomSize.SizeAppend | src/attachment-cms.ts:76-93 | The node count of a concatenation is the sum of the counts |
| DomSize.SizePlug | src/attachment-cms.ts:76-93 | A tree counts its context's nodes plus the nodes of the list in the hole |
| DomSize.SizeUpdate | src/attachment-cms.ts:76-93 | Replacing one node changes the count by the difference of the two subtrees |
| DomSize.InsertAtSize | src/attachment-cms.ts:82-93 | Splicing a fragment into a list adds the fragment's nodes |
| DomSize.WithChildrenSize | src/attachment-cms.ts:76-90 | Giving one element new children changes the count by the difference of the old and new children |
| DomSize.InsertAdjacentSize | src/attachment-cms.ts:82-93 | Every `insertAdjacentHTML` position adds exactly the fragment's nodes |
| DomSize.SizeSplit | src/attachment-cms.ts:80 | A list counts its nodes without one node plus that node's subtree |
| DomSize.RemoveAtSize | src/attachment-cms.ts:80 | Cutting a node out of a list takes away that node's subtree |
| DomSize.DetachSize | src/attachment-cms.ts:79-81 | `removeChild` takes away the element and all its descendants |
| DomSize.ReplaceChildrenSize | src/attachment-cms.ts:76-78 | The `innerHTML` setter trades the element's old descendants for the fragment's nodes |
| Patch.ParseAction | src/attachment-cms.ts:75-94 | A recognised string is the name of the action returned; `None` means the string names no action |
| Patch.ParseActionName | src/attachment-cms.ts:75-94 | Each action's own name is recognised as that action |
| Patch.ApplyAction | src/attachment-cms.ts:75-94 | The DOM call each action makes on the element. What each call does is stated by `ApplyRuleEffect` and by the contracts of `ReplaceChildren`, `Detach` and `InsertAdjacent` |
| Patch.ApplyRule | src/attachment-cms.ts:72-94 | A selector that does not parse, no element found, or an unknown action leaves the tree unchanged |
| Patch.ApplyAllAppend | src/attachment-cms.ts:72 | If no selector of `a` throws, applying `a + b` is applying `a`, then `b` to the result. If one does, `b` is never reached |
| Patch.ApplyAll | src/attachment-cms.ts:72-95 | The `forEach`: the rules in list order, ending at the first selector that throws. Stated by `ApplyAllAppend`, `ApplyAllStep` and `AbortSkipsLaterRules` |
| Patch.SelectorsParseSnoc | src/attachment-cms.ts:72-73 | A list with one more rule parses exactly when the list and the new rule's selector do |
| Patch.AbortSkipsLaterRules | src/attachment-cms.ts:72-73 | After a rule whose selector throws, no later rule is applied: the tree is what the rules before it made |
| Patch.ApplyAllStep | src/attachment-cms.ts:72-95 | One more turn after turns that did not throw. Either it applies the rule, or it throws, and then the whole list gives what the earlier rules gave and not every selector parses |
| Patch.UnknownActionsChangeNothing | src/attachment-cms.ts:75-94 | A rule list with no known action string leaves the tree unchanged |
| Patch.ApplyRuleEffect | src/attachment-cms.ts:73-94 | When the selector parses and finds an element, each of the six action strings gives its DOM effect. The element's context is unchanged, and so is its sibling list apart from the element itself or the inserted fragment |
| Patch.InsertRuleAddsFragment | src/attachment-cms.ts:82-93 | An insert rule whose selector parses and finds an element adds exactly the nodes of its parsed content |
| Patch.InsertRuleTwice | src/attachment-cms.ts:71-96 | An insert rule applied twice, finding an element both times, adds its content twice: there is no guard against re-application |
| Scenarios.LastChildSearch | src/attachment-cms.ts:73 | Searching from the last node of a list, when it is an element that does not match, is searching its children |
| Scenarios.PageShape | src/attachment-cms.test.ts:91-95 | The test page's `<head>`, `<body>`, outer `div` and `#description` at their paths, whatever `#description` holds |
| Scenarios.SearchReachesDescription | src/attachment-cms.test.ts:91-95 | On the test page, the search finds what the search of `#description`'s children finds |
| Scenarios.ParagraphMatches | src/attachment-cms.test.ts:94 | The paragraph is a `p` whose parent is `#description` |
| Scenarios.FindsParagraph | src/attachment-cms.test.ts:92-95 | On the test page, `#description > p` finds the paragraph at `[1, 0, 0, 0]`: inside `<body>`, the outer `div` and `#description` |
| Scenarios.ParagraphPlace | src/attachment-cms.test.ts:94 | The paragraph's context and sibling list on the test page |
| Scenarios.PlugParagraphContext | src/attachment-cms.test.ts:94 | Plugging a list into the paragraph's context puts it inside `#description` |
| Scenarios.Rebuilt | src/attachment-cms.test.ts:94 | A result with the paragraph's context is the test page with the new list inside `#description` |
| Scenarios.RuleOnParagraph | src/attachment-cms.test.ts:101-142 | A test rule with a known action acts on the paragraph with the parsed fragment |
| Scenarios.InnerHtmlOnParagraph | src/attachment-cms.test.ts:101-105 | `innerHTML` gives `<p><span>テスト</span></p>` in `#description`, on any tree that holds the paragraph in the test page's context |
| Scenarios.RemoveOnParagraph | src/attachment-cms.test.ts:106-110 | `remove` leaves `#description` empty |
| Scenarios.BeforeParagraph | src/attachment-cms.test.ts:111-117 | `insertBefore` puts the span before the paragraph |
| Scenarios.FirstChildOfParagraph | src/attachment-cms.test.ts:118-126 | `insertChildAfterBegin` makes the span the paragraph's first child |
| Scenarios.LastChildOfParagraph | src/attachment-cms.test.ts:127-135 | `insertChildBeforeEnd` makes the span the paragraph's last child |
| Scenarios.AfterParagraph | src/attachment-cms.test.ts:136-142 | `insertAfter` puts the span after the paragraph |
| Scenarios.ActionScenarios | src/attachment-cms.test.ts:90-142 | For each of the six actions, the rule on the test page gives the page the test expects |
| Scenarios.NoTargetScenario | src/attachment-cms.test.ts:83-89 | With no paragraph under `#description`, the page is unchanged |
| Scenarios.EmptySelectorScenario | src/attachment-cms.ts:72-73 | An empty selector ahead of a rule that would match: the lookup throws, and the page is unchanged |
| Scenarios.ConstructorScenarios | src/attachment-cms.test.ts:14-33 | Without a query token: `http://localhost:3000/contents` and `token`. With `token=querytoken`: `/contents/limited` and `querytoken` |
| Scenarios.EmptyReply | src/attachment-cms.test.ts:35-44 | A reply with no contents yields no rules for any path and any pattern engine, and does not throw |
| Scenarios.FetchingScenario | src/attachment-cms.test.ts:35-44 | After fetching a reply with no contents the client's `contents` is the empty list |

## Left out

- The network request and JSON decoding (`src/attachment-cms.ts:35-36`) are outside the model. `FetchContents` takes the `contents` field of the reply as a parameter. A failing fetch or malformed JSON is not modelled.
- `AttachmentCms.AttachmentCMS.Run`: the wait for `DOMContentLoaded` while the document is loading (`src/attachment-cms.ts:22-26`) is not modelled. Run applies the rules straight after the fetch, which is what either branch does once the document is ready.
- `observeElement` (`src/attachment-cms.ts:53-69`) is a `MutationObserver` on `<body>`. It re-runs `applyContents` when a child list or a text node changes anywhere under `<body>`; attribute changes are not observed (`src/attachment-cms.ts:60-67`). Browser events are not modelled. The observer also sees the edits `applyContents` itself makes, so an insert or `innerHTML` rule whose selector still matches after its edit triggers a new run, and that again, with no bound. One re-run is `ApplyAll` again on the new tree, and `Patch.InsertRuleTwice` states one step of this.
- The regular-expression engine is a parameter (`PathEngine`): which patterns compile, and whether a path matches. `^pattern$` with the `i` flag is given for literal patterns only, by `LiteralMatch`, which folds ASCII letters only. Patterns with metacharacters and non-ASCII case folding are not modelled.
- The CSS selector engine is a parameter (`Selectors`). Selector syntax and its matching rules are not modelled. The model gives the engine the whole tree and the element's path.
- The HTML parser is a parameter, `parse`, and it receives only the HTML string. The browser parses `innerHTML` and `insertAdjacentHTML` content in the context of the element or its parent. That context changes the result for content such as `<tr>` or `<td>` outside a table. The model does not capture this dependence.
- The tree is a value and elements are addressed by paths. Node identity and aliasing are not modelled, and neither are attributes the DOM calls do not touch or text-node merging.
- `Dom.FirstMatch`: the search covers `<head>`, `<body>` and all their descendants, but not the document element `<html>` itself, which is not a node of the tree. This matters for every selector that matches `<html>`, alone or with other elements (`html`, `:root`, `*`, `[lang]`, `:not(p)`, `html, p`). The browser returns `<html>`, which comes first in document order, and acts on it. The model returns the first match below it, or nothing, and acts there. For example, `{selector: '*', action: 'remove'}` removes the document element in the browser and `<head>` in the model.
- `Dom.Document.QuerySelector` has the same limit as `Dom.FirstMatch`. `<html>` itself is never returned, so for any selector that matches `<html>` it returns the first match below `<html>` instead. For the same reason `remove` on `<html>`, which the browser does as `document.removeChild`, cannot be expressed.
- In the model, `querySelector` throws only on a selector that does not parse, and each of the three DOM calls succeeds on every element of the tree.
- `Endpoints.SplitRequestUrl`: the token is put into the request URL as it is, without percent-encoding (`src/attachment-cms.ts:34`). A token holding `&`, `#`, `+` or `%` therefore reaches the service as a different value, or is cut short. An example is `a&b`, or `a%26b` in the page's query string, which `URLSearchParams` decodes to `a&b`. The model's reader takes everything after `token=` literally, so `Endpoints.RequestUrlRoundTrip` does not capture this.
- `content: null` (as in the `remove` test) is not distinguished from a string, since `remove` does not read the content.
- `AttachmentCms.AttachmentCMS.constructor`: `contents` starts as the empty list, whereas the source leaves the field undefined until the fetch. Calling `applyContents` before the fetch throws in the source; this is not modelled.
- `src/main.ts` (the auto-start from `window.AttachmentConfig`) and `src/lib/history.ts` (the history API wrappers) are not part of this model.
