/**
 * The page and the rules of the client's own unit tests, replayed on the
 * model: the endpoint choice with and without a `token` query parameter,
 * the fetch of a reply with no contents, each of the six actions on
 * `#description > p`, and a selector that finds nothing. One scenario of
 * the model's own is added: a selector that does not parse.
 */
module Scenarios {
  import opened Wrappers
  import opened Contents
  import opened Endpoints
  import opened Dom
  import opened Patch
  import PathMatching
  import AttachmentCms

  /** The HTML fragment the tests insert, and what parsing it gives. */
  const Fragment: string := "<span>テスト</span>"
  const FragmentNode: Node := Element("span", map[], [Text("テスト")])

  /** The one HTML parse these scenarios need. */
  function Parse(html: string): seq<Node> {
    if html == Fragment then [FragmentNode] else []
  }

  /**
   * The selector engine these scenarios need: the empty selector does not
   * parse (the browser throws a `SyntaxError` on it), and
   * `#description > p` matches a `p` element whose parent has the id
   * `description`.
   */
  predicate Parses(selector: string) {
    selector != ""
  }

  predicate DescriptionParagraph(selector: string, root: seq<Node>, p: Path) {
    selector == "#description > p" && |p| > 1 &&
    IsElementAt(root, p) && NodeAt(root, p).tag == "p" &&
    IsElementAt(root, Parent(p)) &&
    "id" in NodeAt(root, Parent(p)).attrs && NodeAt(root, Parent(p)).attrs["id"] == "description"
  }

  function Engine(): Selectors {
    Selectors(Parses, DescriptionParagraph)
  }

  function Head(): Node {
    Element("head", map[], [])
  }

  function Div(children: seq<Node>): Node {
    Element("div", map[], children)
  }

  function Description(children: seq<Node>): Node {
    Element("div", map["id" := "description"], children)
  }

  function Para(children: seq<Node>): Node {
    Element("p", map[], children)
  }

  function Span(text: string): Node {
    Element("span", map[], [Text(text)])
  }

  /**
   * The children of `<html>` when the test page's markup is loaded: an
   * empty `<head>`, and a `<body>` holding
   * `<div><div id="description">…</div></div>` with `s` inside
   * `#description`.
   */
  function PageWith(s: seq<Node>): seq<Node> {
    [Head(), Element("body", map[], [Div([Description(s)])])]
  }

  function Paragraph(): Node {
    Para([Span("1"), Span("999")])
  }

  /** The test page: `<p><span>1</span><span>999</span></p>` inside `#description`. */
  function Page(): seq<Node> {
    PageWith([Paragraph()])
  }

  function RuleFor(action: string): Rule {
    Rule("#description > p", Fragment, action)
  }

  /** Where the paragraph sits: inside `<body>`, the outer `div` and `#description`. */
  const ParagraphPath: Path := [1, 0, 0, 0]

  /** A search result moved one level down, under the child at index `i`. */
  function Under(i: nat, r: Option<Path>): Option<Path> {
    match r
    case None => None
    case Some(q) => Some([i] + q)
  }

  /** When the last node of a list is an element that does not match, the search from it is the search of its children. */
  lemma LastChildSearch(root: seq<Node>, prefix: Path, f: seq<Node>, i: nat, selector: string, matcher: Matcher)
    requires i == |f| - 1 && f[i].Element? && !matcher(selector, root, prefix + [i])
    ensures FirstMatchFrom(root, prefix, f, i, selector, matcher)
         == Under(i, FirstMatchFrom(root, prefix + [i], f[i].children, 0, selector, matcher))
  {
    match FirstMatchFrom(root, prefix + [i], f[i].children, 0, selector, matcher)
    case None => FirstMatchSkips(root, prefix, f, i, selector, matcher);
    case Some(q) => FirstMatchDescends(root, prefix, f, i, selector, matcher, q);
  }

  /** The elements on the way down to `#description`, whatever it holds. */
  lemma PageShape(s: seq<Node>)
    ensures IsElementAt(PageWith(s), [0]) && NodeAt(PageWith(s), [0]) == Head()
    ensures IsElementAt(PageWith(s), [1]) && NodeAt(PageWith(s), [1]).tag == "body"
    ensures IsElementAt(PageWith(s), [1, 0]) && NodeAt(PageWith(s), [1, 0]) == Div([Description(s)])
    ensures IsElementAt(PageWith(s), [1, 0, 0]) && NodeAt(PageWith(s), [1, 0, 0]) == Description(s)
  {
    assert [1, 0][1..] == [0];
    assert [1, 0, 0][1..] == [0, 0] && [0, 0][1..] == [0];
  }

  /**
   * `document.querySelector('#description > p')` on the page finds what the
   * search of `#description`'s children finds: `<head>`, `<body>` and the
   * two `div`s on the way do not match.
   */
  lemma SearchReachesDescription(s: seq<Node>)
    ensures FirstMatch(PageWith(s), "#description > p", DescriptionParagraph)
         == Under(1, Under(0, Under(0, FirstMatchFrom(PageWith(s), [1, 0, 0], s, 0, "#description > p", DescriptionParagraph))))
  {
    var root, sel, m := PageWith(s), "#description > p", DescriptionParagraph;
    PageShape(s);
    assert [] + [0] == [0] && [] + [1] == [1] && [1] + [0] == [1, 0] && [1, 0] + [0] == [1, 0, 0];
    LastChildSearch(root, [1, 0], [Description(s)], 0, sel, m);
    LastChildSearch(root, [1], [Div([Description(s)])], 0, sel, m);
    LastChildSearch(root, [], root, 1, sel, m);
    assert FirstMatchFrom(root, [0], [], 0, sel, m) == None;
    FirstMatchSkips(root, [], root, 0, sel, m);
  }

  /** The paragraph is a `p` whose parent is `#description`. */
  lemma ParagraphMatches()
    ensures DescriptionParagraph("#description > p", Page(), ParagraphPath)
  {
    PageShape([Paragraph()]);
    assert [1, 0, 0, 0][1..] == [0, 0, 0] && [0, 0, 0][1..] == [0, 0] && [0, 0][1..] == [0];
    assert Parent(ParagraphPath) == [1, 0, 0];
    assert NodeAt(Page(), ParagraphPath) == Paragraph();
  }

  /** `document.querySelector('#description > p')` finds the paragraph. */
  lemma FindsParagraph()
    ensures FirstMatch(Page(), "#description > p", DescriptionParagraph) == Some(ParagraphPath)
  {
    ParagraphMatches();
    assert [1, 0, 0] + [0] == ParagraphPath;
    assert FirstMatchFrom(Page(), [1, 0, 0], [Paragraph()], 0, "#description > p", DescriptionParagraph) == Some([0]);
    SearchReachesDescription([Paragraph()]);
    assert [1] + ([0] + ([0] + [0])) == ParagraphPath;
  }

  /** The context of the paragraph's sibling list: after `<head>` in `<html>`, then inside `<body>`, the outer `div` and `#description`. */
  function ParagraphContext(): seq<Frame> {
    [Frame([Head()], "body", map[], []), Frame([], "div", map[], []), Frame([], "div", map["id" := "description"], [])]
  }

  /** A tree whose node at the paragraph's path is the paragraph, alone in `#description`, in the page's context. */
  predicate ParagraphIn(f: seq<Node>) {
    IsElementAt(f, ParagraphPath) && ContextAt(f, ParagraphPath) == ParagraphContext() &&
    SiblingsAt(f, ParagraphPath) == [Paragraph()] && NodeAt(f, ParagraphPath) == Paragraph()
  }

  lemma ParagraphPlace()
    ensures ParagraphIn(Page())
  {
    var desc := Description([Paragraph()]);
    var div := Div([desc]);
    assert [1, 0, 0, 0][1..] == [0, 0, 0] && [0, 0, 0][1..] == [0, 0] && [0, 0][1..] == [0];
    assert Page()[..1] == [Head()] && Page()[2..] == [];
    assert [div][..0] == [] && [div][1..] == [];
    assert [desc][..0] == [] && [desc][1..] == [];
  }

  /** Plugging a list into the paragraph's context puts it inside `#description`. */
  lemma PlugParagraphContext(s: seq<Node>)
    ensures Plug(ParagraphContext(), s) == PageWith(s)
  {
    var ctx := ParagraphContext();
    assert ctx[1..][1..][1..] == [];
    assert Plug(ctx[1..][1..], s) == [Description(s)];
    assert Plug(ctx[1..], s) == [Div([Description(s)])];
  }

  /** The result of a rule on the page, given where the paragraph ends up and what its sibling list becomes. */
  lemma Rebuilt(result: seq<Node>, q: Path, s: seq<Node>)
    requires IsElementAt(result, q) && ContextAt(result, q) == ParagraphContext() && SiblingsAt(result, q) == s
    ensures result == PageWith(s)
  {
    Decompose(result, q);
    PlugParagraphContext(s);
  }

  /** A rule with a known action, applied to the page, acts on the paragraph with the parsed fragment. */
  lemma RuleOnParagraph(a: Action)
    ensures IsElementAt(Page(), ParagraphPath)
    ensures ApplyAll(Page(), [RuleFor(ActionName(a))], Engine(), Parse)
         == ApplyAction(Page(), ParagraphPath, a, [FragmentNode])
  {
    FindsParagraph();
    ParagraphPlace();
    ParseActionName(a);
    var r := RuleFor(ActionName(a));
    assert [r][1..] == [];
    assert ApplyAll(Page(), [r], Engine(), Parse) == ApplyRule(Page(), r, Engine(), Parse);
  }

  /** The page each of the six tests expects after its one rule. */
  function Expected(a: Action): seq<Node> {
    match a
    // the paragraph's children become the fragment
    case InnerHtml => PageWith([Para([FragmentNode])])
    // the paragraph is gone, `#description` is left empty
    case Remove => PageWith([])
    // the fragment becomes the paragraph's previous sibling
    case InsertBefore => PageWith([FragmentNode, Paragraph()])
    // the fragment becomes the paragraph's first child
    case InsertChildAfterBegin => PageWith([Para([FragmentNode, Span("1"), Span("999")])])
    // the fragment becomes the paragraph's last child
    case InsertChildBeforeEnd => PageWith([Para([Span("1"), Span("999"), FragmentNode])])
    // the fragment becomes the paragraph's next sibling
    case InsertAfter => PageWith([Paragraph(), FragmentNode])
  }

  lemma InnerHtmlOnParagraph(f: seq<Node>)
    requires ParagraphIn(f)
    ensures ReplaceChildren(f, ParagraphPath, [FragmentNode]) == Expected(InnerHtml)
  {
    var result := ReplaceChildren(f, ParagraphPath, [FragmentNode]);
    Rebuilt(result, ParagraphPath, [Para([FragmentNode])]);
  }

  lemma RemoveOnParagraph(f: seq<Node>)
    requires ParagraphIn(f)
    ensures Detach(f, ParagraphPath) == Expected(Remove)
  {
    assert RemoveAt([Paragraph()], 0) == [];
    PlugParagraphContext([]);
  }

  lemma BeforeParagraph(f: seq<Node>)
    requires ParagraphIn(f)
    ensures InsertAdjacent(f, ParagraphPath, BeforeBegin, [FragmentNode]) == Expected(InsertBefore)
  {
    var result := InsertAdjacent(f, ParagraphPath, BeforeBegin, [FragmentNode]);
    var before := InsertAt([Paragraph()], 0, [FragmentNode]);
    assert before == [FragmentNode, Paragraph()];
    var q := Parent(ParagraphPath) + [Last(ParagraphPath) + |[FragmentNode]|];
    Rebuilt(result, q, before);
  }

  lemma FirstChildOfParagraph(f: seq<Node>)
    requires ParagraphIn(f)
    ensures InsertAdjacent(f, ParagraphPath, AfterBegin, [FragmentNode]) == Expected(InsertChildAfterBegin)
  {
    var result := InsertAdjacent(f, ParagraphPath, AfterBegin, [FragmentNode]);
    var children := [FragmentNode] + [Span("1"), Span("999")];
    assert children == [FragmentNode, Span("1"), Span("999")];
    Rebuilt(result, ParagraphPath, [Para(children)]);
  }

  lemma LastChildOfParagraph(f: seq<Node>)
    requires ParagraphIn(f)
    ensures InsertAdjacent(f, ParagraphPath, BeforeEnd, [FragmentNode]) == Expected(InsertChildBeforeEnd)
  {
    var result := InsertAdjacent(f, ParagraphPath, BeforeEnd, [FragmentNode]);
    var children := [Span("1"), Span("999")] + [FragmentNode];
    assert children == [Span("1"), Span("999"), FragmentNode];
    Rebuilt(result, ParagraphPath, [Para(children)]);
  }

  lemma AfterParagraph(f: seq<Node>)
    requires ParagraphIn(f)
    ensures InsertAdjacent(f, ParagraphPath, AfterEnd, [FragmentNode]) == Expected(InsertAfter)
  {
    var result := InsertAdjacent(f, ParagraphPath, AfterEnd, [FragmentNode]);
    var after := InsertAt([Paragraph()], 1, [FragmentNode]);
    assert after == [Paragraph(), FragmentNode];
    assert SiblingsAt(result, ParagraphPath) == after;
    Rebuilt(result, ParagraphPath, after);
  }

  /**
   * The six action tests: on the page whose `#description` holds
   * `<p><span>1</span><span>999</span></p>`, the rule `#description > p`
   * with `<span>テスト</span>` and each action gives the expected page.
   */
  lemma {:induction false} ActionScenarios(a: Action)
    ensures ApplyAll(Page(), [RuleFor(ActionName(a))], Engine(), Parse) == Expected(a)
  {
    RuleOnParagraph(a);
    ParagraphPlace();
    match a
    case InnerHtml => InnerHtmlOnParagraph(Page());
    case Remove => RemoveOnParagraph(Page());
    case InsertBefore => BeforeParagraph(Page());
    case InsertChildAfterBegin => FirstChildOfParagraph(Page());
    case InsertChildBeforeEnd => LastChildOfParagraph(Page());
    case InsertAfter => AfterParagraph(Page());
  }

  /** `対象Elementがない`: when `#description` is empty the selector finds nothing and the page is unchanged. */
  lemma NoTargetScenario()
    ensures ApplyAll(PageWith([]), [RuleFor("innerHTML")], Engine(), Parse) == PageWith([])
  {
    SearchReachesDescription([]);
    assert FirstMatch(PageWith([]), "#description > p", DescriptionParagraph) == None;
    assert [RuleFor("innerHTML")][1..] == [];
  }

  /**
   * A rule whose selector is empty, ahead of a rule that would match: the
   * lookup throws on the first rule, the `forEach` stops, and the page is
   * left as it was.
   */
  lemma EmptySelectorScenario()
    ensures ApplyAll(Page(), [Rule("", Fragment, "innerHTML"), RuleFor("innerHTML")], Engine(), Parse) == Page()
  {
    assert !Engine().parses("");
  }

  /** The constructor tests: without a `token` query parameter, and with `token=querytoken`. */
  lemma ConstructorScenarios()
    ensures SelectEndpoint("token", Some("http://localhost:3000"), None)
         == Endpoint("http://localhost:3000/contents", "token")
    ensures SelectEndpoint("token", Some("http://localhost:3000"), Some("querytoken"))
         == Endpoint("http://localhost:3000/contents/limited", "querytoken")
  {
  }

  /** The reply of the fetch test holds no entries: whatever the path, no key can throw and no rule is kept. */
  lemma EmptyReply(path: string, paths: PathMatching.PathEngine)
    ensures PathMatching.ExtractOrThrow([], path, paths) == Some([])
  {
  }

  /** The fetch test: after a reply with no contents the client holds no rules. */
  method FetchingScenario(client: AttachmentCms.AttachmentCMS, path: string, paths: PathMatching.PathEngine)
    modifies client
    ensures client.contents == []
  {
    EmptyReply(path, paths);
    var request, fetched := client.FetchContents([], path, paths);
    assert fetched;
  }
}
