/**
 * The `AttachmentCMS` client object: it picks its endpoint and token when
 * constructed, keeps the rules that match the current path after the
 * fetch, and applies them to the document.
 *
 * What the browser supplies is passed in: the page's `token` query
 * parameter, its path, the service's reply, the regular-expression engine,
 * the document, the selector engine and the HTML parser.
 */
module AttachmentCms {
  import opened Wrappers
  import opened Contents
  import opened Endpoints
  import opened PathMatching
  import opened Dom
  import opened Patch

  class AttachmentCMS {
    var url: string
    var token: string
    /** The rules for the current path; empty until the contents are fetched. */
    var contents: seq<Rule>

    /**
     * `new AttachmentCMS(token, baseUrl)` on a page whose query string has
     * `queryToken` as its `token` parameter (`None` when it has none).
     */
    constructor (token: string, baseUrl: Option<string>, queryToken: Option<string>)
      ensures Endpoint(url, this.token) == SelectEndpoint(token, baseUrl, queryToken)
      ensures contents == []
    {
      var e := SelectEndpoint(token, baseUrl, queryToken);
      this.url := e.url;
      this.token := e.token;
      contents := [];
    }

    /**
     * `fetchContents`: requests `url?token=token`; `response` stands for the
     * `contents` field of the reply and `pathname` for the page's path.
     * Returns the URL requested. When a key of the reply is not a valid
     * pattern the extraction throws (`fetched` false) and `contents` is not
     * assigned.
     */
    method FetchContents(response: ContentsPerPath, pathname: string, paths: PathEngine) returns (request: string, fetched: bool)
      modifies this`contents
      ensures request == RequestUrl(Endpoint(url, token))
      ensures fetched <==> ExtractOrThrow(response, pathname, paths).Some?
      ensures fetched ==> contents == ExtractMatchedContents(response, pathname, paths.matches)
      ensures !fetched ==> contents == old(contents)
    {
      request := url + "?token=" + token;
      var extracted := ExtractOrThrow(response, pathname, paths);
      if extracted.None? {
        return request, false;
      }
      contents := extracted.value;
      fetched := true;
    }

    /**
     * `applyContents`: every rule, in list order, against the document as
     * the earlier rules left it. A selector that does not parse throws out
     * of the `forEach`: `completed` is false and no later rule is applied.
     */
    method ApplyContents(doc: Document, engine: Selectors, parse: string -> seq<Node>) returns (completed: bool)
      modifies doc
      ensures completed <==> SelectorsParse(contents, engine)
      ensures doc.tree == ApplyAll(old(doc.tree), contents, engine, parse)
    {
      for i := 0 to |contents|
        invariant doc.tree == ApplyAll(old(doc.tree), contents[..i], engine, parse)
        invariant SelectorsParse(contents[..i], engine)
      {
        ApplyAllStep(old(doc.tree), contents, i, engine, parse);
        var ok := ApplyRuleTo(doc, contents[i], engine, parse);
        if !ok {
          return false;
        }
      }
      assert contents[..|contents|] == contents;
      completed := true;
    }

    /** The body of the `forEach` callback in `applyContents`, for one rule; `ok` is false when the lookup throws. */
    method ApplyRuleTo(doc: Document, r: Rule, engine: Selectors, parse: string -> seq<Node>) returns (ok: bool)
      modifies doc
      ensures ok <==> engine.parses(r.selector)
      ensures doc.tree == ApplyRule(old(doc.tree), r, engine, parse)
    {
      var el, threw := doc.QuerySelector(r.selector, engine);
      if threw {
        return false;
      }
      ok := true;
      if el.None? {
        return;
      }
      Perform(doc, el.value, r.action, r.content, parse);
    }

    /** The `switch` on the rule's action, on the element the selector found; an unknown action does nothing. */
    method Perform(doc: Document, p: Path, action: string, content: string, parse: string -> seq<Node>)
      requires IsElementAt(doc.tree, p)
      modifies doc
      ensures ParseAction(action).None? ==> doc.tree == old(doc.tree)
      ensures ParseAction(action).Some? ==> doc.tree == ApplyAction(old(doc.tree), p, ParseAction(action).value, parse(content))
    {
      match action
      case "innerHTML" => doc.SetInnerHTML(p, content, parse);
      case "remove" => doc.RemoveChild(p);
      case "insertBefore" => doc.InsertAdjacentHTML(p, BeforeBegin, content, parse);
      case "insertChildAfterBegin" => doc.InsertAdjacentHTML(p, AfterBegin, content, parse);
      case "insertChildBeforeEnd" => doc.InsertAdjacentHTML(p, BeforeEnd, content, parse);
      case "insertAfter" => doc.InsertAdjacentHTML(p, AfterEnd, content, parse);
      case _ =>
    }

    /**
     * `run` once the document has loaded: fetch, then apply. When the
     * extraction throws, `run` stops before touching the document; when a
     * selector throws (`completed` false) it never reaches the call that
     * installs the observer.
     */
    method Run(response: ContentsPerPath, pathname: string, paths: PathEngine,
               doc: Document, engine: Selectors, parse: string -> seq<Node>) returns (request: string, fetched: bool, completed: bool)
      modifies this`contents, doc
      ensures request == RequestUrl(Endpoint(url, token))
      ensures fetched <==> ExtractOrThrow(response, pathname, paths).Some?
      ensures fetched ==> contents == ExtractMatchedContents(response, pathname, paths.matches)
      ensures fetched ==> (completed <==> SelectorsParse(contents, engine))
      ensures fetched ==> doc.tree == ApplyAll(old(doc.tree), contents, engine, parse)
      ensures !fetched ==> contents == old(contents) && doc.tree == old(doc.tree) && !completed
    {
      request, fetched := FetchContents(response, pathname, paths);
      if !fetched {
        return request, false, false;
      }
      completed := ApplyContents(doc, engine, parse);
    }
  }
}
