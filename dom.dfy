/**
 * The part of the browser document the client edits: the element tree
 * below `<html>`, `querySelector`, and the three DOM operations
 * `applyContents` uses (the `innerHTML` setter, `removeChild` and
 * `insertAdjacentHTML`).
 *
 * The tree is a value, the list of the children of `<html>`; an element
 * is addressed by its path of child indexes from the top of that list. A path splits the tree into the list
 * of the element's siblings and the context around that list (the chain
 * of ancestors, each with the siblings before and after it); every edit
 * below replaces one sibling list and keeps the context.
 */
module Dom {
  import opened Wrappers

  datatype Node =
    | Element(tag: string, attrs: map<string, string>, children: seq<Node>)
    | Text(data: string)

  /** Child indexes from the top-level list down to one node. */
  type Path = seq<nat>

  /** `p` leads from the list `f`, through elements only, to an element. */
  predicate IsElementAt(f: seq<Node>, p: Path)
    decreases |p|
  {
    |p| > 0 && p[0] < |f| && f[p[0]].Element? &&
    (|p| > 1 ==> IsElementAt(f[p[0]].children, p[1..]))
  }

  function Last(p: Path): nat
    requires |p| > 0
  {
    p[|p| - 1]
  }

  /** The path of the parent element (empty for a top-level element). */
  function Parent(p: Path): Path
    requires |p| > 0
  {
    p[..|p| - 1]
  }

  function NodeAt(f: seq<Node>, p: Path): (n: Node)
    requires IsElementAt(f, p)
    ensures n.Element?
    decreases |p|
  {
    if |p| == 1 then f[p[0]] else NodeAt(f[p[0]].children, p[1..])
  }

  /** The list that holds the node at `p`: its parent's children, or `f` at the top. */
  function SiblingsAt(f: seq<Node>, p: Path): (s: seq<Node>)
    requires IsElementAt(f, p)
    ensures Last(p) < |s| && s[Last(p)] == NodeAt(f, p)
    decreases |p|
  {
    if |p| == 1 then f else SiblingsAt(f[p[0]].children, p[1..])
  }

  /** One ancestor with a hole where the path continues: its siblings before and after, its tag and attributes. */
  datatype Frame = Frame(before: seq<Node>, tag: string, attrs: map<string, string>, after: seq<Node>)

  /** Fills the hole of a context with a sibling list, giving back a whole tree. */
  function Plug(ctx: seq<Frame>, hole: seq<Node>): seq<Node>
    decreases |ctx|
  {
    if ctx == [] then hole
    else ctx[0].before + [Element(ctx[0].tag, ctx[0].attrs, Plug(ctx[1..], hole))] + ctx[0].after
  }

  /** The path from the top to the hole of a context. */
  function HolePath(ctx: seq<Frame>): Path {
    seq(|ctx|, k requires 0 <= k < |ctx| => |ctx[k].before|)
  }

  /** The context around the sibling list of the node at `p`. */
  function ContextAt(f: seq<Node>, p: Path): (ctx: seq<Frame>)
    requires IsElementAt(f, p)
    ensures HolePath(ctx) == Parent(p)
    decreases |p|
  {
    if |p| == 1 then []
    else
      var n := f[p[0]];
      var rest := ContextAt(n.children, p[1..]);
      assert HolePath([Frame(f[..p[0]], n.tag, n.attrs, f[p[0] + 1..])] + rest) == [p[0]] + HolePath(rest);
      [Frame(f[..p[0]], n.tag, n.attrs, f[p[0] + 1..])] + rest
  }

  /** A path splits a tree into context and sibling list, and plugging them back gives the tree. */
  lemma {:induction false} Decompose(f: seq<Node>, p: Path)
    requires IsElementAt(f, p)
    ensures Plug(ContextAt(f, p), SiblingsAt(f, p)) == f
    decreases |p|
  {
    if |p| > 1 {
      var k, n := p[0], f[p[0]];
      Decompose(n.children, p[1..]);
      var ctx := ContextAt(f, p);
      assert ctx[1..] == ContextAt(n.children, p[1..]);
      assert f == f[..k] + [n] + f[k + 1..];
    }
  }

  /**
   * Plugging a sibling list into a context puts its `i`-th element at the
   * hole's path followed by `i`, in that same context and list.
   */
  lemma {:induction false} PlugFocus(ctx: seq<Frame>, s: seq<Node>, i: nat)
    requires i < |s| && s[i].Element?
    ensures IsElementAt(Plug(ctx, s), HolePath(ctx) + [i])
    ensures ContextAt(Plug(ctx, s), HolePath(ctx) + [i]) == ctx
    ensures SiblingsAt(Plug(ctx, s), HolePath(ctx) + [i]) == s
    decreases |ctx|
  {
    var q := HolePath(ctx) + [i];
    if ctx != [] {
      var fr, f := ctx[0], Plug(ctx, s);
      var inner := Plug(ctx[1..], s);
      PlugFocus(ctx[1..], s, i);
      assert HolePath(ctx) == [|fr.before|] + HolePath(ctx[1..]);
      assert q[0] == |fr.before| && q[1..] == HolePath(ctx[1..]) + [i];
      assert f[q[0]] == Element(fr.tag, fr.attrs, inner);
      assert f[..q[0]] == fr.before && f[q[0] + 1..] == fr.after;
    }
  }

  /** Replaces the sibling list of the node at `p`, walking down the path as the browser does. */
  function ReplaceSiblings(f: seq<Node>, p: Path, s: seq<Node>): (r: seq<Node>)
    requires IsElementAt(f, p)
    ensures r == Plug(ContextAt(f, p), s)
    decreases |p|
  {
    if |p| == 1 then s
    else
      var k, n := p[0], f[p[0]];
      var m := Element(n.tag, n.attrs, ReplaceSiblings(n.children, p[1..], s));
      assert f[k := m] == f[..k] + [m] + f[k + 1..];
      f[k := m]
  }

  /**
   * After the sibling list of `p` is replaced by `s`, the `i`-th node of `s`
   * (an element) is found under the same parent, at index `i`, in the same
   * context: the rest of the tree did not change.
   */
  lemma ReplaceFocus(f: seq<Node>, p: Path, s: seq<Node>, i: nat)
    requires IsElementAt(f, p) && i < |s| && s[i].Element?
    ensures IsElementAt(ReplaceSiblings(f, p, s), Parent(p) + [i])
    ensures ContextAt(ReplaceSiblings(f, p, s), Parent(p) + [i]) == ContextAt(f, p)
    ensures SiblingsAt(ReplaceSiblings(f, p, s), Parent(p) + [i]) == s
  {
    PlugFocus(ContextAt(f, p), s, i);
  }

  // Sibling-list edits.

  /** The list without its `i`-th node; the others keep their order. */
  function RemoveAt(s: seq<Node>, i: nat): (r: seq<Node>)
    requires i < |s|
    ensures |r| == |s| - 1
    ensures forall j :: 0 <= j < |r| ==> r[j] == if j < i then s[j] else s[j + 1]
  {
    s[..i] + s[i + 1..]
  }

  /** The list with `frag` placed so that it starts at index `i`. */
  function InsertAt(s: seq<Node>, i: nat, frag: seq<Node>): (r: seq<Node>)
    requires i <= |s|
    ensures |r| == |s| + |frag|
    ensures r[i..i + |frag|] == frag
    ensures forall j :: 0 <= j < i ==> r[j] == s[j]
    ensures forall j :: i <= j < |s| ==> r[j + |frag|] == s[j]
  {
    s[..i] + frag + s[i..]
  }

  /** Removing the fragment that was inserted gives back the original list. */
  lemma InsertThenCut(s: seq<Node>, i: nat, frag: seq<Node>)
    requires i <= |s|
    ensures InsertAt(s, i, frag)[..i] + InsertAt(s, i, frag)[i + |frag|..] == s
  {
    var r := InsertAt(s, i, frag);
    assert r[..i] == s[..i];
    assert r[i + |frag|..] == s[i..];
  }

  /** Putting a removed node back where it was gives back the original list. */
  lemma RemoveThenInsert(s: seq<Node>, i: nat)
    requires i < |s|
    ensures InsertAt(RemoveAt(s, i), i, [s[i]]) == s
  {
    var r := RemoveAt(s, i);
    assert r[..i] == s[..i];
    assert r[i..] == s[i + 1..];
    assert s == s[..i] + [s[i]] + s[i + 1..];
  }

  /** An element with its children replaced, tag and attributes kept. */
  function WithChildren(n: Node, c: seq<Node>): Node
    requires n.Element?
  {
    Element(n.tag, n.attrs, c)
  }

  // The DOM operations.

  /** `el.innerHTML = html`: the element keeps its place, tag and attributes, and its children become the parsed fragment. */
  function ReplaceChildren(f: seq<Node>, p: Path, frag: seq<Node>): (r: seq<Node>)
    requires IsElementAt(f, p)
    ensures IsElementAt(r, p) && ContextAt(r, p) == ContextAt(f, p)
    ensures NodeAt(r, p) == WithChildren(NodeAt(f, p), frag)
    ensures SiblingsAt(r, p) == SiblingsAt(f, p)[Last(p) := NodeAt(r, p)]
  {
    var s := SiblingsAt(f, p);
    var s' := s[Last(p) := WithChildren(NodeAt(f, p), frag)];
    ReplaceFocus(f, p, s', Last(p));
    assert Parent(p) + [Last(p)] == p;
    ReplaceSiblings(f, p, s')
  }

  /** `el.parentNode.removeChild(el)`: the element leaves its parent's list, which otherwise keeps its order, and nothing else changes. */
  function Detach(f: seq<Node>, p: Path): (r: seq<Node>)
    requires IsElementAt(f, p)
    ensures r == Plug(ContextAt(f, p), RemoveAt(SiblingsAt(f, p), Last(p)))
  {
    ReplaceSiblings(f, p, RemoveAt(SiblingsAt(f, p), Last(p)))
  }

  /**
   * Puts `frag` into the sibling list of the node at `p`, starting at index
   * `at`. The node stays the same element in the same context, shifted by
   * the fragment's length when the fragment lands before it.
   */
  function InsertSiblings(f: seq<Node>, p: Path, at: nat, frag: seq<Node>): (r: seq<Node>)
    requires IsElementAt(f, p) && at <= |SiblingsAt(f, p)|
    ensures var q := Parent(p) + [if at <= Last(p) then Last(p) + |frag| else Last(p)];
      IsElementAt(r, q) && NodeAt(r, q) == NodeAt(f, p) && ContextAt(r, q) == ContextAt(f, p) &&
      SiblingsAt(r, q) == InsertAt(SiblingsAt(f, p), at, frag)
  {
    var s, i := SiblingsAt(f, p), Last(p);
    var s' := InsertAt(s, at, frag);
    var j := if at <= i then i + |frag| else i;
    assert s'[j] == s[i];
    ReplaceFocus(f, p, s', j);
    ReplaceSiblings(f, p, s')
  }

  /** The four places `insertAdjacentHTML` accepts. */
  datatype Position = BeforeBegin | AfterBegin | BeforeEnd | AfterEnd

  /**
   * `el.insertAdjacentHTML(position, html)`: the fragment goes right before
   * the element, at the start of its children, at their end, or right after
   * it. The element stays in the same context; nothing else changes.
   */
  function InsertAdjacent(f: seq<Node>, p: Path, pos: Position, frag: seq<Node>): (r: seq<Node>)
    requires IsElementAt(f, p)
    ensures pos == BeforeBegin ==>
      var q := Parent(p) + [Last(p) + |frag|];
      IsElementAt(r, q) && NodeAt(r, q) == NodeAt(f, p) && ContextAt(r, q) == ContextAt(f, p) &&
      SiblingsAt(r, q) == InsertAt(SiblingsAt(f, p), Last(p), frag)
    ensures pos == AfterEnd ==>
      IsElementAt(r, p) && NodeAt(r, p) == NodeAt(f, p) && ContextAt(r, p) == ContextAt(f, p) &&
      SiblingsAt(r, p) == InsertAt(SiblingsAt(f, p), Last(p) + 1, frag)
    ensures pos == AfterBegin ==>
      IsElementAt(r, p) && ContextAt(r, p) == ContextAt(f, p) &&
      NodeAt(r, p) == WithChildren(NodeAt(f, p), frag + NodeAt(f, p).children) &&
      SiblingsAt(r, p) == SiblingsAt(f, p)[Last(p) := NodeAt(r, p)]
    ensures pos == BeforeEnd ==>
      IsElementAt(r, p) && ContextAt(r, p) == ContextAt(f, p) &&
      NodeAt(r, p) == WithChildren(NodeAt(f, p), NodeAt(f, p).children + frag) &&
      SiblingsAt(r, p) == SiblingsAt(f, p)[Last(p) := NodeAt(r, p)]
  {
    assert Parent(p) + [Last(p)] == p;
    match pos
    case BeforeBegin => InsertSiblings(f, p, Last(p), frag)
    case AfterEnd => InsertSiblings(f, p, Last(p) + 1, frag)
    case AfterBegin => ReplaceChildren(f, p, frag + NodeAt(f, p).children)
    case BeforeEnd => ReplaceChildren(f, p, NodeAt(f, p).children + frag)
  }

  // `document.querySelector`.

  /**
   * Whether the element at a path of the whole tree satisfies a CSS
   * selector. The matcher sees the whole tree, so a selector may depend on
   * the element's ancestors, siblings and position.
   */
  type Matcher = (string, seq<Node>, Path) -> bool

  /**
   * The browser's selector engine, which is not part of this model: which
   * selector strings parse (`querySelector` throws a `SyntaxError` on any
   * other), and which elements a selector matches.
   */
  datatype Selectors = Selectors(parses: string -> bool, matches: Matcher)

  /** Document order: `q` comes before `r` when it is an ancestor of `r` or lies in an earlier sibling's subtree. */
  predicate Before(q: Path, r: Path)
    decreases |q|
  {
    |q| > 0 && |r| > 0 &&
    (q[0] < r[0] || (q[0] == r[0] && if |q| == 1 then |r| > 1 else Before(q[1..], r[1..])))
  }

  /** A path below `f[q[0]]`, seen from the children of that node. */
  lemma PathBelow(prefix: Path, q: Path)
    requires |q| > 1
    ensures prefix + q == (prefix + [q[0]]) + q[1..]
  {
  }

  /**
   * The first element, in document order, among the nodes of `f` from index
   * `from` on and their descendants, that satisfies the selector. `f` is the
   * list found at `prefix` in the whole tree `root`, so the node at `q` in
   * `f` is the node at `prefix + q` in `root`.
   */
  function FirstMatchFrom(root: seq<Node>, prefix: Path, f: seq<Node>, from: nat, selector: string, matcher: Matcher): (r: Option<Path>)
    requires from <= |f|
    ensures r.Some? ==> IsElementAt(f, r.value) && r.value[0] >= from && matcher(selector, root, prefix + r.value)
    ensures r.Some? ==> forall q :: IsElementAt(f, q) && q[0] >= from && Before(q, r.value) ==> !matcher(selector, root, prefix + q)
    ensures r.None? ==> forall q :: IsElementAt(f, q) && q[0] >= from ==> !matcher(selector, root, prefix + q)
    decreases f, |f| - from
  {
    if from == |f| then None
    else
      var n := f[from];
      if n.Text? then FirstMatchFrom(root, prefix, f, from + 1, selector, matcher)
      else if matcher(selector, root, prefix + [from]) then Some([from])
      else
        var inner := FirstMatchFrom(root, prefix + [from], n.children, 0, selector, matcher);
        var later := FirstMatchFrom(root, prefix, f, from + 1, selector, matcher);
        match inner
        case Some(q) =>
          assert IsElementAt(f, [from] + q) by { assert ([from] + q)[1..] == q; }
          var path := [from] + q;
          assert path[0] == from && path[1..] == q;
          assert forall q' :: IsElementAt(f, q') && q'[0] >= from && Before(q', path) ==> !matcher(selector, root, prefix + q') by {
            forall q' | IsElementAt(f, q') && q'[0] >= from && Before(q', path)
              ensures !matcher(selector, root, prefix + q')
            {
              if |q'| > 1 {
                assert Before(q'[1..], q);
                PathBelow(prefix, q');
                assert IsElementAt(n.children, q'[1..]);
              } else {
                assert q' == [from];
              }
            }
          }
          assert prefix + path == (prefix + [from]) + q;
          Some(path)
        case None =>
          assert forall q :: IsElementAt(f, q) && q[0] == from ==> !matcher(selector, root, prefix + q) by {
            forall q | IsElementAt(f, q) && q[0] == from
              ensures !matcher(selector, root, prefix + q)
            {
              if |q| > 1 {
                PathBelow(prefix, q);
                assert IsElementAt(n.children, q[1..]);
              } else {
                assert q == [from];
              }
            }
          }
          later
  }

  /**
   * The search looks inside an element that does not match before moving on
   * to its later siblings: a match among its descendants is the answer.
   */
  lemma FirstMatchDescends(root: seq<Node>, prefix: Path, f: seq<Node>, from: nat, selector: string, matcher: Matcher, q: Path)
    requires from < |f| && f[from].Element? && !matcher(selector, root, prefix + [from])
    requires FirstMatchFrom(root, prefix + [from], f[from].children, 0, selector, matcher) == Some(q)
    ensures FirstMatchFrom(root, prefix, f, from, selector, matcher) == Some([from] + q)
  {
  }

  /** A node that neither matches nor holds a match is passed over. */
  lemma FirstMatchSkips(root: seq<Node>, prefix: Path, f: seq<Node>, from: nat, selector: string, matcher: Matcher)
    requires from < |f|
    requires f[from].Element? ==>
      !matcher(selector, root, prefix + [from]) && FirstMatchFrom(root, prefix + [from], f[from].children, 0, selector, matcher) == None
    ensures FirstMatchFrom(root, prefix, f, from, selector, matcher) == FirstMatchFrom(root, prefix, f, from + 1, selector, matcher)
  {
  }

  /** `document.querySelector(selector)` with a selector that parses: the first matching element in document order, if any. */
  function FirstMatch(tree: seq<Node>, selector: string, matcher: Matcher): (r: Option<Path>)
    ensures r.Some? ==> IsElementAt(tree, r.value) && matcher(selector, tree, r.value)
    ensures r.Some? ==> forall q :: IsElementAt(tree, q) && Before(q, r.value) ==> !matcher(selector, tree, q)
    ensures r.None? <==> forall q :: IsElementAt(tree, q) ==> !matcher(selector, tree, q)
  {
    var r := FirstMatchFrom(tree, [], tree, 0, selector, matcher);
    assert forall q: Path :: [] + q == q;
    r
  }

  /**
   * The page's document. `tree` is the list of the children of the
   * document element `<html>`: `<head>` and `<body>`. The methods are the
   * DOM calls the client makes, each proved against the function above
   * that gives its meaning.
   */
  class Document {
    var tree: seq<Node>

    constructor (tree: seq<Node>)
      ensures this.tree == tree
    {
      this.tree := tree;
    }

    /**
     * `document.querySelector(selector)`: throws (`threw`) when the selector
     * does not parse, and otherwise returns the first match in document
     * order.
     */
    method QuerySelector(selector: string, engine: Selectors) returns (el: Option<Path>, threw: bool)
      ensures threw <==> !engine.parses(selector)
      ensures threw ==> el == None
      ensures !threw ==> el == FirstMatch(tree, selector, engine.matches)
    {
      if !engine.parses(selector) {
        return None, true;
      }
      el := FirstMatchFrom(tree, [], tree, 0, selector, engine.matches);
      threw := false;
    }

    /** `el.innerHTML = html`, with `parse` reading the HTML into nodes. */
    method SetInnerHTML(el: Path, html: string, parse: string -> seq<Node>)
      requires IsElementAt(tree, el)
      modifies this
      ensures tree == ReplaceChildren(old(tree), el, parse(html))
    {
      tree := ReplaceChildren(tree, el, parse(html));
    }

    /** `el.parentNode.removeChild(el)`. */
    method RemoveChild(el: Path)
      requires IsElementAt(tree, el)
      modifies this
      ensures tree == Detach(old(tree), el)
    {
      tree := Detach(tree, el);
    }

    /** `el.insertAdjacentHTML(position, html)`. */
    method InsertAdjacentHTML(el: Path, position: Position, html: string, parse: string -> seq<Node>)
      requires IsElementAt(tree, el)
      modifies this
      ensures tree == InsertAdjacent(old(tree), el, position, parse(html))
    {
      tree := InsertAdjacent(tree, el, position, parse(html));
    }
  }
}
