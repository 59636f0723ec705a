/**
 * How many nodes each DOM operation adds or takes away. Nothing in the
 * client guards against applying a rule twice, so these counts say what a
 * repeated application does.
 */
module DomSize {
  import opened Dom

  /** The number of nodes in a list of trees, descendants included. */
  function Size(f: seq<Node>): nat
    decreases f
  {
    if f == [] then 0
    else (if f[0].Element? then 1 + Size(f[0].children) else 1) + Size(f[1..])
  }

  /** The number of nodes a context contributes around its hole. */
  function ContextSize(ctx: seq<Frame>): nat
    decreases |ctx|
  {
    if ctx == [] then 0
    else Size(ctx[0].before) + 1 + Size(ctx[0].after) + ContextSize(ctx[1..])
  }

  lemma {:induction false} SizeAppend(a: seq<Node>, b: seq<Node>)
    ensures Size(a + b) == Size(a) + Size(b)
    decreases |a|
  {
    if a == [] {
      assert a + b == b;
    } else {
      assert (a + b)[0] == a[0];
      assert (a + b)[1..] == a[1..] + b;
      SizeAppend(a[1..], b);
    }
  }

  /** A tree is its context around the hole plus the list in the hole. */
  lemma {:induction false} SizePlug(ctx: seq<Frame>, s: seq<Node>)
    ensures Size(Plug(ctx, s)) == ContextSize(ctx) + Size(s)
    decreases |ctx|
  {
    if ctx != [] {
      var fr := ctx[0];
      var e := Element(fr.tag, fr.attrs, Plug(ctx[1..], s));
      SizePlug(ctx[1..], s);
      SizeAppend(fr.before + [e], fr.after);
      SizeAppend(fr.before, [e]);
      assert Size([e]) == 1 + Size(e.children) + Size([]);
    }
  }

  /** Replacing one node of a list changes the count by the difference of the two subtrees. */
  lemma SizeUpdate(s: seq<Node>, i: nat, m: Node)
    requires i < |s|
    ensures Size(s[i := m]) + Size([s[i]]) == Size(s) + Size([m])
  {
    assert s == s[..i] + [s[i]] + s[i + 1..];
    assert s[i := m] == s[..i] + [m] + s[i + 1..];
    SizeAppend(s[..i] + [s[i]], s[i + 1..]);
    SizeAppend(s[..i], [s[i]]);
    SizeAppend(s[..i] + [m], s[i + 1..]);
    SizeAppend(s[..i], [m]);
  }

  /** Splicing a fragment into a list adds the fragment's nodes. */
  lemma InsertAtSize(s: seq<Node>, i: nat, frag: seq<Node>)
    requires i <= |s|
    ensures Size(InsertAt(s, i, frag)) == Size(s) + Size(frag)
  {
    var a, b := s[..i], s[i..];
    assert s == a + b;
    SizeAppend(a + frag, b);
    SizeAppend(a, frag);
    SizeAppend(a, b);
  }

  /** Growing one element's children grows the tree by as much. */
  lemma WithChildrenSize(s: seq<Node>, i: nat, n: Node, children: seq<Node>)
    requires i < |s| && s[i] == n && n.Element?
    ensures Size(s[i := WithChildren(n, children)]) + Size(n.children) == Size(s) + Size(children)
  {
    var m := WithChildren(n, children);
    SizeUpdate(s, i, m);
    assert Size([m]) == 1 + Size(children) + Size([]);
    assert Size([n]) == 1 + Size(n.children) + Size([]);
  }

  /** Every `insertAdjacentHTML` adds exactly the fragment's nodes. */
  lemma InsertAdjacentSize(f: seq<Node>, p: Path, pos: Position, frag: seq<Node>)
    requires IsElementAt(f, p)
    ensures Size(InsertAdjacent(f, p, pos, frag)) == Size(f) + Size(frag)
  {
    var ctx, s, i, n := ContextAt(f, p), SiblingsAt(f, p), Last(p), NodeAt(f, p);
    Decompose(f, p);
    SizePlug(ctx, s);
    match pos
    case BeforeBegin =>
      SizePlug(ctx, InsertAt(s, i, frag));
      InsertAtSize(s, i, frag);
    case AfterEnd =>
      SizePlug(ctx, InsertAt(s, i + 1, frag));
      InsertAtSize(s, i + 1, frag);
    case AfterBegin =>
      SizePlug(ctx, s[i := WithChildren(n, frag + n.children)]);
      WithChildrenSize(s, i, n, frag + n.children);
      SizeAppend(frag, n.children);
    case BeforeEnd =>
      SizePlug(ctx, s[i := WithChildren(n, n.children + frag)]);
      WithChildrenSize(s, i, n, n.children + frag);
      SizeAppend(n.children, frag);
  }

  lemma SizeSplit(s: seq<Node>, i: nat)
    requires i < |s|
    ensures Size(s[..i] + s[i + 1..]) + Size([s[i]]) == Size(s)
  {
    var a, rest, b := s[..i], s[i..], s[i + 1..];
    assert s == a + rest;
    assert rest == [s[i]] + b;
    SizeAppend(a, rest);
    SizeAppend([s[i]], b);
    SizeAppend(a, b);
  }

  /** Cutting one node out of a list takes away that node's subtree. */
  lemma RemoveAtSize(s: seq<Node>, i: nat)
    requires i < |s|
    ensures Size(RemoveAt(s, i)) + Size([s[i]]) == Size(s)
  {
    SizeSplit(s, i);
  }

  /** `removeChild` takes away the element and all its descendants. */
  lemma DetachSize(f: seq<Node>, p: Path)
    requires IsElementAt(f, p)
    ensures Size(Detach(f, p)) + Size([NodeAt(f, p)]) == Size(f)
  {
    var ctx, s, i := ContextAt(f, p), SiblingsAt(f, p), Last(p);
    Decompose(f, p);
    SizePlug(ctx, s);
    SizePlug(ctx, RemoveAt(s, i));
    RemoveAtSize(s, i);
  }

  /** Setting `innerHTML` trades the element's old descendants for the fragment. */
  lemma ReplaceChildrenSize(f: seq<Node>, p: Path, frag: seq<Node>)
    requires IsElementAt(f, p)
    ensures Size(ReplaceChildren(f, p, frag)) + Size(NodeAt(f, p).children) == Size(f) + Size(frag)
  {
    var ctx, s, i, n := ContextAt(f, p), SiblingsAt(f, p), Last(p), NodeAt(f, p);
    Decompose(f, p);
    SizePlug(ctx, s);
    var m := WithChildren(n, frag);
    SizePlug(ctx, s[i := m]);
    SizeUpdate(s, i, m);
  }
}
