/**
 * The rule-by-rule edit of `applyContents`: each rule's selector picks at
 * most one element, and the rule's action string says which DOM call to
 * make on it.
 */
module Patch {
  import opened Wrappers
  import opened Contents
  import opened Dom
  import opened DomSize

  /** The six actions the client knows. */
  datatype Action =
    | InnerHtml
    | Remove
    | InsertBefore
    | InsertChildAfterBegin
    | InsertChildBeforeEnd
    | InsertAfter

  /** The string a rule uses for each action. */
  function ActionName(a: Action): string {
    match a
    case InnerHtml => "innerHTML"
    case Remove => "remove"
    case InsertBefore => "insertBefore"
    case InsertChildAfterBegin => "insertChildAfterBegin"
    case InsertChildBeforeEnd => "insertChildBeforeEnd"
    case InsertAfter => "insertAfter"
  }

  /** The `switch` on a rule's action string: one of the six names, or none (the switch has no default). */
  function ParseAction(s: string): (r: Option<Action>)
    ensures r.Some? ==> ActionName(r.value) == s
    ensures r.None? ==> forall a :: ActionName(a) != s
  {
    if s == "innerHTML" then Some(InnerHtml)
    else if s == "remove" then Some(Remove)
    else if s == "insertBefore" then Some(InsertBefore)
    else if s == "insertChildAfterBegin" then Some(InsertChildAfterBegin)
    else if s == "insertChildBeforeEnd" then Some(InsertChildBeforeEnd)
    else if s == "insertAfter" then Some(InsertAfter)
    else None
  }

  /** Every action is recognised by its own name. */
  lemma ParseActionName(a: Action)
    ensures ParseAction(ActionName(a)) == Some(a)
  {
  }

  /** The DOM call each action makes on the element at `p`, with `frag` the parsed content. */
  function ApplyAction(f: seq<Node>, p: Path, a: Action, frag: seq<Node>): seq<Node>
    requires IsElementAt(f, p)
  {
    match a
    case InnerHtml => ReplaceChildren(f, p, frag)
    case Remove => Detach(f, p)
    case InsertBefore => InsertAdjacent(f, p, BeforeBegin, frag)
    case InsertChildAfterBegin => InsertAdjacent(f, p, AfterBegin, frag)
    case InsertChildBeforeEnd => InsertAdjacent(f, p, BeforeEnd, frag)
    case InsertAfter => InsertAdjacent(f, p, AfterEnd, frag)
  }

  /**
   * One turn of the `forEach`: look the selector up, and when an element is
   * found and the action is known, apply it with the parsed content.
   * A selector that does not parse (the lookup throws), a missing element
   * or an unknown action leaves the document as it was.
   */
  function ApplyRule(tree: seq<Node>, r: Rule, engine: Selectors, parse: string -> seq<Node>): (result: seq<Node>)
    ensures !engine.parses(r.selector) ==> result == tree
    ensures FirstMatch(tree, r.selector, engine.matches).None? ==> result == tree
    ensures ParseAction(r.action).None? ==> result == tree
  {
    if !engine.parses(r.selector) then tree
    else
      match FirstMatch(tree, r.selector, engine.matches)
      case None => tree
      case Some(p) =>
        match ParseAction(r.action)
        case None => tree
        case Some(a) => ApplyAction(tree, p, a, parse(r.content))
  }

  /** Every rule's selector parses, so no turn of the `forEach` throws. */
  predicate SelectorsParse(rules: seq<Rule>, engine: Selectors) {
    forall k :: 0 <= k < |rules| ==> engine.parses(rules[k].selector)
  }

  /** A list with one more rule parses exactly when the list and the rule's selector do. */
  lemma SelectorsParseSnoc(rules: seq<Rule>, r: Rule, engine: Selectors)
    ensures SelectorsParse(rules + [r], engine) <==> SelectorsParse(rules, engine) && engine.parses(r.selector)
  {
    if SelectorsParse(rules + [r], engine) {
      assert (rules + [r])[|rules|] == r;
      forall k | 0 <= k < |rules|
        ensures engine.parses(rules[k].selector)
      {
        assert (rules + [r])[k] == rules[k];
      }
    }
  }

  /**
   * The rules applied one after another, in list order, each to the
   * document the previous ones left. The first rule whose selector does not
   * parse throws out of the `forEach`: it and every later rule are not
   * applied.
   */
  function ApplyAll(tree: seq<Node>, rules: seq<Rule>, engine: Selectors, parse: string -> seq<Node>): seq<Node>
    decreases |rules|
  {
    if rules == [] then tree
    else if !engine.parses(rules[0].selector) then tree
    else ApplyAll(ApplyRule(tree, rules[0], engine, parse), rules[1..], engine, parse)
  }

  /**
   * Applying `a + b` is applying `a`, then `b` to the result, when no
   * selector of `a` throws; when one does, `b` is never reached.
   */
  lemma {:induction false} ApplyAllAppend(tree: seq<Node>, a: seq<Rule>, b: seq<Rule>, engine: Selectors, parse: string -> seq<Node>)
    ensures SelectorsParse(a, engine) ==>
      ApplyAll(tree, a + b, engine, parse) == ApplyAll(ApplyAll(tree, a, engine, parse), b, engine, parse)
    ensures !SelectorsParse(a, engine) ==>
      ApplyAll(tree, a + b, engine, parse) == ApplyAll(tree, a, engine, parse)
    decreases |a|
  {
    if a == [] {
      assert a + b == b;
    } else {
      assert (a + b)[0] == a[0];
      assert (a + b)[1..] == a[1..] + b;
      if engine.parses(a[0].selector) {
        ApplyAllAppend(ApplyRule(tree, a[0], engine, parse), a[1..], b, engine, parse);
        assert SelectorsParse(a, engine) <==> SelectorsParse(a[1..], engine) by {
          if SelectorsParse(a[1..], engine) {
            forall k | 0 <= k < |a|
              ensures engine.parses(a[k].selector)
            {
              if k > 0 {
                assert a[k] == a[1..][k - 1];
              }
            }
          }
        }
      }
    }
  }

  /**
   * A rule whose selector does not parse ends the edit: the document is
   * what the rules before it made of it, and no later rule is applied.
   */
  lemma AbortSkipsLaterRules(tree: seq<Node>, a: seq<Rule>, bad: Rule, b: seq<Rule>, engine: Selectors, parse: string -> seq<Node>)
    requires !engine.parses(bad.selector)
    ensures ApplyAll(tree, a + [bad] + b, engine, parse) == ApplyAll(tree, a, engine, parse)
  {
    assert a + [bad] + b == a + ([bad] + b);
    ApplyAllAppend(tree, a, [bad] + b, engine, parse);
    assert ([bad] + b)[0] == bad;
  }

  /**
   * One more turn of the `forEach`, after `i` turns that did not throw:
   * either the rule's selector parses and the turn applies the rule, or
   * the turn throws and the document stays as the first `i` rules left it.
   */
  lemma ApplyAllStep(tree: seq<Node>, rules: seq<Rule>, i: nat, engine: Selectors, parse: string -> seq<Node>)
    requires i < |rules| && SelectorsParse(rules[..i], engine)
    ensures engine.parses(rules[i].selector) ==>
      SelectorsParse(rules[..i + 1], engine) &&
      ApplyAll(tree, rules[..i + 1], engine, parse) == ApplyRule(ApplyAll(tree, rules[..i], engine, parse), rules[i], engine, parse)
    ensures !engine.parses(rules[i].selector) ==>
      !SelectorsParse(rules, engine) && ApplyAll(tree, rules, engine, parse) == ApplyAll(tree, rules[..i], engine, parse)
  {
    if engine.parses(rules[i].selector) {
      assert rules[..i + 1] == rules[..i] + [rules[i]];
      SelectorsParseSnoc(rules[..i], rules[i], engine);
      ApplyAllAppend(tree, rules[..i], [rules[i]], engine, parse);
      assert [rules[i]][1..] == [];
    } else {
      AbortSkipsLaterRules(tree, rules[..i], rules[i], rules[i + 1..], engine, parse);
      assert rules[..i] + [rules[i]] + rules[i + 1..] == rules;
    }
  }

  /** A list of rules none of which names a known action changes nothing, whether or not a selector throws. */
  lemma {:induction false} UnknownActionsChangeNothing(tree: seq<Node>, rules: seq<Rule>, engine: Selectors, parse: string -> seq<Node>)
    requires forall k :: 0 <= k < |rules| ==> ParseAction(rules[k].action).None?
    ensures ApplyAll(tree, rules, engine, parse) == tree
    decreases |rules|
  {
    if rules != [] {
      UnknownActionsChangeNothing(tree, rules[1..], engine, parse);
    }
  }

  /**
   * What each action string does when the selector parses and finds an
   * element: the element's children are replaced, it leaves its parent's
   * list, or the fragment lands right before it, first among its children,
   * last among them, or right after it. In every case the rest of the
   * document (the context of the element's sibling list) is unchanged.
   */
  lemma ApplyRuleEffect(tree: seq<Node>, r: Rule, engine: Selectors, parse: string -> seq<Node>)
    requires engine.parses(r.selector) && FirstMatch(tree, r.selector, engine.matches).Some?
    ensures var p, frag, result := FirstMatch(tree, r.selector, engine.matches).value, parse(r.content), ApplyRule(tree, r, engine, parse);
      && (r.action == "innerHTML" ==>
            IsElementAt(result, p) && ContextAt(result, p) == ContextAt(tree, p) &&
            NodeAt(result, p) == WithChildren(NodeAt(tree, p), frag) &&
            SiblingsAt(result, p) == SiblingsAt(tree, p)[Last(p) := NodeAt(result, p)])
      && (r.action == "remove" ==>
            result == Plug(ContextAt(tree, p), RemoveAt(SiblingsAt(tree, p), Last(p))))
      && (r.action == "insertBefore" ==>
            var q := Parent(p) + [Last(p) + |frag|];
            IsElementAt(result, q) && NodeAt(result, q) == NodeAt(tree, p) && ContextAt(result, q) == ContextAt(tree, p) &&
            SiblingsAt(result, q) == InsertAt(SiblingsAt(tree, p), Last(p), frag))
      && (r.action == "insertChildAfterBegin" ==>
            IsElementAt(result, p) && ContextAt(result, p) == ContextAt(tree, p) &&
            NodeAt(result, p) == WithChildren(NodeAt(tree, p), frag + NodeAt(tree, p).children) &&
            SiblingsAt(result, p) == SiblingsAt(tree, p)[Last(p) := NodeAt(result, p)])
      && (r.action == "insertChildBeforeEnd" ==>
            IsElementAt(result, p) && ContextAt(result, p) == ContextAt(tree, p) &&
            NodeAt(result, p) == WithChildren(NodeAt(tree, p), NodeAt(tree, p).children + frag) &&
            SiblingsAt(result, p) == SiblingsAt(tree, p)[Last(p) := NodeAt(result, p)])
      && (r.action == "insertAfter" ==>
            IsElementAt(result, p) && NodeAt(result, p) == NodeAt(tree, p) && ContextAt(result, p) == ContextAt(tree, p) &&
            SiblingsAt(result, p) == InsertAt(SiblingsAt(tree, p), Last(p) + 1, frag))
  {
    var p, frag := FirstMatch(tree, r.selector, engine.matches).value, parse(r.content);
    match ParseAction(r.action)
    case None =>
    case Some(a) =>
      assert ApplyRule(tree, r, engine, parse) == ApplyAction(tree, p, a, frag);
      assert |r.action| == |ActionName(a)|;
  }

  /** The four action names that insert the content next to or inside the element. */
  predicate IsInsertAction(action: string) {
    action == "insertBefore" || action == "insertChildAfterBegin" ||
    action == "insertChildBeforeEnd" || action == "insertAfter"
  }

  /** An insert rule whose selector finds an element adds exactly the nodes of its parsed content. */
  lemma InsertRuleAddsFragment(tree: seq<Node>, r: Rule, engine: Selectors, parse: string -> seq<Node>)
    requires engine.parses(r.selector) && FirstMatch(tree, r.selector, engine.matches).Some? && IsInsertAction(r.action)
    ensures Size(ApplyRule(tree, r, engine, parse)) == Size(tree) + Size(parse(r.content))
  {
    var p := FirstMatch(tree, r.selector, engine.matches).value;
    var a := ParseAction(r.action).value;
    var pos := match a
      case InsertBefore => BeforeBegin
      case InsertChildAfterBegin => AfterBegin
      case InsertChildBeforeEnd => BeforeEnd
      case _ => AfterEnd;
    InsertAdjacentSize(tree, p, pos, parse(r.content));
  }

  /**
   * Nothing marks a rule as already applied: when an insert rule's
   * selector still finds an element the second time, applying the rule
   * twice inserts its content twice.
   */
  lemma InsertRuleTwice(tree: seq<Node>, r: Rule, engine: Selectors, parse: string -> seq<Node>)
    requires IsInsertAction(r.action) && engine.parses(r.selector)
    requires FirstMatch(tree, r.selector, engine.matches).Some?
    requires FirstMatch(ApplyRule(tree, r, engine, parse), r.selector, engine.matches).Some?
    ensures Size(ApplyAll(tree, [r, r], engine, parse)) == Size(tree) + 2 * Size(parse(r.content))
  {
    var once := ApplyRule(tree, r, engine, parse);
    InsertRuleAddsFragment(tree, r, engine, parse);
    InsertRuleAddsFragment(once, r, engine, parse);
    assert [r, r][1..] == [r];
    assert ApplyAll(tree, [r, r], engine, parse) == ApplyAll(once, [r], engine, parse);
    assert ApplyAll(once, [r], engine, parse) == ApplyAll(ApplyRule(once, r, engine, parse), [], engine, parse);
  }
}
