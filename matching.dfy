/**
 * `extractMatchedContents`: keep the rule lists of every path pattern that
 * matches the current path, in key order, and concatenate them.
 */
module PathMatching {
  import opened Wrappers
  import opened Contents

  /** The rule table, one entry per path pattern, in the order of the object's keys. */
  type ContentsPerPath = seq<(string, seq<Rule>)>

  /**
   * Whether the current path (second argument) matches a path pattern
   * (first argument). In the client this is the regular expression
   * `^pattern$` with the `i` flag; the regular-expression engine is not
   * part of this model.
   */
  type PathMatcher = (string, string) -> bool

  /** The `filter` step: the entries whose pattern matches `path`, in their original order. */
  function MatchedEntries(data: ContentsPerPath, path: string, matches: PathMatcher): (r: ContentsPerPath)
    ensures forall e :: e in r <==> e in data && matches(e.0, path)
    ensures |r| <= |data|
  {
    if data == [] then []
    else
      assert forall e :: e in data <==> e == data[0] || e in data[1..];
      (if matches(data[0].0, path) then [data[0]] else []) + MatchedEntries(data[1..], path, matches)
  }

  /** The `map` step: each entry's rule list. */
  function RuleLists(entries: ContentsPerPath): seq<seq<Rule>> {
    seq(|entries|, k requires 0 <= k < |entries| => entries[k].1)
  }

  /** The `flat` step: the lists one after another. */
  function Flatten(lists: seq<seq<Rule>>): seq<Rule> {
    if lists == [] then [] else lists[0] + Flatten(lists[1..])
  }

  /** `extractMatchedContents(data)` with `path` for `window.location.pathname`. */
  function ExtractMatchedContents(data: ContentsPerPath, path: string, matches: PathMatcher): seq<Rule> {
    Flatten(RuleLists(MatchedEntries(data, path, matches)))
  }

  /**
   * The regular-expression engine, which is not part of this model: which
   * patterns `new RegExp('^' + pattern + '$', 'i')` accepts (it throws a
   * `SyntaxError` on any other, such as `*` or `/news/(`), and whether the
   * path matches a pattern it accepts.
   */
  datatype PathEngine = PathEngine(compiles: string -> bool, matches: PathMatcher)

  /**
   * The `filter` step as the client runs it: the regular expression is
   * built for every key in turn, and the first key that does not compile
   * throws out of the whole extraction (`None`), whether or not it would
   * have matched.
   */
  function FilterOrThrow(data: ContentsPerPath, path: string, engine: PathEngine): (r: Option<ContentsPerPath>)
    ensures r.None? <==> exists k :: 0 <= k < |data| && !engine.compiles(data[k].0)
    ensures r.Some? ==> r.value == MatchedEntries(data, path, engine.matches)
    decreases |data|
  {
    if data == [] then Some([])
    else if !engine.compiles(data[0].0) then None
    else
      match FilterOrThrow(data[1..], path, engine)
      case None =>
        var k :| 0 <= k < |data[1..]| && !engine.compiles(data[1..][k].0);
        assert data[k + 1] == data[1..][k];
        None
      case Some(rest) =>
        assert forall k :: 0 < k < |data| ==> data[k] == data[1..][k - 1];
        Some((if engine.matches(data[0].0, path) then [data[0]] else []) + rest)
  }

  /**
   * `extractMatchedContents` with its failure: `None` exactly when some key
   * of the table is not a valid pattern; otherwise the matched rule lists
   * concatenated in key order.
   */
  function ExtractOrThrow(data: ContentsPerPath, path: string, engine: PathEngine): (r: Option<seq<Rule>>)
    ensures r.None? <==> exists k :: 0 <= k < |data| && !engine.compiles(data[k].0)
    ensures r.Some? ==> r.value == ExtractMatchedContents(data, path, engine.matches)
  {
    match FilterOrThrow(data, path, engine)
    case None => None
    case Some(entries) => Some(Flatten(RuleLists(entries)))
  }

  /** The number of rules the entries before position `k` contribute. */
  function MatchedLength(data: ContentsPerPath, path: string, matches: PathMatcher, k: nat): nat
    requires k <= |data|
  {
    if k == 0 then 0
    else MatchedLength(data, path, matches, k - 1)
         + (if matches(data[k - 1].0, path) then |data[k - 1].1| else 0)
  }

  lemma {:induction false} FlattenAppend(a: seq<seq<Rule>>, b: seq<seq<Rule>>)
    ensures Flatten(a + b) == Flatten(a) + Flatten(b)
  {
    if a == [] {
      assert a + b == b;
    } else {
      assert (a + b)[0] == a[0];
      assert (a + b)[1..] == a[1..] + b;
      FlattenAppend(a[1..], b);
    }
  }

  lemma {:induction false} MatchedEntriesAppend(a: ContentsPerPath, b: ContentsPerPath, path: string, matches: PathMatcher)
    ensures MatchedEntries(a + b, path, matches) == MatchedEntries(a, path, matches) + MatchedEntries(b, path, matches)
  {
    if a == [] {
      assert a + b == b;
    } else {
      assert (a + b)[0] == a[0];
      assert (a + b)[1..] == a[1..] + b;
      MatchedEntriesAppend(a[1..], b, path, matches);
    }
  }

  lemma RuleListsAppend(x: ContentsPerPath, y: ContentsPerPath)
    ensures RuleLists(x + y) == RuleLists(x) + RuleLists(y)
  {
    assert forall k :: 0 <= k < |x + y| ==> RuleLists(x + y)[k] == (RuleLists(x) + RuleLists(y))[k];
  }

  /** Extraction distributes over splitting the table: later keys contribute after earlier ones. */
  lemma ExtractAppend(a: ContentsPerPath, b: ContentsPerPath, path: string, matches: PathMatcher)
    ensures ExtractMatchedContents(a + b, path, matches)
         == ExtractMatchedContents(a, path, matches) + ExtractMatchedContents(b, path, matches)
  {
    MatchedEntriesAppend(a, b, path, matches);
    var ea, eb := MatchedEntries(a, path, matches), MatchedEntries(b, path, matches);
    RuleListsAppend(ea, eb);
    FlattenAppend(RuleLists(ea), RuleLists(eb));
  }

  /** Adding one entry at the end appends its rule list exactly when its pattern matches. */
  lemma ExtractSnoc(data: ContentsPerPath, e: (string, seq<Rule>), path: string, matches: PathMatcher)
    ensures ExtractMatchedContents(data + [e], path, matches)
         == ExtractMatchedContents(data, path, matches) + (if matches(e.0, path) then e.1 else [])
  {
    ExtractAppend(data, [e], path, matches);
    var me := MatchedEntries([e], path, matches);
    assert me == (if matches(e.0, path) then [e] else []) + MatchedEntries([], path, matches);
    assert RuleLists(me) == if matches(e.0, path) then [e.1] else [];
    assert Flatten(RuleLists(me)) == if matches(e.0, path) then e.1 + Flatten([]) else [];
  }

  lemma {:induction false} MatchedLengthPrefix(data: ContentsPerPath, e: (string, seq<Rule>), path: string, matches: PathMatcher, k: nat)
    requires k <= |data|
    ensures MatchedLength(data + [e], path, matches, k) == MatchedLength(data, path, matches, k)
  {
    if k > 0 {
      assert (data + [e])[k - 1] == data[k - 1];
      MatchedLengthPrefix(data, e, path, matches, k - 1);
    }
  }

  /** The length of the result is the sum of the lengths of the matched lists. */
  lemma {:induction false} ExtractLength(data: ContentsPerPath, path: string, matches: PathMatcher)
    ensures |ExtractMatchedContents(data, path, matches)| == MatchedLength(data, path, matches, |data|)
    decreases |data|
  {
    if data == [] {
      assert MatchedEntries(data, path, matches) == [];
    } else {
      var n := |data| - 1;
      var init, e := data[..n], data[n];
      assert data == init + [e];
      ExtractLength(init, path, matches);
      ExtractSnoc(init, e, path, matches);
      MatchedLengthPrefix(init, e, path, matches, n);
    }
  }

  /**
   * The `j`-th rule of the `k`-th entry, when that entry's pattern matches,
   * sits in the result at the offset given by the matched lists before it.
   */
  lemma {:induction false} ExtractAt(data: ContentsPerPath, path: string, matches: PathMatcher, k: nat, j: nat)
    requires k < |data| && matches(data[k].0, path) && j < |data[k].1|
    ensures MatchedLength(data, path, matches, k) + j < |ExtractMatchedContents(data, path, matches)|
    ensures ExtractMatchedContents(data, path, matches)[MatchedLength(data, path, matches, k) + j] == data[k].1[j]
    decreases |data|
  {
    var n := |data| - 1;
    var init, e := data[..n], data[n];
    assert data == init + [e];
    var ri := ExtractMatchedContents(init, path, matches);
    var tail := if matches(e.0, path) then e.1 else [];
    ExtractSnoc(init, e, path, matches);
    MatchedLengthPrefix(init, e, path, matches, k);
    var i := MatchedLength(init, path, matches, k) + j;
    if k < n {
      assert data[k] == init[k];
      ExtractAt(init, path, matches, k, j);
      assert (ri + tail)[i] == ri[i];
    } else {
      ExtractLength(init, path, matches);
      assert tail == data[k].1 && i == |ri| + j;
      assert (ri + tail)[i] == tail[j];
    }
  }

  /**
   * Each matched list fits in the result at its offset: the matched lists
   * before it and the list itself are no longer than the result.
   */
  lemma ExtractFits(data: ContentsPerPath, path: string, matches: PathMatcher)
    ensures forall k :: 0 <= k < |data| && matches(data[k].0, path) ==>
      MatchedLength(data, path, matches, k) + |data[k].1| <= |ExtractMatchedContents(data, path, matches)|
  {
    ExtractLength(data, path, matches);
    forall k | 0 <= k < |data| && matches(data[k].0, path)
      ensures MatchedLength(data, path, matches, k) + |data[k].1| <= MatchedLength(data, path, matches, |data|)
    {
      MatchedListsInKeyOrder(data, path, matches, k, |data|);
    }
  }

  /**
   * The result is exactly the matched lists laid end to end in key order:
   * its length is the sum of the lengths of the matched lists, each matched
   * list fits at its offset, and every rule of a matched list sits at its
   * list's offset plus its own index.
   */
  lemma ExtractPlacement(data: ContentsPerPath, path: string, matches: PathMatcher)
    ensures |ExtractMatchedContents(data, path, matches)| == MatchedLength(data, path, matches, |data|)
    ensures forall k :: 0 <= k < |data| && matches(data[k].0, path) ==>
      MatchedLength(data, path, matches, k) + |data[k].1| <= |ExtractMatchedContents(data, path, matches)|
    ensures forall k, j :: 0 <= k < |data| && matches(data[k].0, path) && 0 <= j < |data[k].1| ==>
      ExtractMatchedContents(data, path, matches)[MatchedLength(data, path, matches, k) + j] == data[k].1[j]
  {
    ExtractLength(data, path, matches);
    ExtractFits(data, path, matches);
    var r := ExtractMatchedContents(data, path, matches);
    forall k, j | 0 <= k < |data| && matches(data[k].0, path) && 0 <= j < |data[k].1|
      ensures r[MatchedLength(data, path, matches, k) + j] == data[k].1[j]
    {
      ExtractAt(data, path, matches, k, j);
    }
  }

  /** Entries of the table keep their relative order in the result: every rule of an earlier matched entry comes before every rule of a later one. */
  lemma {:induction false} MatchedListsInKeyOrder(data: ContentsPerPath, path: string, matches: PathMatcher, k1: nat, k2: nat)
    requires k1 < k2 <= |data|
    requires matches(data[k1].0, path)
    ensures MatchedLength(data, path, matches, k1) + |data[k1].1| <= MatchedLength(data, path, matches, k2)
    decreases k2
  {
    if k2 > k1 + 1 {
      MatchedListsInKeyOrder(data, path, matches, k1, k2 - 1);
    }
  }

  lemma {:induction false} InFlatten(lists: seq<seq<Rule>>, x: Rule)
    ensures x in Flatten(lists) <==> exists l :: l in lists && x in l
  {
    if lists != [] {
      InFlatten(lists[1..], x);
      assert forall l :: l in lists <==> l == lists[0] || l in lists[1..];
    }
  }

  /** A rule is in the result exactly when it belongs to the list of some matching pattern. */
  lemma ExtractMembership(data: ContentsPerPath, path: string, matches: PathMatcher, x: Rule)
    ensures x in ExtractMatchedContents(data, path, matches) <==>
      exists k :: 0 <= k < |data| && matches(data[k].0, path) && x in data[k].1
  {
    var entries := MatchedEntries(data, path, matches);
    var lists := RuleLists(entries);
    InFlatten(lists, x);
    if x in ExtractMatchedContents(data, path, matches) {
      var l :| l in lists && x in l;
      var i :| 0 <= i < |lists| && lists[i] == l;
      assert entries[i] in entries;
      var k :| 0 <= k < |data| && data[k] == entries[i];
      assert matches(data[k].0, path) && x in data[k].1;
    }
    if exists k :: 0 <= k < |data| && matches(data[k].0, path) && x in data[k].1 {
      var k :| 0 <= k < |data| && matches(data[k].0, path) && x in data[k].1;
      assert data[k] in data;
      var i :| 0 <= i < |entries| && entries[i] == data[k];
      assert lists[i] in lists;
    }
  }

  /** The result is empty exactly when every matching pattern has an empty list; in particular when no pattern matches. */
  lemma ExtractEmptyIff(data: ContentsPerPath, path: string, matches: PathMatcher)
    ensures ExtractMatchedContents(data, path, matches) == [] <==>
      forall k :: 0 <= k < |data| && matches(data[k].0, path) ==> data[k].1 == []
  {
    var r := ExtractMatchedContents(data, path, matches);
    if r != [] {
      ExtractMembership(data, path, matches, r[0]);
    }
    if exists k :: 0 <= k < |data| && matches(data[k].0, path) && data[k].1 != [] {
      var k :| 0 <= k < |data| && matches(data[k].0, path) && data[k].1 != [];
      ExtractMembership(data, path, matches, data[k].1[0]);
    }
  }

  // Literal patterns, which is what the client's tests use: the regular
  // expression `^pattern$` with the `i` flag matches exactly the paths that
  // equal the pattern up to letter case.

  /** Case folding of the `i` flag, on ASCII letters. */
  function FoldAscii(c: char): char {
    if 'A' <= c <= 'Z' then (c as int + 32) as char else c
  }

  function Fold(s: string): seq<char> {
    seq(|s|, i requires 0 <= i < |s| => FoldAscii(s[i]))
  }

  /** Anchored, case-insensitive comparison of a literal pattern with a path. */
  predicate LiteralMatch(pattern: string, path: string) {
    Fold(pattern) == Fold(path)
  }

  /** The match is anchored at both ends: a literal pattern never matches a longer or shorter path, so neither a prefix nor a trailing slash is ignored. */
  lemma LiteralMatchAnchored(pattern: string, path: string)
    ensures LiteralMatch(pattern, path) ==> |pattern| == |path|
    ensures LiteralMatch(pattern, path) <==>
      |pattern| == |path| && forall i :: 0 <= i < |path| ==> FoldAscii(pattern[i]) == FoldAscii(path[i])
  {
    if |pattern| == |path| && forall i :: 0 <= i < |path| ==> FoldAscii(pattern[i]) == FoldAscii(path[i]) {
      assert Fold(pattern) == Fold(path);
    }
    if LiteralMatch(pattern, path) {
      assert |Fold(pattern)| == |pattern|;
      forall i | 0 <= i < |path| ensures FoldAscii(pattern[i]) == FoldAscii(path[i]) {
        assert Fold(pattern)[i] == Fold(path)[i];
      }
    }
  }

  /** Of the test table's patterns only `/news/15` matches the path `/news/15`, in either letter case. */
  lemma NewsPatterns()
    ensures !LiteralMatch("/news", "/news/15") && !LiteralMatch("/news/1", "/news/15")
    ensures !LiteralMatch("/news/20", "/news/15") && LiteralMatch("/news/15", "/news/15")
    ensures LiteralMatch("/NEWS/15", "/news/15")
  {
    assert Fold("/news/20")[6] != Fold("/news/15")[6];
    assert |Fold("/news")| == 5 && |Fold("/news/1")| == 7 && |Fold("/news/15")| == 8;
    assert Fold("/NEWS/15") == Fold("/news/15");
  }

  /**
   * The table of the client's tests, on path `/news/15`: only the `/news/15`
   * list is kept, whole and in order, whether it holds one rule or two.
   */
  lemma NewsExample(r0: Rule, rs: seq<Rule>)
    ensures ExtractMatchedContents(
      [("/news", [r0]), ("/news/1", [r0]), ("/news/15", rs), ("/news/20", [r0])], "/news/15", LiteralMatch) == rs
  {
    NewsPatterns();
    NewsPrefix(r0);
    var t2 := [("/news", [r0]), ("/news/1", [r0])];
    var t3 := t2 + [("/news/15", rs)];
    ExtractSnoc(t2, ("/news/15", rs), "/news/15", LiteralMatch);
    ExtractSnoc(t3, ("/news/20", [r0]), "/news/15", LiteralMatch);
    assert t3 + [("/news/20", [r0])] == [("/news", [r0]), ("/news/1", [r0]), ("/news/15", rs), ("/news/20", [r0])];
  }

  /** The first two entries of the test table contribute nothing on `/news/15`. */
  lemma NewsPrefix(r0: Rule)
    ensures ExtractMatchedContents([("/news", [r0]), ("/news/1", [r0])], "/news/15", LiteralMatch) == []
  {
    NewsPatterns();
    ExtractSnoc([("/news", [r0])], ("/news/1", [r0]), "/news/15", LiteralMatch);
    ExtractSnoc([], ("/news", [r0]), "/news/15", LiteralMatch);
    assert [] + [("/news", [r0])] == [("/news", [r0])];
    assert [("/news", [r0])] + [("/news/1", [r0])] == [("/news", [r0]), ("/news/1", [r0])];
    assert MatchedEntries([], "/news/15", LiteralMatch) == [];
  }

  /** With the `/news/15` key deleted, nothing in the test table matches `/news/15`. */
  lemma NewsDeleted(r0: Rule)
    ensures ExtractMatchedContents([("/news", [r0]), ("/news/1", [r0]), ("/news/20", [r0])], "/news/15", LiteralMatch) == []
  {
    NewsPatterns();
    NewsPrefix(r0);
    ExtractSnoc([("/news", [r0]), ("/news/1", [r0])], ("/news/20", [r0]), "/news/15", LiteralMatch);
    assert [("/news", [r0]), ("/news/1", [r0])] + [("/news/20", [r0])] == [("/news", [r0]), ("/news/1", [r0]), ("/news/20", [r0])];
  }

  /**
   * A pattern that starts with a quantifier gives `^*…`, `^+…` or `^?…`,
   * which the regular-expression engine refuses ("nothing to repeat"). The
   * test table's keys all start with `/`.
   */
  predicate StartsWithQuantifier(pattern: string) {
    |pattern| > 0 && (pattern[0] == '*' || pattern[0] == '+' || pattern[0] == '?')
  }

  predicate LiteralCompiles(pattern: string) {
    !StartsWithQuantifier(pattern)
  }

  function LiteralEngine(): PathEngine {
    PathEngine(LiteralCompiles, LiteralMatch)
  }

  /** The test table compiles, so the extraction that can throw gives the `/news/15` list. */
  lemma NewsExampleCompiles(r0: Rule, rs: seq<Rule>)
    ensures ExtractOrThrow(
      [("/news", [r0]), ("/news/1", [r0]), ("/news/15", rs), ("/news/20", [r0])], "/news/15", LiteralEngine()) == Some(rs)
  {
    NewsExample(r0, rs);
  }

  /**
   * A glob-style key `*` ahead of the matching key: building its regular
   * expression throws, and the extraction gives nothing at all, although
   * `*` would never have matched.
   */
  lemma GlobKeyAborts(r0: Rule, rs: seq<Rule>)
    ensures ExtractOrThrow([("*", [r0]), ("/news/15", rs)], "/news/15", LiteralEngine()) == None
  {
    assert !LiteralEngine().compiles([("*", [r0]), ("/news/15", rs)][0].0);
  }
}
