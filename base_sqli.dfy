/**
 * BaseSQLi.java: the SQL-statement recogniser, splitting a format string
 * into fragments, and the exemption for logging calls.
 */
module BaseSqli {
  import opened Wrappers
  import opened JavaString
  import opened Patterns
  import opened Sqli

  // ---------------------------------------------------------------------
  // sqlPattern: `^\s*(select|delete|update|insert)\s+.*?(from|into|set)\s+.*?where.*`
  // ---------------------------------------------------------------------

  predicate StatementKeywordAt(s: string, a: nat) {
    KeywordAt(s, a, "select") || KeywordAt(s, a, "delete") || KeywordAt(s, a, "update") || KeywordAt(s, a, "insert")
  }

  /** `(from|into|set)\s+` starting at c and ending at e. */
  predicate ClauseKeyword(s: string, c: nat, e: nat) {
    ((KeywordAt(s, c, "from") || KeywordAt(s, c, "into")) && c + 4 < e && Ws(s, c + 4, e))
    || (KeywordAt(s, c, "set") && c + 3 < e && Ws(s, c + 3, e))
  }

  /** `.*?where` from e: "where" later on the same line. */
  predicate WhereLater(s: string, e: nat) {
    exists g | e <= g <= |s| :: AnyNoLt(s, e, g) && KeywordAt(s, g, "where")
  }

  /** `.*?(from|into|set)\s+.*?where` from b. */
  predicate ClauseThenWhere(s: string, b: nat) {
    exists c, e | b <= c < e <= |s| :: AnyNoLt(s, b, c) && ClauseKeyword(s, c, e) && WhereLater(s, e)
  }

  /**
   * isSql: the text, after optional leading whitespace, opens with
   * select/delete/update/insert and whitespace, later has from/into/set
   * and whitespace, and later still "where"; letter case is ignored and
   * the gaps matched by `.` never cross a line terminator.
   */
  predicate IsSql(s: string) {
    exists a, b | 0 <= a && a + 6 < b <= |s| ::
      Ws(s, 0, a) && StatementKeywordAt(s, a) && Ws(s, a + 6, b) && ClauseThenWhere(s, b)
  }

  /** A statement always leaves a piece when split on the placeholder pattern. */
  lemma SqlSplitOnPlaceholderNonEmpty(s: string)
    requires IsSql(s)
    ensures Split(Placeholder, s) != []
  {
    var a :| 0 <= a < |s| && StatementKeywordAt(s, a);
    StatementOpensWithLetter(s, a);
  }

  lemma StatementOpensWithLetter(s: string, a: nat)
    requires StatementKeywordAt(s, a)
    ensures Split(Placeholder, s) != []
  {
    if KeywordAt(s, a, "select") {
      KeywordLetter(s, a, "select", 1);
    } else if KeywordAt(s, a, "delete") {
      KeywordLetter(s, a, "delete", 1);
    } else if KeywordAt(s, a, "update") {
      KeywordLetter(s, a, "update", 1);
    } else {
      KeywordLetter(s, a, "insert", 1);
    }
    SplitNonEmpty(Placeholder, s, a + 1);
  }

  // ---------------------------------------------------------------------
  // hasEvalAdditive(content, needle) and hasEvalAdditive(content, pattern)
  // ---------------------------------------------------------------------

  /**
   * The fragments checked for a format string: its split, without the last
   * piece when the text ends with that piece.
   */
  function CheckedFragments(d: Delim, content: string): (r: seq<string>)
    requires Split(d, content) != []
    ensures r <= Split(d, content) && |Split(d, content)| - 1 <= |r|
  {
    var list := Split(d, content);
    if EndsWith(content, list[|list| - 1]) then list[..|list| - 1] else list
  }

  /**
   * hasEvalAdditive over a split: the two overloads in the source differ
   * only in how the delimiter pattern is given. The split must leave a
   * piece, as the source reads the last one unconditionally.
   */
  method HasEvalAdditiveSplit(d: Delim, content: string) returns (r: bool)
    requires Split(d, content) != []
    ensures r <==> exists f | f in CheckedFragments(d, content) :: FragmentVulnerable(f)
    ensures Find(d, content, 0).None? ==> !r
  {
    var list := Split(d, content);
    if EndsWith(content, list[|list| - 1]) {
      list := list[..|list| - 1];
    }
    r := HasVulOnAdditiveFragments(list);
  }

  // ---------------------------------------------------------------------
  // ignoreMethodName
  // ---------------------------------------------------------------------

  /** Words whose presence in a method name marks a logging or reporting call. */
  const LogWords: seq<string> := ["log", "trace", "debug", "info", "alarm", "warn", "error", "fatal", "ok", "succ", "fail", "print"]

  predicate LogLikeName(name: string) {
    exists w | w in LogWords :: Contains(Lower(name), w)
  }

  /** A method call enclosing the expression: whether it is String.format, and its name when resolvable. */
  datatype EnclosingCall = EnclosingCall(isStringFormat: bool, name: Option<string>)

  /**
   * ignoreMethodName, given the method calls enclosing the expression,
   * innermost first: a String.format call is looked through once, and the
   * next call out is exempt when its name is log-like.
   */
  function IgnoreMethodName(enclosing: seq<EnclosingCall>): (r: bool)
    ensures r ==> exists i | 0 <= i < |enclosing| && i <= 1 ::
                    enclosing[i].name.Some? && LogLikeName(enclosing[i].name.value)
    ensures enclosing == [] ==> !r
    ensures |enclosing| >= 1 && !enclosing[0].isStringFormat ==>
              (r <==> enclosing[0].name.Some? && LogLikeName(enclosing[0].name.value))
    ensures |enclosing| >= 1 && enclosing[0].isStringFormat ==>
              (r <==> |enclosing| > 1 && enclosing[1].name.Some? && LogLikeName(enclosing[1].name.value))
  {
    var call: Option<EnclosingCall> :=
      if enclosing == [] then None
      else if enclosing[0].isStringFormat then (if |enclosing| > 1 then Some(enclosing[1]) else None)
      else Some(enclosing[0]);
    match call
    case None => false
    case Some(c) => c.name.Some? && LogLikeName(c.name.value)
  }

  /** Embedding a log-like name in a longer one keeps it log-like. */
  lemma LogLikeNameExtends(pre: string, name: string, post: string)
    requires LogLikeName(name)
    ensures LogLikeName(pre + name + post)
  {
    var w :| w in LogWords && Contains(Lower(name), w);
    var i :| 0 <= i <= |Lower(name)| && OccursAt(Lower(name), w, i);
    LowerAppend(pre + name, post);
    LowerAppend(pre, name);
    var l := Lower(name);
    var big := Lower(pre) + l + Lower(post);
    assert big == Lower(pre + name + post);
    forall k | 0 <= k < |w| ensures big[|pre| + i + k] == w[k] {
      assert big[|pre| + i + k] == l[i + k];
      assert l[i..i + |w|][k] == l[i + k];
    }
    assert big[|pre| + i..|pre| + i + |w|] == w;
    assert OccursAt(big, w, |pre| + i);
  }
}
