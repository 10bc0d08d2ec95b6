/**
 * The SQL-injection heuristics of SQLi.java: the nearest-keyword classifier
 * for a splice point (`hasVulOnSQLJoinStr`) and the additive-fragment
 * classifier (`hasVulOnAdditiveFragments`).
 */
module Sqli {
  import opened Wrappers
  import opened JavaString
  import opened Patterns

  // ---------------------------------------------------------------------
  // Nearest keyword to the left of a splice point
  // ---------------------------------------------------------------------

  /** A keyword after which the spliced value is a value: the splice is unsafe. */
  predicate IsValueKeyword(t: string) {
    t == "where" || t == "values"
  }

  /** A keyword after which the spliced text is a table or field name. */
  predicate IsNameKeyword(t: string) {
    t == "from" || t == "into" || t == "join" || t == "select" || t == "update"
  }

  /** A token that decides the verdict; `limit`, `by` and `having` are skipped like any other word. */
  predicate IsDecidingKeyword(t: string) {
    IsValueKeyword(t) || IsNameKeyword(t)
  }

  /** Verdict of the right-to-left token scan: the nearest deciding keyword, true when there is none. */
  function ScanVerdict(tokens: seq<string>): bool
  {
    if tokens == [] then true
    else if IsValueKeyword(tokens[|tokens| - 1]) then true
    else if IsNameKeyword(tokens[|tokens| - 1]) then false
    else ScanVerdict(tokens[..|tokens| - 1])
  }

  /** No deciding keyword among tokens[k+1..]. */
  predicate NoDecidingKeywordAfter(tokens: seq<string>, k: int) {
    forall j | k < j < |tokens| && j >= 0 :: !IsDecidingKeyword(tokens[j])
  }

  /**
   * The scan is safe exactly when some name keyword is the last deciding
   * keyword of the token list.
   */
  lemma {:induction false} ScanVerdictIff(tokens: seq<string>)
    ensures !ScanVerdict(tokens) <==>
            exists k | 0 <= k < |tokens| :: IsNameKeyword(tokens[k]) && NoDecidingKeywordAfter(tokens, k)
  {
    if tokens != [] {
      var n := |tokens| - 1;
      var init := tokens[..n];
      if IsValueKeyword(tokens[n]) {
        forall k | 0 <= k < |tokens| && IsNameKeyword(tokens[k])
          ensures !NoDecidingKeywordAfter(tokens, k)
        {
          assert k != n;
          assert IsDecidingKeyword(tokens[n]);
        }
      } else if IsNameKeyword(tokens[n]) {
        assert NoDecidingKeywordAfter(tokens, n);
      } else {
        ScanVerdictIff(init);
        if !ScanVerdict(tokens) {
          var k :| 0 <= k < |init| && IsNameKeyword(init[k]) && NoDecidingKeywordAfter(init, k);
          NoDecidingAfterInit(tokens, k);
        }
        if exists k | 0 <= k < |tokens| :: IsNameKeyword(tokens[k]) && NoDecidingKeywordAfter(tokens, k) {
          var k :| 0 <= k < |tokens| && IsNameKeyword(tokens[k]) && NoDecidingKeywordAfter(tokens, k);
          assert k < n;
          NoDecidingAfterInit(tokens, k);
        }
      }
    }
  }

  /** A last token that decides nothing leaves the keywords after k unchanged. */
  lemma NoDecidingAfterInit(tokens: seq<string>, k: nat)
    requires k < |tokens| - 1 && !IsDecidingKeyword(tokens[|tokens| - 1])
    ensures NoDecidingKeywordAfter(tokens, k) <==> NoDecidingKeywordAfter(tokens[..|tokens| - 1], k)
  {
    var init := tokens[..|tokens| - 1];
    assert forall j | k < j < |init| :: init[j] == tokens[j];
  }

  /** Whether splicing after `prefix` is judged unsafe by `hasVulOnSQLJoinStr`. */
  function JoinStrVulnerable(prefix: string): bool {
    ScanVerdict(Split(Whitespace, prefix))
  }

  /**
   * hasVulOnSQLJoinStr: scans the whitespace-separated tokens of `prefix`
   * from the right. Only the prefix decides; the variable and the suffix
   * are not consulted, and keywords are matched case-sensitively.
   */
  method HasVulOnSQLJoinStr(prefix: string, variable: string, suffix: Option<string>) returns (r: bool)
    ensures r == JoinStrVulnerable(prefix)
  {
    var fragments := Split(Whitespace, prefix);
    var i := |fragments|;
    assert fragments[..i] == fragments;
    while i > 0
      invariant 0 <= i <= |fragments|
      invariant ScanVerdict(fragments) == ScanVerdict(fragments[..i])
    {
      var frag := fragments[i - 1];
      assert fragments[..i][..i - 1] == fragments[..i - 1];
      if frag == "limit" || frag == "by" || frag == "having" {
        i := i - 1;
        continue;
      }
      if frag == "where" || frag == "values" {
        return true;
      }
      if frag == "from" || frag == "into" || frag == "join" || frag == "select" || frag == "update" {
        return false;
      }
      i := i - 1;
    }
    return true;
  }

  /** One (prefix, variable[, suffix]) entry is checked when it has two or three parts. */
  predicate EntryVulnerable(entry: seq<string>) {
    2 <= |entry| <= 3 && JoinStrVulnerable(entry[0])
  }

  /**
   * hasVulOnSQLJoinStrList: true iff some entry of size two or three is
   * judged unsafe; entries of any other size are skipped.
   */
  method HasVulOnSQLJoinStrList(entries: seq<seq<string>>) returns (r: bool)
    ensures r <==> exists i | 0 <= i < |entries| :: EntryVulnerable(entries[i])
  {
    var i := 0;
    while i < |entries|
      invariant 0 <= i <= |entries|
      invariant forall j | 0 <= j < i :: !EntryVulnerable(entries[j])
    {
      var entry := entries[i];
      if |entry| < 2 || |entry| > 3 {
        i := i + 1;
        continue;
      }
      if |entry| == 2 {
        var v := HasVulOnSQLJoinStr(entry[0], entry[1], None);
        if v {
          return true;
        }
      }
      if |entry| == 3 {
        var v := HasVulOnSQLJoinStr(entry[0], entry[1], Some(entry[2]));
        if v {
          return true;
        }
      }
      i := i + 1;
    }
    return false;
  }

  // ---------------------------------------------------------------------
  // Additive fragments
  // ---------------------------------------------------------------------

  /**
   * The exclusions of `hasVulOnAdditiveFragments`, on a fragment that is
   * already lower-cased and trimmed: each says the spliced text would be a
   * name (column list, table, field), not a value.
   */
  predicate ColumnListEnd(item: string) {
    (OrderByEnd(item) && !LimitEnd(item)) || HavingEnd(item)
  }

  predicate TableOrFieldPosition(item: string) {
    EndsWith(item, "from")
    || EndsWith(item, "join")
    || (StartsWith(item, "select") && !Contains(item, "from"))
    || EndsWith(item, "update")
    || (StartsWith(item, "update") && EndsWith(item, "set"))
    || (StartsWith(item, "insert into") && !Contains(item, "value"))
    || item == "("
  }

  /** The fragment after String.toLowerCase then String.trim. */
  function Normalize(fragment: string): string {
    Trim(Lower(fragment))
  }

  /** The verdict on one normalized fragment: no exclusion applies. */
  predicate ItemVulnerable(item: string) {
    !ColumnListEnd(item) && !TableOrFieldPosition(item)
  }

  predicate FragmentVulnerable(fragment: string) {
    ItemVulnerable(Normalize(fragment))
  }

  /** hasVulOnAdditiveFragments: some fragment survives every exclusion. */
  function HasVulOnAdditiveFragments(fragments: seq<string>): (r: bool)
    ensures r <==> exists f | f in fragments :: FragmentVulnerable(f)
  {
    if fragments == [] then false
    else FragmentVulnerable(fragments[0]) || HasVulOnAdditiveFragments(fragments[1..])
  }

  /** The list verdict is the disjunction of the verdicts of its parts. */
  lemma AdditiveAppend(a: seq<string>, b: seq<string>)
    ensures HasVulOnAdditiveFragments(a + b) == (HasVulOnAdditiveFragments(a) || HasVulOnAdditiveFragments(b))
  {
  }

  /** Reordering the fragments never changes the verdict. */
  lemma AdditivePermutation(a: seq<string>, b: seq<string>)
    requires multiset(a) == multiset(b)
    ensures HasVulOnAdditiveFragments(a) == HasVulOnAdditiveFragments(b)
  {
    if HasVulOnAdditiveFragments(a) {
      var f :| f in a && FragmentVulnerable(f);
      assert f in multiset(b);
    }
    if HasVulOnAdditiveFragments(b) {
      var f :| f in b && FragmentVulnerable(f);
      assert f in multiset(a);
    }
  }

  /** Letter case never changes the verdict on a fragment. */
  lemma FragmentCaseInsensitive(f: string, g: string)
    requires Lower(f) == Lower(g)
    ensures FragmentVulnerable(f) == FragmentVulnerable(g)
  {
  }

  /** Leading and trailing whitespace never changes the verdict on a fragment. */
  lemma FragmentPaddingInvariant(w1: string, f: string, w2: string)
    requires AllTrimmable(w1) && AllTrimmable(w2)
    ensures FragmentVulnerable(w1 + f + w2) == FragmentVulnerable(f)
  {
    LowerAppend(w1 + f, w2);
    LowerAppend(w1, f);
    LowerOfLower(w1);
    LowerOfLower(w2);
    TrimPadded(w1, Lower(f), w2);
  }

  // ---------------------------------------------------------------------
  // Fragments without the letters of "by" and "having"
  // ---------------------------------------------------------------------

  /** The order/group-by exclusion needs the y of "by". */
  lemma OrderByNeedsY(s: string)
    requires OrderByEnd(s)
    ensures 'y' in s || 'Y' in s
  {
    var p :| 0 <= p <= |s| && (KeywordAt(s, p, "group") || KeywordAt(s, p, "order")) && ByTail(s, p + 5);
    var b :| p + 5 < b <= |s| && Ws(s, p + 5, b) && KeywordAt(s, b, "by") && ListEnd(s, b + 2, 5);
    KeywordLetter(s, b, "by", 1);
  }

  /** The having exclusion needs the g of "having". */
  lemma HavingNeedsG(s: string)
    requires HavingEnd(s)
    ensures 'g' in s || 'G' in s
  {
    var p :| 0 <= p <= |s| && KeywordAt(s, p, "having") && ListEnd(s, p + 6, 5);
    KeywordLetter(s, p, "having", 5);
  }

  /**
   * On an item without y and g the two pattern exclusions never apply, so
   * the verdict is decided by the plain prefix, suffix and containment tests.
   */
  lemma NoColumnListLetters(item: string)
    requires 'y' !in item && 'Y' !in item && 'g' !in item && 'G' !in item
    ensures ItemVulnerable(item) <==> !TableOrFieldPosition(item)
  {
    if OrderByEnd(item) {
      OrderByNeedsY(item);
    }
    if HavingEnd(item) {
      HavingNeedsG(item);
    }
  }

  /** A character that is neither an ASCII capital nor a letter of "by" or "having" that they need. */
  predicate PlainChar(c: char) {
    !IsAsciiUpper(c) && c != 'y' && c != 'g'
  }

  /**
   * A fragment that is lower case and trimmed up to its trailing padding,
   * has no y or g, and sits in no table or field position is vulnerable.
   */
  lemma PlainFragmentVulnerable(f: string, w: string)
    requires f != [] && !IsTrimmable(f[0]) && !IsTrimmable(f[|f| - 1]) && AllTrimmable(w)
    requires forall i | 0 <= i < |f| :: PlainChar(f[i])
    requires !TableOrFieldPosition(f)
    ensures FragmentVulnerable(f + w)
  {
    assert forall i | 0 <= i < |f| :: !IsAsciiUpper(f[i]);
    assert [] + f + w == f + w;
    FragmentPaddingInvariant([], f, w);
    LowerOfLower(f);
    assert Trim(f) == f;
    NoColumnListLetters(f);
  }

  /** Lower-casing "TABLE" between two lower-case pieces. */
  lemma LowerAroundTable(a: string, b: string)
    requires forall i | 0 <= i < |a| :: PlainChar(a[i])
    requires forall i | 0 <= i < |b| :: PlainChar(b[i])
    ensures Lower(a + "TABLE" + b) == a + "table" + b
  {
    LowerAppend(a + "TABLE", b);
    LowerAppend(a, "TABLE");
    LowerOfLower(a);
    LowerOfLower(b);
    assert Lower("TABLE") == "table";
  }

  /** Concatenation keeps plain characters plain. */
  lemma PlainConcat(a: string, b: string)
    requires forall i | 0 <= i < |a| :: PlainChar(a[i])
    requires forall i | 0 <= i < |b| :: PlainChar(b[i])
    ensures forall i | 0 <= i < |a + b| :: PlainChar((a + b)[i])
  {
    forall i | 0 <= i < |a + b| ensures PlainChar((a + b)[i]) {
      if i >= |a| {
        assert (a + b)[i] == b[i - |a|];
      }
    }
  }

  /** A select fragment that already names its table ends in a value position. */
  lemma SelectFromItem(a: string, b: string)
    requires StartsWith(a, "select") && StartsWith(b, "from")
    requires b != [] && b[|b| - 1] == '='
    ensures !TableOrFieldPosition(a + b)
  {
    var f := a + b;
    assert f[|a|..|a| + 4] == b[..4];
    assert OccursAt(f, "from", |a|);
    assert f[0] == 's';
    assert f[|f| - 1] == '=';
  }

  /** An insert fragment that has reached its values ends in a value position. */
  lemma InsertValuesItem(a: string, b: string)
    requires StartsWith(a, "insert into") && StartsWith(b, "value")
    requires b[|b| - 1] == '('
    ensures !TableOrFieldPosition(a + b)
  {
    var f := a + b;
    assert f[|a|..|a| + 5] == b[..5];
    assert OccursAt(f, "value", |a|);
    assert f[0] == 'i';
    assert f[|f| - 1] == '(';
  }

  /** Outside select and insert, a fragment ending in '=' is a value position. */
  lemma AssignmentItem(f: string)
    requires f != [] && f[0] != 's' && f[0] != 'i' && f[|f| - 1] == '='
    ensures !TableOrFieldPosition(f)
  {
  }

  /** The lower-cased fragment around "table" is plain and untrimmed at both ends. */
  lemma PlainAroundTable(a: string, b: string)
    requires forall i | 0 <= i < |a| :: PlainChar(a[i])
    requires forall i | 0 <= i < |b| :: PlainChar(b[i])
    requires a != [] && b != []
    ensures forall i | 0 <= i < |a + "table" + b| :: PlainChar((a + "table" + b)[i])
    ensures (a + "table" + b)[0] == a[0] && (a + "table" + b)[|a + "table" + b| - 1] == b[|b| - 1]
  {
    assert forall i | 0 <= i < |"table"| :: PlainChar("table"[i]);
    PlainConcat(a, "table");
    PlainConcat(a + "table", b);
  }

  /** A fragment holding the capitalised table name, judged through its lower case. */
  lemma UpperTableFragment(a: string, b: string)
    requires forall i | 0 <= i < |a| :: PlainChar(a[i])
    requires forall i | 0 <= i < |b| :: PlainChar(b[i])
    requires a != [] && b != [] && !IsTrimmable(a[0]) && !IsTrimmable(b[|b| - 1])
    requires !TableOrFieldPosition(a + "table" + b)
    ensures FragmentVulnerable(a + "TABLE" + b)
  {
    var g := a + "table" + b;
    PlainAroundTable(a, b);
    PlainFragmentVulnerable(g, "");
    assert g + "" == g;
    LowerAroundTable(a, b);
    assert forall i | 0 <= i < |g| :: !IsAsciiUpper(g[i]);
    LowerOfLower(g);
    FragmentCaseInsensitive(a + "TABLE" + b, g);
  }

  lemma SelectRows(a: string, b1: string, b2: string)
    requires a == "select id,name " && b1 == "from table where name =" && b2 == "from table where id = 1 and name="
    ensures forall i | 0 <= i < |a| :: PlainChar(a[i])
    ensures forall i | 0 <= i < |b1| :: PlainChar(b1[i])
    ensures forall i | 0 <= i < |b2| :: PlainChar(b2[i])
    ensures StartsWith(a, "select") && StartsWith(b1, "from") && StartsWith(b2, "from")
    ensures b1[|b1| - 1] == '=' && b2[|b2| - 1] == '='
  {
  }

  lemma InsertPieces(a: string, b: string)
    requires a == "insert into " && b == "(id,name) values("
    ensures forall i | 0 <= i < |a| :: PlainChar(a[i])
    ensures forall i | 0 <= i < |b| :: PlainChar(b[i])
    ensures StartsWith(a + "table(id,name) ", "insert into") && StartsWith("values(", "value")
    ensures a + "table" + b == a + "table(id,name) " + "values("
    ensures b[|b| - 1] == '('
  {
  }

  lemma UpdatePieces(a: string, b1: string, b2: string)
    requires a == "update " && b1 == " set id=" && b2 == " set id=1, name="
    ensures forall i | 0 <= i < |a| :: PlainChar(a[i])
    ensures forall i | 0 <= i < |b1| :: PlainChar(b1[i])
    ensures forall i | 0 <= i < |b2| :: PlainChar(b2[i])
    ensures a[0] == 'u' && b1[|b1| - 1] == '=' && b2[|b2| - 1] == '='
  {
  }

  lemma DeletePieces(a: string, b: string)
    requires a == "delete from " && b == " where name="
    ensures forall i | 0 <= i < |a| :: PlainChar(a[i])
    ensures forall i | 0 <= i < |b| :: PlainChar(b[i])
    ensures a[0] == 'd' && b[|b| - 1] == '='
  {
  }

  /** The select value positions of the SQL-injection unit test are judged vulnerable. */
  lemma SelectValuePositions()
    ensures HasVulOnAdditiveFragments(["select id,name " + "from table where name =" + " "])
    ensures HasVulOnAdditiveFragments(["select id,name " + "from table where id = 1 and name=" + " "])
  {
    var sel, b1, b2 := "select id,name ", "from table where name =", "from table where id = 1 and name=";
    SelectRows(sel, b1, b2);
    SelectFromItem(sel, b1);
    PlainConcat(sel, b1);
    PlainFragmentVulnerable(sel + b1, " ");
    SelectFromItem(sel, b2);
    PlainConcat(sel, b2);
    PlainFragmentVulnerable(sel + b2, " ");
  }

  /** The insert value position of the SQL-injection unit test is judged vulnerable. */
  lemma InsertValuePosition()
    ensures HasVulOnAdditiveFragments(["insert into " + "TABLE" + "(id,name) values("])
  {
    var ins, vals := "insert into ", "(id,name) values(";
    InsertPieces(ins, vals);
    InsertValuesItem(ins + "table(id,name) ", "values(");
    UpperTableFragment(ins, vals);
  }

  /** The update value positions of the SQL-injection unit test are judged vulnerable. */
  lemma UpdateValuePositions()
    ensures HasVulOnAdditiveFragments(["update " + "TABLE" + " set id="])
    ensures HasVulOnAdditiveFragments(["update " + "TABLE" + " set id=1, name="])
  {
    var upd, setId, setName := "update ", " set id=", " set id=1, name=";
    UpdatePieces(upd, setId, setName);
    AssignmentItem(upd + "table" + setId);
    UpperTableFragment(upd, setId);
    AssignmentItem(upd + "table" + setName);
    UpperTableFragment(upd, setName);
  }

  /** The delete value position of the SQL-injection unit test is judged vulnerable. */
  lemma DeleteValuePosition()
    ensures HasVulOnAdditiveFragments(["delete from " + "TABLE" + " where name="])
  {
    var del, whereName := "delete from ", " where name=";
    DeletePieces(del, whereName);
    AssignmentItem(del + "table" + whereName);
    UpperTableFragment(del, whereName);
  }
  // The table and field positions of the SQL-injection unit test

  /** A text without the first letter of a word does not contain the word. */
  lemma MissingLetter(s: string, t: string)
    requires t != [] && t[0] !in s
    ensures !Contains(s, t)
  {
    forall i | 0 <= i <= |s| ensures !OccursAt(s, t, i) {
      if i + |t| <= |s| {
        assert s[i..i + |t|][0] == s[i];
      }
    }
  }

  /**
   * A lower-case fragment, trimmed up to its trailing padding, that some
   * exclusion applies to is not vulnerable.
   */
  lemma PlainFragmentExcluded(f: string, w: string)
    requires f != [] && !IsTrimmable(f[0]) && !IsTrimmable(f[|f| - 1]) && AllTrimmable(w)
    requires forall i | 0 <= i < |f| :: !IsAsciiUpper(f[i])
    requires !ItemVulnerable(f)
    ensures !FragmentVulnerable(f + w)
  {
    assert [] + f + w == f + w;
    FragmentPaddingInvariant([], f, w);
    LowerOfLower(f);
    TrimUntrimmed(f);
  }

  /** A fragment holding the capitalised table name in a table or field position. */
  lemma UpperTableExcluded(a: string, b: string, w: string)
    requires forall i | 0 <= i < |a| :: PlainChar(a[i])
    requires forall i | 0 <= i < |b| :: PlainChar(b[i])
    requires a != [] && b != [] && !IsTrimmable(a[0]) && !IsTrimmable(b[|b| - 1]) && AllTrimmable(w)
    requires TableOrFieldPosition(a + "table" + b)
    ensures !FragmentVulnerable(a + "TABLE" + b + w)
  {
    var g := a + "table" + b;
    PlainAroundTable(a, b);
    assert forall i | 0 <= i < |g| :: !IsAsciiUpper(g[i]);
    PlainFragmentExcluded(g, []);
    assert g + [] == g;
    LowerAroundTable(a, b);
    LowerOfLower(g);
    FragmentCaseInsensitive(a + "TABLE" + b, g);
    assert [] + (a + "TABLE" + b) + w == a + "TABLE" + b + w;
    FragmentPaddingInvariant([], a + "TABLE" + b, w);
  }

  lemma SelectNamePieces(a: string, b: string)
    requires a == "select" && b == "select id,"
    ensures forall i | 0 <= i < |a| :: !IsAsciiUpper(a[i])
    ensures forall i | 0 <= i < |b| :: !IsAsciiUpper(b[i])
    ensures StartsWith(a, "select") && StartsWith(b, "select")
    ensures 'f' !in a && 'f' !in b
  {
  }

  /** The select-list positions of the SQL-injection unit test are not judged vulnerable. */
  lemma SelectNamePositions()
    ensures !HasVulOnAdditiveFragments(["select" + " "])
    ensures !HasVulOnAdditiveFragments(["select id,"])
  {
    var a, b := "select", "select id,";
    SelectNamePieces(a, b);
    MissingLetter(a, "from");
    PlainFragmentExcluded(a, " ");
    MissingLetter(b, "from");
    PlainFragmentExcluded(b, []);
    assert b + [] == b;
  }

  lemma SelectTablePieces(a: string, c: string)
    requires a == "select id,name from" && c == " table inner join"
    ensures forall i | 0 <= i < |a| :: !IsAsciiUpper(a[i])
    ensures forall i | 0 <= i < |a + c| :: !IsAsciiUpper((a + c)[i])
    ensures EndsWith(a, "from") && EndsWith(a + c, "join")
  {
    assert Quiet(a) && Quiet(c);
    QuietConcat(a, c);
    assert (a + c)[|a + c| - 4..] == c[|c| - 4..];
  }

  /** The select table positions of the SQL-injection unit test are not judged vulnerable. */
  lemma SelectTablePositions()
    ensures !HasVulOnAdditiveFragments(["select id,name from" + " "])
    ensures !HasVulOnAdditiveFragments(["select id,name from" + " table inner join"])
  {
    var a, c := "select id,name from", " table inner join";
    SelectTablePieces(a, c);
    PlainFragmentExcluded(a, " ");
    PlainFragmentExcluded(a + c, []);
    assert a + c + [] == a + c;
  }

  lemma InsertNamePieces(a: string, b1: string, b2: string)
    requires a == "insert into " && b1 == "(" && b2 == "(id,"
    ensures forall i | 0 <= i < |a| :: PlainChar(a[i])
    ensures forall i | 0 <= i < |b1| :: PlainChar(b1[i])
    ensures forall i | 0 <= i < |b2| :: PlainChar(b2[i])
    ensures a[..|a| - 1] == "insert into" && a[|a| - 1] == ' '
    ensures forall i | 0 <= i < |a| - 1 :: !IsAsciiUpper(a[i])
    ensures StartsWith(a + "table" + b1, "insert into") && StartsWith(a + "table" + b2, "insert into")
    ensures 'v' !in a + "table" + b1 && 'v' !in a + "table" + b2
  {
  }

  /** The insert table and column positions of the SQL-injection unit test are not judged vulnerable. */
  lemma InsertNamePositions()
    ensures !HasVulOnAdditiveFragments(["insert into" + " "])
    ensures !HasVulOnAdditiveFragments(["insert into " + "TABLE" + "("])
    ensures !HasVulOnAdditiveFragments(["insert into " + "TABLE" + "(id,"])
  {
    var a, b1, b2 := "insert into ", "(", "(id,";
    InsertNamePieces(a, b1, b2);
    var f := a[..|a| - 1];
    MissingLetter(f, "value");
    PlainFragmentExcluded(f, " ");
    assert f + " " == "insert into" + " ";
    MissingLetter(a + "table" + b1, "value");
    UpperTableExcluded(a, b1, []);
    assert a + "TABLE" + b1 + [] == a + "TABLE" + b1;
    MissingLetter(a + "table" + b2, "value");
    UpperTableExcluded(a, b2, []);
    assert a + "TABLE" + b2 + [] == a + "TABLE" + b2;
  }

  lemma UpdateNamePieces(a: string, b: string)
    requires a == "update " && b == " set"
    ensures forall i | 0 <= i < |a| :: PlainChar(a[i])
    ensures forall i | 0 <= i < |b| :: PlainChar(b[i])
    ensures a[..|a| - 1] == "update" && a[|a| - 1] == ' '
    ensures StartsWith(a + "table" + b, "update") && EndsWith(a + "table" + b, "set")
  {
  }

  /** The update table and field positions of the SQL-injection unit test are not judged vulnerable. */
  lemma UpdateNamePositions()
    ensures !HasVulOnAdditiveFragments(["update" + " "])
    ensures !HasVulOnAdditiveFragments(["update " + "TABLE" + " set" + " "])
  {
    var a, b := "update ", " set";
    UpdateNamePieces(a, b);
    var f := a[..|a| - 1];
    assert forall i | 0 <= i < |f| :: !IsAsciiUpper(f[i]);
    PlainFragmentExcluded(f, " ");
    UpperTableExcluded(a, b, " ");
  }

  /** The delete table position of the SQL-injection unit test is not judged vulnerable. */
  lemma DeleteNamePosition()
    ensures !HasVulOnAdditiveFragments(["delete from" + " "])
  {
    var f := "delete from";
    assert forall i | 0 <= i < |f| :: !IsAsciiUpper(f[i]);
    assert EndsWith(f, "from");
    PlainFragmentExcluded(f, " ");
  }
  // The column-list positions of the SQL-injection unit test

  /** The limit exclusion needs an "li" in the text, in either case. */
  lemma LimitNeedsLi(s: string)
    requires LimitEnd(s)
    ensures exists p | 0 <= p < |s| - 1 :: LowerChar(s[p]) == 'l' && LowerChar(s[p + 1]) == 'i'
  {
    var p :| 0 <= p <= |s| && KeywordAt(s, p, "limit") && ListEnd(s, p + 5, 1);
    KeywordLetter(s, p, "limit", 0);
    KeywordLetter(s, p, "limit", 1);
  }

  /** Lower case, with no "li" anywhere: neither capitals nor a limit clause can match. */
  predicate Quiet(s: string) {
    (forall i | 0 <= i < |s| :: !IsAsciiUpper(s[i]))
    && (forall p | 0 <= p < |s| - 1 :: s[p] == 'l' ==> s[p + 1] != 'i')
  }

  lemma QuietConcat(a: string, b: string)
    requires Quiet(a) && Quiet(b)
    requires a == [] || b == [] || a[|a| - 1] != 'l' || b[0] != 'i'
    ensures Quiet(a + b)
  {
    var f := a + b;
    forall i | 0 <= i < |f| ensures !IsAsciiUpper(f[i]) {
      if i >= |a| {
        assert f[i] == b[i - |a|];
      }
    }
    forall p | 0 <= p < |f| - 1 ensures f[p] == 'l' ==> f[p + 1] != 'i' {
      if p >= |a| {
        assert f[p] == b[p - |a|] && f[p + 1] == b[p + 1 - |a|];
      } else if p + 1 < |a| {
        assert f[p] == a[p] && f[p + 1] == a[p + 1];
      }
    }
  }

  /** A quiet text has no limit clause at its end. */
  lemma NoLimitEnd(s: string)
    requires Quiet(s)
    ensures !LimitEnd(s)
  {
    if LimitEnd(s) {
      LimitNeedsLi(s);
    }
  }

  /** At most one list item, with an optional comma, at the very end. */
  lemma LastItem(s: string, i: nat, j: nat, n: nat)
    requires i < j <= |s| && Word(s, i, j) && n > 0
    requires j == |s| || (j + 1 == |s| && s[j] == ',')
    ensures Reps(s, i, n)
  {
    assert Reps(s, |s|, n - 1);
    assert Ws(s, |s|, |s|);
  }

  /** What may follow a column-list keyword in the unit test: nothing, or a space and one item. */
  predicate ItemTail(t: string, j: nat) {
    t == [] || (1 < j <= |t| && t[0] == ' ' && Word(t, 1, j) && (j == |t| || (j + 1 == |t| && t[j] == ',')))
  }

  lemma ListTail(f: string, q: nat, t: string, j: nat)
    requires q <= |f| && f[q..] == t && ItemTail(t, j)
    ensures ListEnd(f, q, 5)
  {
    if t == [] {
      assert Reps(f, q, 5) && Ws(f, q, q);
    } else {
      assert forall k | 0 <= k < |t| :: f[q + k] == t[k];
      assert Word(f, q + 1, q + j);
      LastItem(f, q + 1, q + j, 5);
      assert Ws(f, q, q + 1);
    }
  }

  /** A lower-case "group by" or "order by" at p followed by a column list. */
  lemma ByClauseAt(s: string, p: nat, kw: string)
    requires kw == "group" || kw == "order"
    requires p + 8 <= |s| && s[p..p + 5] == kw && s[p + 5] == ' ' && s[p + 6..p + 8] == "by"
    requires ListEnd(s, p + 8, 5)
    ensures OrderByEnd(s)
  {
    LowerOfLower(kw);
    LowerOfLower("by");
    assert KeywordAt(s, p, kw) && KeywordAt(s, p + 6, "by");
    assert Ws(s, p + 5, p + 6);
  }

  /** A lower-case "having" at p followed by a column list. */
  lemma HavingClauseAt(s: string, p: nat)
    requires p + 6 <= |s| && s[p..p + 6] == "having"
    requires ListEnd(s, p + 6, 5)
    ensures HavingEnd(s)
  {
    LowerOfLower("having");
    assert KeywordAt(s, p, "having");
  }

  /** The last character of a fragment that ends in an item tail is not trimmed. */
  lemma TailEnd(a: string, kw: string, t: string, j: nat)
    requires kw != [] && !IsTrimmable(kw[|kw| - 1]) && ItemTail(t, j)
    ensures !IsTrimmable((a + kw + t)[|a + kw + t| - 1])
  {
    if t != [] {
      assert IsWordChar(t[|t| - 1]) || t[|t| - 1] == ',';
    }
  }

  /** A quiet fragment made of a prefix, a keyword and a tail, with the keyword and tail where expected. */
  lemma ClauseParts(a: string, k: string, t: string)
    requires Quiet(a) && Quiet(k) && Quiet(t) && a != [] && a[|a| - 1] == ' ' && (t == [] || t[0] == ' ')
    ensures Quiet(a + k + t)
    ensures (a + k + t)[|a|..|a| + |k|] == k && (a + k + t)[|a| + |k|..] == t
  {
    QuietConcat(a, k);
    QuietConcat(a + k, t);
  }

  lemma ByKeywordSlices(f: string, q: nat, kw: string)
    requires |kw| == 5 && q + 8 <= |f| && f[q..q + 8] == kw + " by"
    ensures f[q..q + 5] == kw && f[q + 5] == ' ' && f[q + 6..q + 8] == "by"
  {
    assert f[q..q + 5] == f[q..q + 8][..5];
    assert f[q + 6..q + 8] == f[q..q + 8][6..];
    assert f[q + 5] == f[q..q + 8][5];
  }

  lemma ByKeywordQuiet(kw: string)
    requires kw == "group" || kw == "order"
    ensures Quiet(kw + " by") && |kw + " by"| == 8
  {
  }

  /** A quiet text with "group by" or "order by" at q followed by at most one list item ends in a column list. */
  lemma ByClauseOn(f: string, q: nat, kw: string, t: string, j: nat)
    requires kw == "group" || kw == "order"
    requires q + 8 <= |f| && f[q..q + 8] == kw + " by" && f[q + 8..] == t && Quiet(f) && ItemTail(t, j)
    ensures ColumnListEnd(f)
  {
    NoLimitEnd(f);
    ListTail(f, q + 8, t, j);
    ByKeywordSlices(f, q, kw);
    ByClauseAt(f, q, kw);
  }

  /** A quiet text with "having" at q followed by at most one list item ends in a column list. */
  lemma HavingClauseOn(f: string, q: nat, t: string, j: nat)
    requires q + 6 <= |f| && f[q..q + 6] == "having" && f[q + 6..] == t && ItemTail(t, j)
    ensures ColumnListEnd(f)
  {
    ListTail(f, q + 6, t, j);
    HavingClauseAt(f, q);
  }

  /** A quiet text ending in "group by" or "order by" and at most one list item ends in a column list. */
  lemma ByClauseItem(a: string, kw: string, t: string, j: nat)
    requires kw == "group" || kw == "order"
    requires a != [] && a[|a| - 1] == ' ' && Quiet(a) && Quiet(t) && ItemTail(t, j)
    ensures var f := a + (kw + " by") + t;
            ColumnListEnd(f) && Quiet(f) && f[0] == a[0] && !IsTrimmable(f[|f| - 1])
  {
    var k := kw + " by";
    ByKeywordQuiet(kw);
    ClauseParts(a, k, t);
    ByClauseOn(a + k + t, |a|, kw, t, j);
    TailEnd(a, k, t, j);
  }

  /** A quiet text ending in "having" and at most one list item ends in a column list. */
  lemma HavingClauseItem(a: string, t: string, j: nat)
    requires a != [] && a[|a| - 1] == ' ' && Quiet(a) && Quiet(t) && ItemTail(t, j)
    ensures var f := a + "having" + t;
            ColumnListEnd(f) && Quiet(f) && f[0] == a[0] && !IsTrimmable(f[|f| - 1])
  {
    var k := "having";
    assert Quiet(k);
    ClauseParts(a, k, t);
    HavingClauseOn(a + k + t, |a|, t, j);
    TailEnd(a, k, t, j);
  }

  /**
   * A quiet fragment ending in "group by" or "order by" and at most one
   * list item is in a column-list position, so it is not vulnerable.
   */
  lemma ByFragmentExcluded(a: string, kw: string, t: string, j: nat, w: string)
    requires kw == "group" || kw == "order"
    requires a != [] && !IsTrimmable(a[0]) && a[|a| - 1] == ' ' && Quiet(a) && Quiet(t) && ItemTail(t, j) && AllTrimmable(w)
    ensures !FragmentVulnerable(a + (kw + " by") + t + w)
  {
    ByClauseItem(a, kw, t, j);
    PlainFragmentExcluded(a + (kw + " by") + t, w);
  }

  /** A quiet fragment ending in "having" and at most one list item is not vulnerable. */
  lemma HavingFragmentExcluded(a: string, t: string, j: nat, w: string)
    requires a != [] && !IsTrimmable(a[0]) && a[|a| - 1] == ' ' && Quiet(a) && Quiet(t) && ItemTail(t, j) && AllTrimmable(w)
    ensures !FragmentVulnerable(a + "having" + t + w)
  {
    HavingClauseItem(a, t, j);
    PlainFragmentExcluded(a + "having" + t, w);
  }

  lemma ColumnListTails(call: string, list: string, id: string)
    requires call == " sum(" && list == " sum(score)," && id == " id,"
    ensures Quiet(call) && Quiet(list) && Quiet(id)
    ensures ItemTail(call, 5) && ItemTail(list, 11) && ItemTail(id, 3)
  {
  }

  lemma OrderByText(ord: string)
    requires ord == "select id,name from table "
    ensures Quiet(ord)
  {
  }

  lemma GroupByText(sel: string)
    requires sel == "select name,sum(score) " + "from table "
    ensures Quiet(sel)
  {
    var a, b := "select name,sum(score) ", "from table ";
    assert Quiet(a) && Quiet(b);
    QuietConcat(a, b);
  }

  lemma HavingText(grp: string)
    requires grp == "select name,sum(score) " + "from table " + "group by sum(score) "
    ensures Quiet(grp)
  {
    var a, b := "select name,sum(score) " + "from table ", "group by sum(score) ";
    GroupByText(a);
    assert Quiet(b);
    QuietConcat(a, b);
  }

  lemma ByPhrases()
    ensures "group" + " by" == "group by" && "order" + " by" == "order by"
  {
  }

  /** The order-by position of the SQL-injection unit test is not judged vulnerable. */
  lemma OrderByPosition()
    ensures !HasVulOnAdditiveFragments(["select id,name from table " + "order by" + " "])
  {
    var ord := "select id,name from table ";
    OrderByText(ord);
    assert ItemTail([], 0) && Quiet([]);
    ByPhrases();
    ByFragmentExcluded(ord, "order", [], 0, " ");
    assert ord + "order by" + [] == ord + "order by";
  }

  /** The order-by item position of the SQL-injection unit test is not judged vulnerable. */
  lemma OrderByItemPosition()
    ensures !HasVulOnAdditiveFragments(["select id,name from table " + "order by" + " id," + " "])
  {
    var ord, id := "select id,name from table ", " id,";
    OrderByText(ord);
    ColumnListTails(" sum(", " sum(score),", id);
    ByPhrases();
    ByFragmentExcluded(ord, "order", id, 3, " ");
  }

  /** The group-by position of the SQL-injection unit test is not judged vulnerable. */
  lemma GroupByPosition()
    ensures !HasVulOnAdditiveFragments(["select name,sum(score) " + "from table " + "group by" + " "])
  {
    var sel := "select name,sum(score) " + "from table ";
    GroupByText(sel);
    assert ItemTail([], 0) && Quiet([]);
    ByPhrases();
    ByFragmentExcluded(sel, "group", [], 0, " ");
    assert sel + "group by" + [] == sel + "group by";
  }

  /** The grouped query of the unit test, followed by one list item. */
  lemma GroupByTail(t: string, j: nat)
    requires Quiet(t) && ItemTail(t, j)
    ensures !HasVulOnAdditiveFragments(["select name,sum(score) " + "from table " + "group by" + t])
  {
    var sel := "select name,sum(score) " + "from table ";
    GroupByText(sel);
    ByPhrases();
    ByFragmentExcluded(sel, "group", t, j, []);
    var f := sel + "group by" + t;
    assert f + [] == f;
  }

  /** The group-by item positions of the SQL-injection unit test are not judged vulnerable. */
  lemma GroupByItemPositions()
    ensures !HasVulOnAdditiveFragments(["select name,sum(score) " + "from table " + "group by" + " sum("])
    ensures !HasVulOnAdditiveFragments(["select name,sum(score) " + "from table " + "group by" + " sum(score),"])
  {
    ColumnListTails(" sum(", " sum(score),", " id,");
    GroupByTail(" sum(", 5);
    GroupByTail(" sum(score),", 11);
  }

  /** The having positions of the SQL-injection unit test are not judged vulnerable. */
  lemma HavingPositions()
    ensures !HasVulOnAdditiveFragments(["select name,sum(score) " + "from table " + "group by sum(score) " + "having" + " "])
    ensures !HasVulOnAdditiveFragments(["select name,sum(score) " + "from table " + "group by sum(score) " + "having" + " sum("])
  {
    var grp := "select name,sum(score) " + "from table " + "group by sum(score) ";
    var call := " sum(";
    HavingText(grp);
    ColumnListTails(call, " sum(score),", " id,");
    assert ItemTail([], 0) && Quiet([]);
    HavingFragmentExcluded(grp, [], 0, " ");
    assert grp + "having" + [] + " " == grp + "having" + " ";
    HavingFragmentExcluded(grp, call, 5, []);
    assert grp + "having" + call + [] == grp + "having" + call;
  }
}
