/**
 * Hand-written recognisers for the fixed regular expressions of the SQL
 * rules, and java.util.regex splitting (Pattern.split / String.split with
 * limit 0) over them.
 *
 * Each end-anchored pattern is stated as the existence of a parse, which is
 * exactly when a backtracking `find` succeeds.
 */
module Patterns {
  import opened Wrappers
  import opened JavaString

  // ---------------------------------------------------------------------
  // Building blocks over index ranges
  // ---------------------------------------------------------------------

  /** s[i..j] is made of `\s` characters. */
  predicate Ws(s: string, i: nat, j: nat) {
    i <= j <= |s| && forall k | i <= k < j :: IsSpace(s[k])
  }

  /** s[i..j] is made of `\S` characters. */
  predicate NonWs(s: string, i: nat, j: nat) {
    i <= j <= |s| && forall k | i <= k < j :: !IsSpace(s[k])
  }

  /** s[i..j] has no line terminator, so `.` can match all of it. */
  predicate AnyNoLt(s: string, i: nat, j: nat) {
    i <= j <= |s| && forall k | i <= k < j :: !IsLineTerminator(s[k])
  }

  /** The class [a-zA-Z0-9_\-\(\)]. */
  predicate IsWordChar(c: char) {
    ('a' <= c <= 'z') || ('A' <= c <= 'Z') || IsAsciiDigit(c) || c == '_' || c == '-' || c == '(' || c == ')'
  }

  predicate Word(s: string, i: nat, j: nat) {
    i <= j <= |s| && forall k | i <= k < j :: IsWordChar(s[k])
  }

  /** A lower-case keyword occurs at i, compared ASCII case-insensitively. */
  predicate KeywordAt(s: string, i: nat, kw: string) {
    i + |kw| <= |s| && Lower(s[i..i + |kw|]) == kw
  }

  /** A case-insensitive keyword occurrence holds each of the keyword's letters, in either case. */
  lemma KeywordLetter(s: string, p: nat, kw: string, k: nat)
    requires KeywordAt(s, p, kw) && k < |kw|
    ensures LowerChar(s[p + k]) == kw[k]
  {
    LowerAt(s[p..p + |kw|], k);
  }

  /**
   * `$` without MULTILINE: at the end of the input, or before a line
   * terminator that ends the input (a final "\r\n" counts as one).
   */
  predicate DollarAt(s: string, i: nat) {
    i == |s|
    || (i + 1 == |s| && IsLineTerminator(s[i]) && !(s[i] == '\n' && i > 0 && s[i - 1] == '\r'))
    || (i + 2 == |s| && s[i] == '\r' && s[i + 1] == '\n')
  }

  // ---------------------------------------------------------------------
  // Repeated column lists: `\s*([a-zA-Z0-9_\-\(\)]+,?\s{0,3}){0,n}$`
  // ---------------------------------------------------------------------

  /** At most n repetitions of `[word]+,?\s{0,3}` from i, then `$`. */
  predicate Reps(s: string, i: nat, n: nat)
    decreases n
  {
    i <= |s| &&
    (DollarAt(s, i)
     || (n > 0 && exists j, k, u | i < j <= k <= u <= |s| && u - k <= 3 ::
           Word(s, i, j) && (k == j || (k == j + 1 && s[j] == ',')) && Ws(s, k, u) && Reps(s, u, n - 1)))
  }

  /** `\s*` then `Reps`. */
  predicate ListEnd(s: string, i: nat, n: nat) {
    exists e | i <= e <= |s| :: Ws(s, i, e) && Reps(s, e, n)
  }

  // ---------------------------------------------------------------------
  // The end patterns of SQLi.java, used with `find`
  // ---------------------------------------------------------------------

  /** After (where|and|or): `\s+\S+?\s+in\s*\(?$`. */
  predicate WhereInTail(s: string, q: nat) {
    exists b, c, d | q < b < c < d <= |s| :: Ws(s, q, b) && NonWs(s, b, c) && Ws(s, c, d) && InEnd(s, d)
  }

  /** `in\s*\(?$` at d. */
  predicate InEnd(s: string, d: nat) {
    KeywordAt(s, d, "in") &&
    exists e | d + 2 <= e <= |s| :: Ws(s, d + 2, e) && (DollarAt(s, e) || (e < |s| && s[e] == '(' && DollarAt(s, e + 1)))
  }

  /** whereInEndPattern: `(where|and|or)\s+\S+?\s+in\s*\(?$`, case-insensitive. */
  predicate WhereInEnd(s: string) {
    exists p | 0 <= p <= |s| ::
      (KeywordAt(s, p, "where") && WhereInTail(s, p + 5))
      || (KeywordAt(s, p, "and") && WhereInTail(s, p + 3))
      || (KeywordAt(s, p, "or") && WhereInTail(s, p + 2))
  }

  /** `('|")%?$` after `like\s+`. */
  predicate QuoteEnd(s: string, q: nat) {
    exists d | q < d < |s| ::
      Ws(s, q, d) && (s[d] == '\'' || s[d] == '"')
      && (DollarAt(s, d + 1) || (d + 1 < |s| && s[d + 1] == '%' && DollarAt(s, d + 2)))
  }

  /** likeEndPattern: `\S+?\s+like\s+('|")%?$`, case-insensitive. */
  predicate LikeEnd(s: string) {
    exists a, b, c | 0 <= a < b < c <= |s| :: NonWs(s, a, b) && Ws(s, b, c) && KeywordAt(s, c, "like") && QuoteEnd(s, c + 4)
  }

  /** After (group|order): `\s+by` then the column list. */
  predicate ByTail(s: string, q: nat) {
    exists b | q < b <= |s| :: Ws(s, q, b) && KeywordAt(s, b, "by") && ListEnd(s, b + 2, 5)
  }

  /** orderByOrGroupByEndPattern: `(group|order)\s+by\s*([a-zA-Z0-9_\-\(\)]+,?\s{0,3}){0,5}$`. */
  predicate OrderByEnd(s: string) {
    exists p | 0 <= p <= |s| :: (KeywordAt(s, p, "group") || KeywordAt(s, p, "order")) && ByTail(s, p + 5)
  }

  /** havingEndPattern: `having\s*([a-zA-Z0-9_\-\(\)]+,?\s{0,3}){0,5}$`. */
  predicate HavingEnd(s: string) {
    exists p | 0 <= p <= |s| :: KeywordAt(s, p, "having") && ListEnd(s, p + 6, 5)
  }

  /** limitEndPattern: `limit\s*([a-zA-Z0-9_\-\(\)]+,?\s{0,3})?$`. */
  predicate LimitEnd(s: string) {
    exists p | 0 <= p <= |s| :: KeywordAt(s, p, "limit") && ListEnd(s, p + 5, 1)
  }

  // ---------------------------------------------------------------------
  // Delimiter patterns and splitting
  // ---------------------------------------------------------------------

  /**
   * The patterns text is split on: `\s+`, `\.`, dollarVarPattern
   * `\$\{(\S+?)\}` and placeholderPattern `%(\d\$\d{0,5})?s`
   * (case-insensitive).
   */
  datatype Delim = Whitespace | Dot | DollarVar | Placeholder

  /** End of the maximal `\s` run starting at i. */
  function WsRunEnd(s: string, i: nat): (j: nat)
    requires i <= |s|
    ensures i <= j <= |s| && Ws(s, i, j)
    ensures j == |s| || !IsSpace(s[j])
    decreases |s| - i
  {
    if i < |s| && IsSpace(s[i]) then WsRunEnd(s, i + 1) else i
  }

  /** End of the `\d` run starting at i, taking at most `max` digits. */
  function DigitsEnd(s: string, i: nat, max: nat): (j: nat)
    requires i <= |s|
    ensures i <= j <= |s| && j <= i + max
    ensures forall k | i <= k < j :: IsAsciiDigit(s[k])
    ensures j == |s| || j == i + max || !IsAsciiDigit(s[j])
    decreases max
  {
    if max > 0 && i < |s| && IsAsciiDigit(s[i]) then DigitsEnd(s, i + 1, max - 1) else i
  }

  /** The lazy `\S+?\}`: s[start..j] is already non-space, look for the first '}'. */
  function CloseBrace(s: string, j: nat): (r: Option<nat>)
    requires j <= |s|
    ensures r.Some? ==> j < r.value <= |s| && s[r.value - 1] == '}'
    ensures r.Some? ==> forall k | j <= k < r.value :: !IsSpace(s[k])
    decreases |s| - j
  {
    if j == |s| then None
    else if s[j] == '}' then Some(j + 1)
    else if IsSpace(s[j]) then None
    else CloseBrace(s, j + 1)
  }

  /** End of the match of the delimiter that starts exactly at i, if any. */
  function MatchAt(d: Delim, s: string, i: nat): (r: Option<nat>)
    requires i <= |s|
    ensures r.Some? ==> i < r.value <= |s|
  {
    match d
    case Whitespace =>
      if i < |s| && IsSpace(s[i]) then Some(WsRunEnd(s, i)) else None
    case Dot =>
      if i < |s| && s[i] == '.' then Some(i + 1) else None
    case DollarVar =>
      if i + 2 < |s| && s[i] == '$' && s[i + 1] == '{' && !IsSpace(s[i + 2]) then CloseBrace(s, i + 3) else None
    case Placeholder =>
      if i + 1 < |s| && s[i] == '%' && (s[i + 1] == 's' || s[i + 1] == 'S') then Some(i + 2)
      else if i + 2 < |s| && s[i] == '%' && IsAsciiDigit(s[i + 1]) && s[i + 2] == '$' then
        var e := DigitsEnd(s, i + 3, 5);
        if e < |s| && (s[e] == 's' || s[e] == 'S') then Some(e + 1) else None
      else None
  }

  /** Matcher.find(from): the leftmost match starting at or after `from`. */
  function Find(d: Delim, s: string, from: nat): (r: Option<(nat, nat)>)
    requires from <= |s|
    ensures r.Some? ==> from <= r.value.0 < r.value.1 <= |s| && MatchAt(d, s, r.value.0) == Some(r.value.1)
    ensures r.Some? ==> forall k | from <= k < r.value.0 :: MatchAt(d, s, k).None?
    ensures r.None? ==> forall k | from <= k <= |s| :: MatchAt(d, s, k).None?
    decreases |s| - from
  {
    match MatchAt(d, s, from)
    case Some(e) => Some((from, e))
    case None => if from == |s| then None else Find(d, s, from + 1)
  }

  /** The texts between successive matches, from `from` to the end. */
  function Pieces(d: Delim, s: string, from: nat): (r: seq<string>)
    requires from <= |s|
    ensures |r| >= 1
    decreases |s| - from
  {
    match Find(d, s, from)
    case None => [s[from..]]
    case Some((st, en)) => [s[from..st]] + Pieces(d, s, en)
  }

  /** Drops the empty strings at the end, as split with limit 0 does. */
  function DropTrailingEmpty(xs: seq<string>): (r: seq<string>)
    ensures r <= xs
    ensures r == [] || r[|r| - 1] != []
    ensures forall i | |r| <= i < |xs| :: xs[i] == []
  {
    if xs != [] && xs[|xs| - 1] == [] then DropTrailingEmpty(xs[..|xs| - 1]) else xs
  }

  /** Pattern.split(s) and String.split(regex) with limit 0. */
  function Split(d: Delim, s: string): (r: seq<string>)
  {
    if Find(d, s, 0).None? then [s] else DropTrailingEmpty(Pieces(d, s, 0))
  }

  // ---------------------------------------------------------------------
  // Properties of matching and splitting
  // ---------------------------------------------------------------------

  /** Characters a match of the delimiter can consist of. */
  predicate DelimChar(d: Delim, c: char) {
    match d
    case Whitespace => IsSpace(c)
    case Dot => c == '.'
    case DollarVar => !IsSpace(c)
    case Placeholder => c == '%' || IsAsciiDigit(c) || c == '$' || c == 's' || c == 'S'
  }

  lemma MatchChars(d: Delim, s: string, i: nat)
    requires i <= |s| && MatchAt(d, s, i).Some?
    ensures forall k | i <= k < MatchAt(d, s, i).value :: DelimChar(d, s[k])
  {
  }

  /** A `${...}` match opens with "${" and closes with '}'. */
  lemma SpliceShape(s: string, from: nat)
    requires from <= |s| && Find(DollarVar, s, from).Some?
    ensures var (st, en) := Find(DollarVar, s, from).value;
            st + 3 < en && s[st] == '$' && s[st + 1] == '{' && s[en - 1] == '}'
  {
  }

  /** The first position at or after `from` where a match starts is what Find reports. */
  lemma FindFirst(d: Delim, s: string, from: nat, k: nat)
    requires from <= k <= |s| && MatchAt(d, s, k).Some?
    requires forall j | from <= j < k :: MatchAt(d, s, j).None?
    ensures Find(d, s, from) == Some((k, MatchAt(d, s, k).value))
  {
  }

  lemma {:induction false} EmptyPiecesCovered(d: Delim, s: string, from: nat)
    requires from <= |s|
    requires forall p | p in Pieces(d, s, from) :: p == []
    ensures forall k | from <= k < |s| :: DelimChar(d, s[k])
    decreases |s| - from
  {
    match Find(d, s, from)
    case None =>
      assert s[from..] in Pieces(d, s, from);
    case Some((st, en)) =>
      assert s[from..st] in Pieces(d, s, from);
      assert st == from;
      MatchChars(d, s, st);
      forall p | p in Pieces(d, s, en) ensures p == [] {
        assert p in Pieces(d, s, from);
      }
      EmptyPiecesCovered(d, s, en);
  }

  /** Split gives no piece at all only when the text is made entirely of matches. */
  lemma SplitEmptyCovered(d: Delim, s: string)
    requires Split(d, s) == []
    ensures forall k | 0 <= k < |s| :: DelimChar(d, s[k])
  {
    var ps := Pieces(d, s, 0);
    assert Find(d, s, 0).Some?;
    forall p | p in ps ensures p == [] {
      var i :| 0 <= i < |ps| && ps[i] == p;
    }
    EmptyPiecesCovered(d, s, 0);
  }

  /** A character no match can contain keeps the split non-empty. */
  lemma SplitNonEmpty(d: Delim, s: string, k: nat)
    requires k < |s| && !DelimChar(d, s[k])
    ensures Split(d, s) != []
  {
    if Split(d, s) == [] {
      SplitEmptyCovered(d, s);
    }
  }

  // ---------------------------------------------------------------------
  // Splitting on '.' and joining with '.'
  // ---------------------------------------------------------------------

  predicate DotFree(t: string) {
    '.' !in t
  }

  lemma JoinCons(sep: string, x: string, rest: seq<string>)
    requires rest != []
    ensures Join(sep, [x] + rest) == x + sep + Join(sep, rest)
  {
    assert ([x] + rest)[1..] == rest;
  }

  lemma PiecesStep(d: Delim, s: string, from: nat, st: nat, en: nat)
    requires from <= |s| && Find(d, s, from) == Some((st, en))
    ensures Pieces(d, s, from) == [s[from..st]] + Pieces(d, s, en)
  {
  }

  lemma PiecesLast(d: Delim, s: string, from: nat)
    requires from <= |s| && Find(d, s, from).None?
    ensures Pieces(d, s, from) == [s[from..]]
  {
  }

  /** Joining the pieces between the dots gives back the text they came from. */
  lemma {:induction false} JoinDotPieces(s: string, from: nat)
    requires from <= |s|
    ensures Join(".", Pieces(Dot, s, from)) == s[from..]
    decreases |s| - from
  {
    var m := Find(Dot, s, from);
    if m.None? {
      PiecesLast(Dot, s, from);
    } else {
      var st, en := m.value.0, m.value.1;
      assert s[st] == '.' && en == st + 1;
      PiecesStep(Dot, s, from, st, en);
      JoinDotPieces(s, en);
      JoinCons(".", s[from..st], Pieces(Dot, s, en));
      assert s[from..] == s[from..st] + "." + s[en..];
    }
  }

  /** The last piece of the dot split starts at `from` or right after a dot. */
  lemma {:induction false} LastDotPiece(s: string, from: nat)
    requires from <= |s|
    ensures var ps := Pieces(Dot, s, from);
            ps[|ps| - 1] == [] ==> from == |s| || s[|s| - 1] == '.'
    decreases |s| - from
  {
    match Find(Dot, s, from)
    case None =>
    case Some((st, en)) =>
      LastDotPiece(s, en);
  }

  /** A dotted name that does not end in '.' is rebuilt exactly by joining its split. */
  lemma SplitJoinDot(s: string)
    requires !EndsWith(s, ".")
    ensures Join(".", Split(Dot, s)) == s
  {
    if Find(Dot, s, 0).Some? {
      var ps := Pieces(Dot, s, 0);
      LastDotPiece(s, 0);
      assert s != [] ==> s[|s| - 1..] == [s[|s| - 1]];
      assert DropTrailingEmpty(ps) == ps;
      JoinDotPieces(s, 0);
    }
  }

  /** No dot match starts inside a dot-free stretch of the text. */
  lemma NoDotIn(s: string, from: nat, x: string)
    requires from + |x| <= |s| && s[from..from + |x|] == x && DotFree(x)
    ensures forall j | from <= j < from + |x| :: MatchAt(Dot, s, j).None?
  {
    forall j | from <= j < from + |x| ensures MatchAt(Dot, s, j).None? {
      assert s[j] == x[j - from];
    }
  }

  /** Splitting the join of dot-free pieces on '.' gives back the pieces. */
  lemma {:induction false} DotPiecesOfJoin(s: string, from: nat, ps: seq<string>)
    requires from <= |s| && ps != []
    requires forall i | 0 <= i < |ps| :: DotFree(ps[i])
    requires s[from..] == Join(".", ps)
    ensures Pieces(Dot, s, from) == ps
    decreases |ps|
  {
    if |ps| == 1 {
      LastDotFreePiece(s, from, ps[0]);
    } else {
      var x, rest := ps[0], ps[1..];
      assert ps == [x] + rest;
      var k := DotPiecesStep(s, from, x, rest);
      DotPiecesOfJoin(s, k, rest);
    }
  }

  /** The first dot-free piece of a join is the first piece of the split; the rest follows its dot. */
  lemma DotPiecesStep(s: string, from: nat, x: string, rest: seq<string>) returns (k: nat)
    requires from <= |s| && rest != [] && DotFree(x)
    requires s[from..] == Join(".", [x] + rest)
    ensures k == from + |x| + 1 && k <= |s|
    ensures Pieces(Dot, s, from) == [x] + Pieces(Dot, s, k) && s[k..] == Join(".", rest)
  {
    JoinCons(".", x, rest);
    k := from + |x| + 1;
    DotAfterDotFree(s, from, x, Join(".", rest));
    PiecesStep(Dot, s, from, k - 1, k);
  }

  /** A dot-free tail is a single piece. */
  lemma LastDotFreePiece(s: string, from: nat, x: string)
    requires from <= |s| && s[from..] == x && DotFree(x)
    ensures Pieces(Dot, s, from) == [x]
  {
    assert s[from..from + |x|] == x;
    NoDotIn(s, from, x);
    assert MatchAt(Dot, s, |s|).None?;
    PiecesLast(Dot, s, from);
  }

  /** A dot-free stretch followed by a dot: the dot is the next match. */
  lemma DotAfterDotFree(s: string, from: nat, x: string, t: string)
    requires from <= |s| && s[from..] == x + "." + t && DotFree(x)
    ensures Find(Dot, s, from) == Some((from + |x|, from + |x| + 1))
    ensures s[from..from + |x|] == x && s[from + |x| + 1..] == t
  {
    var k := from + |x|;
    assert s[from..k] == x;
    assert s[k] == '.';
    NoDotIn(s, from, x);
    FindFirst(Dot, s, from, k);
    assert s[k + 1..] == t;
  }

  /** The split of a join of dot-free pieces, the last one non-empty, is those pieces. */
  lemma SplitOfJoinDot(ps: seq<string>)
    requires ps != [] && ps[|ps| - 1] != []
    requires forall i | 0 <= i < |ps| :: DotFree(ps[i])
    ensures Split(Dot, Join(".", ps)) == ps
  {
    var s := Join(".", ps);
    assert s[0..] == s;
    DotPiecesOfJoin(s, 0, ps);
  }

  /** Joining one more piece appends the separator and the piece. */
  lemma {:induction false} JoinSnoc(sep: string, ps: seq<string>, x: string)
    requires ps != []
    ensures Join(sep, ps + [x]) == Join(sep, ps) + sep + x
    decreases |ps|
  {
    if |ps| == 1 {
      assert ps + [x] == [ps[0]] + [x];
      JoinCons(sep, ps[0], [x]);
    } else {
      assert ps + [x] == [ps[0]] + (ps[1..] + [x]);
      JoinCons(sep, ps[0], ps[1..] + [x]);
      JoinSnoc(sep, ps[1..], x);
      assert ps == [ps[0]] + ps[1..];
      JoinCons(sep, ps[0], ps[1..]);
    }
  }

  /** Dropping trailing empties removes exactly one appended empty piece. */
  lemma DropOneEmpty(ps: seq<string>)
    requires ps != [] && ps[|ps| - 1] != []
    ensures DropTrailingEmpty(ps + [""]) == ps
  {
    assert (ps + [""])[..|ps|] == ps;
  }

  /** The pieces of the join of dot-free pieces followed by '.': those pieces and an empty one. */
  lemma TrailingDotPiecesOf(ps: seq<string>, t: string)
    requires ps != [] && forall i | 0 <= i < |ps| :: DotFree(ps[i])
    requires t == Join(".", ps) + "."
    ensures Pieces(Dot, t, 0) == ps + [""]
  {
    var qs := ps + [""];
    JoinSnoc(".", ps, "");
    assert forall i | 0 <= i < |qs| :: DotFree(qs[i]);
    assert t[0..] == t;
    DotPiecesOfJoin(t, 0, qs);
  }

  /** A '.' after the join of dot-free pieces only adds an empty piece, which the split drops. */
  lemma SplitOfJoinDotTrailing(ps: seq<string>)
    requires ps != [] && ps[|ps| - 1] != []
    requires forall i | 0 <= i < |ps| :: DotFree(ps[i])
    ensures Split(Dot, Join(".", ps) + ".") == ps
  {
    var t := Join(".", ps) + ".";
    TrailingDotPiecesOf(ps, t);
    DropOneEmpty(ps);
  }
}
