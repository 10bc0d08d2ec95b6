// The string-concatenation SQL injection rule: the parts of a `+`
// expression are gathered into the SQL text that precedes each variable
// part, and those texts go to the additive-fragment classifier.

module PolyadicSqli {
  import opened Wrappers
  import opened JavaString
  import opened Patterns
  import opened Sqli
  import opened BaseSqli
  import opened ExpressionUtils

  /**
   * What the rule reads of one part of the concatenation: whether its type
   * can carry SQL text, its literal value if it is a literal, whether it has
   * a text, and its forced text.
   */
  datatype Fragment = Fragment(care: bool, literal: Option<string>, isText: bool, text: string)

  function FragmentOf(x: Expr): Fragment {
    Fragment(IsSqliCare(x), LiteralInnerText(x), IsText(x), GetText(x, true).value)
  }

  function FragmentsOf(xs: seq<Expr>): (r: seq<Fragment>)
    ensures |r| == |xs| && forall i | 0 <= i < |xs| :: r[i] == FragmentOf(xs[i])
  {
    seq(|xs|, i requires 0 <= i < |xs| => FragmentOf(xs[i]))
  }

  /** A part of SQL-relevant type that is not a literal: it ends a segment. */
  predicate Variable(f: Fragment) {
    f.care && f.literal.None?
  }

  /** What a part adds to the buffer: a literal its value, any part of another type "?". */
  function Contribution(f: Fragment): string {
    if !f.care then "?" else if f.literal.Some? then f.literal.value else []
  }

  // ---------------------------------------------------------------------
  // Segments
  // ---------------------------------------------------------------------

  /**
   * The segments collected from `fs` on, with `sb` already in the buffer:
   * a variable part closes the buffer as a segment when it is not empty;
   * every other part adds its contribution. What is left in the buffer at
   * the end is not a segment.
   */
  function SegmentsFrom(fs: seq<Fragment>, sb: string): (r: seq<string>)
    ensures forall k | 0 <= k < |r| :: r[k] != []
    ensures |r| <= VariableCount(fs)
    decreases |fs|
  {
    if fs == [] then []
    else if Variable(fs[0]) then
      (if sb != [] then [sb] + SegmentsFrom(fs[1..], []) else SegmentsFrom(fs[1..], []))
    else SegmentsFrom(fs[1..], sb + Contribution(fs[0]))
  }

  function Segments(fs: seq<Fragment>): seq<string> {
    SegmentsFrom(fs, [])
  }

  function VariableCount(fs: seq<Fragment>): nat {
    if fs == [] then 0 else (if Variable(fs[0]) then 1 else 0) + VariableCount(fs[1..])
  }

  /** Some variable part has no text of its own. */
  predicate HasVar(fs: seq<Fragment>) {
    exists i | 0 <= i < |fs| :: Variable(fs[i]) && !fs[i].isText
  }

  /** Every contribution, in order: the text the segments are cut from. */
  function Rendered(fs: seq<Fragment>): string {
    if fs == [] then [] else Contribution(fs[0]) + Rendered(fs[1..])
  }

  /** The segments joined together are a prefix of the buffer plus everything rendered after it. */
  lemma {:induction false} SegmentsArePrefix(fs: seq<Fragment>, sb: string)
    ensures Join([], SegmentsFrom(fs, sb)) <= sb + Rendered(fs)
    decreases |fs|
  {
    if fs != [] {
      var f, rest := fs[0], fs[1..];
      assert Rendered(fs) == Contribution(f) + Rendered(rest);
      if Variable(f) {
        SegmentsArePrefix(rest, []);
        VariableCloses(f, rest, sb);
      } else {
        SegmentsArePrefix(rest, sb + Contribution(f));
        assert (sb + Contribution(f)) + Rendered(rest) == sb + Rendered(fs);
      }
    }
  }

  /** The step of SegmentsArePrefix at a variable part, which contributes nothing. */
  lemma VariableCloses(f: Fragment, rest: seq<Fragment>, sb: string)
    requires Variable(f)
    requires Join([], SegmentsFrom(rest, [])) <= [] + Rendered(rest)
    ensures Join([], SegmentsFrom([f] + rest, sb)) <= sb + Rendered([f] + rest)
  {
    var fs := [f] + rest;
    assert fs[0] == f && fs[1..] == rest;
    var tail := SegmentsFrom(rest, []);
    assert [] + Rendered(rest) == Rendered(rest);
    assert Rendered(fs) == Rendered(rest);
    if sb != [] {
      JoinFront(sb, tail);
      PrefixAfter(sb, Join([], tail), Rendered(rest));
    } else {
      assert sb + Rendered(fs) == Rendered(rest);
    }
  }

  /** Parts after the last variable part never reach a segment. */
  lemma {:induction false} TrailingPartsIgnored(fs: seq<Fragment>, tail: seq<Fragment>, sb: string)
    requires forall i | 0 <= i < |tail| :: !Variable(tail[i])
    ensures SegmentsFrom(fs + tail, sb) == SegmentsFrom(fs, sb)
    decreases |fs|
  {
    if fs == [] {
      assert fs + tail == tail;
      ConstantPartsNoSegment(tail, sb);
    } else {
      assert (fs + tail)[1..] == fs[1..] + tail;
      assert (fs + tail)[0] == fs[0];
      if Variable(fs[0]) {
        TrailingPartsIgnored(fs[1..], tail, []);
      } else {
        TrailingPartsIgnored(fs[1..], tail, sb + Contribution(fs[0]));
      }
    }
  }

  /** Without a variable part there is no segment at all. */
  lemma {:induction false} ConstantPartsNoSegment(fs: seq<Fragment>, sb: string)
    requires forall i | 0 <= i < |fs| :: !Variable(fs[i])
    ensures SegmentsFrom(fs, sb) == []
    decreases |fs|
  {
    if fs != [] {
      assert forall i | 0 <= i < |fs[1..]| :: fs[1..][i] == fs[i + 1];
      ConstantPartsNoSegment(fs[1..], sb + Contribution(fs[0]));
    }
  }

  /**
   * The segment loop of visitPolyadicExpression: a buffer that grows with
   * each literal and "?", and is pushed as a segment and emptied at each
   * variable part; the flag records a variable part without text.
   */
  method BuildSegments(fs: seq<Fragment>) returns (segments: seq<string>, hasVar: bool)
    ensures segments == Segments(fs)
    ensures hasVar == HasVar(fs)
  {
    segments, hasVar := [], false;
    var sb: string := [];
    var i := 0;
    while i < |fs|
      invariant 0 <= i <= |fs|
      invariant segments + SegmentsFrom(fs[i..], sb) == Segments(fs)
      invariant hasVar <==> exists j | 0 <= j < i :: Variable(fs[j]) && !fs[j].isText
      decreases |fs| - i
    {
      var f := fs[i];
      assert fs[i..][0] == f && fs[i..][1..] == fs[i + 1..];
      if f.care {
        if f.literal.None? {
          if sb != [] {
            segments := segments + [sb];
            sb := [];
          }
          if !f.isText {
            hasVar := true;
          }
        } else {
          sb := sb + f.literal.value;
        }
      } else {
        sb := sb + "?";
      }
      i := i + 1;
    }
    assert fs[i..] == [];
    assert segments + [] == segments;
  }

  // ---------------------------------------------------------------------
  // The report decision
  // ---------------------------------------------------------------------

  /** The forced texts of the parts, joined: the string judged as SQL. */
  function ExpStr(fs: seq<Fragment>): string {
    if fs == [] then [] else fs[0].text + ExpStr(fs[1..])
  }

  /**
   * hasPlaceholderProblem: a format-style text that is SQL and whose
   * pieces around its placeholders are vulnerable.
   */
  predicate HasPlaceholderProblem(content: string) {
    Find(Placeholder, content, 0).Some? && IsSql(content) &&
    (SqlSplitOnPlaceholderNonEmpty(content);
     HasVulOnAdditiveFragments(CheckedFragments(Placeholder, content)))
  }

  datatype Verdict = NoReport | ConcatReport | PlaceholderReport

  /**
   * visitPolyadicExpression on the deconstructed parts `fs`, with
   * `ignored` the verdict of ignoreMethodName on the expression.
   */
  function Decide(fs: seq<Fragment>, ignored: bool): Verdict {
    if fs == [] || !IsSql(ExpStr(fs)) then NoReport
    else
      var segments := Segments(fs);
      if segments == [] || !HasVar(fs) || !HasVulOnAdditiveFragments(segments) then
        (if HasPlaceholderProblem(ExpStr(fs)) && !ignored then PlaceholderReport else NoReport)
      else if !ignored then ConcatReport
      else NoReport
  }

  /** The concatenation is reported exactly under the five conditions of the rule. */
  lemma ConcatReportIff(fs: seq<Fragment>, ignored: bool)
    ensures Decide(fs, ignored) == ConcatReport <==>
              fs != [] && IsSql(ExpStr(fs)) && Segments(fs) != [] && HasVar(fs)
              && (exists f | f in Segments(fs) :: FragmentVulnerable(f))
              && !ignored
  {
  }

  /** When the concatenation is not reported, the placeholder message is reported exactly when its test holds. */
  lemma PlaceholderReportIff(fs: seq<Fragment>, ignored: bool)
    ensures Decide(fs, ignored) == PlaceholderReport <==>
              fs != [] && IsSql(ExpStr(fs))
              && (Segments(fs) == [] || !HasVar(fs) || !HasVulOnAdditiveFragments(Segments(fs)))
              && HasPlaceholderProblem(ExpStr(fs)) && !ignored
  {
  }

  /** Without segments only the placeholder check can report. */
  lemma DecideWithoutSegments(fs: seq<Fragment>, ignored: bool)
    requires Segments(fs) == []
    ensures Decide(fs, ignored) != ConcatReport
    ensures Find(Placeholder, ExpStr(fs), 0).None? ==> Decide(fs, ignored) == NoReport
  {
  }

  /** A concatenation of constants alone is never reported as a concatenation. */
  lemma ConstantsNeverConcatReport(fs: seq<Fragment>, ignored: bool)
    requires forall i | 0 <= i < |fs| :: !Variable(fs[i])
    ensures Decide(fs, ignored) != ConcatReport
    ensures Find(Placeholder, ExpStr(fs), 0).None? ==> Decide(fs, ignored) == NoReport
  {
    ConstantPartsNoSegment(fs, []);
    DecideWithoutSegments(fs, ignored);
  }

  /** A variable part with a text of its own does not make the concatenation suspicious. */
  lemma TextVariablesNeverConcatReport(fs: seq<Fragment>, ignored: bool)
    requires forall i | 0 <= i < |fs| :: Variable(fs[i]) ==> fs[i].isText
    ensures Decide(fs, ignored) != ConcatReport
  {
  }

  /** A logging call is never reported. */
  lemma IgnoredNeverReported(fs: seq<Fragment>)
    ensures Decide(fs, true) == NoReport
  {
  }

  /**
   * The rule on a concatenation expression, given the method calls around
   * it (innermost first): deconstruct, join the texts, build the segments
   * and decide.
   */
  method VisitPolyadic(e: Expr, enclosing: seq<EnclosingCall>) returns (v: Verdict)
    ensures v == Decide(FragmentsOf(Decon(e)), IgnoreMethodName(enclosing))
  {
    var exps := DeconOf(e);
    var fs := FragmentsOf(exps);
    if fs == [] {
      return NoReport;
    }
    var expStr := ExpStr(fs);
    if !IsSql(expStr) {
      return NoReport;
    }
    var segments, hasVar := BuildSegments(fs);
    var ignored := IgnoreMethodName(enclosing);
    if segments == [] || !hasVar || !HasVulOnAdditiveFragments(segments) {
      if HasPlaceholderProblem(expStr) && !ignored {
        return PlaceholderReport;
      }
      return NoReport;
    }
    if !ignored {
      return ConcatReport;
    }
    return NoReport;
  }
}
