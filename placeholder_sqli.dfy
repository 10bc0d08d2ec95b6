// The String.format SQL injection rule: the format text is cut at its
// placeholders, and the text before each SQL-relevant argument becomes a
// fragment for the additive-fragment classifier.

module PlaceholderSqli {
  import opened Wrappers
  import opened JavaString
  import opened Patterns
  import opened Sqli
  import opened BaseSqli
  import opened ExpressionUtils

  /** The initializer of a local variable: a literal (with its value, if it has one) or anything else. */
  datatype Init = LiteralInit(inner: Option<string>) | OtherInit

  /** Where an argument's text can come from. */
  datatype Origin =
    | LiteralArg(inner: Option<string>)
    | LocalVar(init: Option<Init>)
    | OtherArg

  /** An argument of the call: its type, where its text comes from, and whether its type can carry SQL text. */
  datatype FormatArg = FormatArg(jtype: Option<JType>, origin: Origin, care: bool)

  /** The format text is the first argument, or the second when the first is a Locale. */
  function FormatIndex(args: seq<FormatArg>): (idx: nat)
    requires args != []
    ensures idx <= 1
    ensures idx == 1 <==> args[0].jtype.Some? && args[0].jtype.value.presentable == "Locale"
  {
    if args[0].jtype.Some? && args[0].jtype.value.presentable == "Locale" then 1 else 0
  }

  /** The text of a literal, or of a local variable's literal initializer; nothing otherwise. */
  function FormatText(a: FormatArg): (r: Option<string>)
    ensures r.Some? ==> a.origin.LiteralArg? || (a.origin.LocalVar? && a.origin.init == Some(LiteralInit(r)))
  {
    match a.origin
    case LiteralArg(inner) => inner
    case LocalVar(init) => if init.Some? && init.value.LiteralInit? then init.value.inner else None
    case OtherArg => None
  }

  /**
   * The fragments built from the pieces, with piece i standing before
   * argument j + i: the buffer gets the piece, then is pushed and emptied
   * when that argument exists and is SQL-relevant, or gets "?" otherwise.
   * Explicit argument indices in the placeholders play no part.
   */
  function ConcatFrom(pieces: seq<string>, args: seq<FormatArg>, j: nat, sb: string): (r: seq<string>)
    ensures |r| == CareCount(|pieces|, args, j)
    decreases |pieces|
  {
    if pieces == [] then []
    else
      var acc := sb + pieces[0];
      if j < |args| && args[j].care then [acc] + ConcatFrom(pieces[1..], args, j + 1, [])
      else ConcatFrom(pieces[1..], args, j + 1, acc + "?")
  }

  /** How many of the n arguments from j on exist and are SQL-relevant. */
  function CareCount(n: nat, args: seq<FormatArg>, j: nat): nat
    decreases n
  {
    if n == 0 then 0 else (if j < |args| && args[j].care then 1 else 0) + CareCount(n - 1, args, j + 1)
  }

  /** What the buffer sees, in order: each piece, with "?" after it when its argument is not SQL-relevant. */
  function Rendered(pieces: seq<string>, args: seq<FormatArg>, j: nat): string
    decreases |pieces|
  {
    if pieces == [] then []
    else pieces[0] + (if j < |args| && args[j].care then [] else "?") + Rendered(pieces[1..], args, j + 1)
  }

  /** The fragments joined together are a prefix of the buffer plus everything rendered. */
  lemma {:induction false} FragmentsArePrefix(pieces: seq<string>, args: seq<FormatArg>, j: nat, sb: string)
    ensures Join([], ConcatFrom(pieces, args, j, sb)) <= sb + Rendered(pieces, args, j)
    decreases |pieces|
  {
    if pieces != [] {
      var p, rest := pieces[0], pieces[1..];
      assert pieces == [p] + rest;
      if j < |args| && args[j].care {
        FragmentsArePrefix(rest, args, j + 1, []);
        CareArgumentCloses(p, rest, args, j, sb);
      } else {
        FragmentsArePrefix(rest, args, j + 1, sb + p + "?");
        OtherArgumentExtends(p, rest, args, j, sb);
      }
    }
  }

  /** The step of FragmentsArePrefix at an SQL-relevant argument. */
  lemma CareArgumentCloses(p: string, rest: seq<string>, args: seq<FormatArg>, j: nat, sb: string)
    requires j < |args| && args[j].care
    requires Join([], ConcatFrom(rest, args, j + 1, [])) <= [] + Rendered(rest, args, j + 1)
    ensures Join([], ConcatFrom([p] + rest, args, j, sb)) <= sb + Rendered([p] + rest, args, j)
  {
    var r := Rendered(rest, args, j + 1);
    assert [] + r == r;
    CareStep(p, rest, args, j, sb);
    PrefixCons(sb, p, ConcatFrom(rest, args, j + 1, []), r);
  }

  /** A fragment in front of fragments whose join is a prefix of r: the join is a prefix of the fragment and r. */
  lemma PrefixCons(sb: string, p: string, tail: seq<string>, r: string)
    requires Join([], tail) <= r
    ensures Join([], [sb + p] + tail) <= sb + (p + r)
  {
    JoinFront(sb + p, tail);
    PrefixAfter(sb + p, Join([], tail), r);
    assert sb + (p + r) == (sb + p) + r;
  }

  /** One SQL-relevant argument: the buffer with its piece becomes a fragment, and nothing is rendered after the piece. */
  lemma CareStep(p: string, rest: seq<string>, args: seq<FormatArg>, j: nat, sb: string)
    requires j < |args| && args[j].care
    ensures ConcatFrom([p] + rest, args, j, sb) == [sb + p] + ConcatFrom(rest, args, j + 1, [])
    ensures Rendered([p] + rest, args, j) == p + Rendered(rest, args, j + 1)
  {
    var pieces := [p] + rest;
    assert pieces[0] == p && pieces[1..] == rest;
    assert p + [] == p;
  }

  /** The step of FragmentsArePrefix at any other argument. */
  lemma OtherArgumentExtends(p: string, rest: seq<string>, args: seq<FormatArg>, j: nat, sb: string)
    requires !(j < |args| && args[j].care)
    requires Join([], ConcatFrom(rest, args, j + 1, sb + p + "?")) <= (sb + p + "?") + Rendered(rest, args, j + 1)
    ensures Join([], ConcatFrom([p] + rest, args, j, sb)) <= sb + Rendered([p] + rest, args, j)
  {
    var pieces := [p] + rest;
    assert pieces[0] == p && pieces[1..] == rest;
    var r := Rendered(rest, args, j + 1);
    assert Rendered(pieces, args, j) == p + "?" + r;
    assert (sb + p + "?") + r == sb + (p + "?" + r);
  }

  /** Without an SQL-relevant argument after the format text there is no fragment. */
  lemma {:induction false} NoCareArgumentNoFragment(pieces: seq<string>, args: seq<FormatArg>, j: nat)
    requires forall k | j <= k < |args| :: !args[k].care
    ensures CareCount(|pieces|, args, j) == 0
    decreases |pieces|
  {
    if pieces != [] {
      NoCareArgumentNoFragment(pieces[1..], args, j + 1);
    }
  }

  /**
   * visitMethodCallExpression on a call with the given arguments:
   * `isFormat` says whether it is java.lang.String.format, `ignored` is
   * ignoreMethodName on the call. Ok(true) is a report. A call whose only
   * argument is a Locale reads past the end of the argument array.
   */
  function Check(isFormat: bool, args: seq<FormatArg>, ignored: bool): Result<bool> {
    if !isFormat || args == [] then Ok(false)
    else
      var idx := FormatIndex(args);
      if idx >= |args| then Failure("ArrayIndexOutOfBoundsException")
      else Ok(FormatVerdict(FormatText(args[idx]), args, idx, ignored))
  }

  /** The verdict on the format text found at `idx`: SQL with a placeholder, and a vulnerable fragment. */
  function FormatVerdict(content: Option<string>, args: seq<FormatArg>, idx: nat, ignored: bool): bool {
    if content.None? || Find(Placeholder, content.value, 0).None? || !IsSql(content.value) then false
    else
      SqlSplitOnPlaceholderNonEmpty(content.value);
      var pieces := CheckedFragments(Placeholder, content.value);
      HasVulOnAdditiveFragments(ConcatFrom(pieces, args, idx + 1, [])) && !ignored
  }

  /** No report without an SQL-relevant argument after the format text. */
  lemma NoCareArgumentNoReport(isFormat: bool, args: seq<FormatArg>, ignored: bool)
    requires forall k | 0 <= k < |args| :: !args[k].care
    ensures Check(isFormat, args, ignored) != Ok(true)
  {
    if isFormat && args != [] && FormatIndex(args) < |args| {
      NoCareArgumentNoVerdict(FormatText(args[FormatIndex(args)]), args, FormatIndex(args), ignored);
    }
  }

  lemma NoCareArgumentNoVerdict(content: Option<string>, args: seq<FormatArg>, idx: nat, ignored: bool)
    requires forall k | idx + 1 <= k < |args| :: !args[k].care
    ensures !FormatVerdict(content, args, idx, ignored)
  {
    if content.Some? && Find(Placeholder, content.value, 0).Some? && IsSql(content.value) {
      SqlSplitOnPlaceholderNonEmpty(content.value);
      NoCareArgumentNoFragment(CheckedFragments(Placeholder, content.value), args, idx + 1);
    }
  }

  /** A report needs a format text that has a placeholder and is SQL, and a call that is not a logging call. */
  lemma ReportNeeds(isFormat: bool, args: seq<FormatArg>, ignored: bool)
    requires Check(isFormat, args, ignored) == Ok(true)
    ensures isFormat && args != [] && !ignored
    ensures var idx := FormatIndex(args);
            idx < |args| && FormatText(args[idx]).Some?
            && Find(Placeholder, FormatText(args[idx]).value, 0).Some? && IsSql(FormatText(args[idx]).value)
  {
    var idx := FormatIndex(args);
    assert FormatVerdict(FormatText(args[idx]), args, idx, ignored);
  }

  /** A Locale first moves the format text to the second argument. */
  lemma LocaleShiftsFormat(isFormat: bool, loc: FormatArg, a: FormatArg, rest: seq<FormatArg>, ignored: bool)
    requires loc.jtype == Some(JType("java.util.Locale", "Locale"))
    requires FormatText(a).None?
    ensures Check(isFormat, [loc, a] + rest, ignored) == Ok(false)
  {
  }

  /**
   * The rule as the source runs it: the index, the format text, the split
   * with its last piece dropped when the text ends with it, and the loop
   * that pairs each piece with the next argument.
   */
  method VisitFormatCall(isFormat: bool, args: seq<FormatArg>, enclosing: seq<EnclosingCall>) returns (r: Result<bool>)
    ensures r == Check(isFormat, args, IgnoreMethodName(enclosing))
  {
    if !isFormat || |args| == 0 {
      return Ok(false);
    }
    var idx := 0;
    if args[0].jtype.Some? && args[0].jtype.value.presentable == "Locale" {
      idx := idx + 1;
    }
    if idx >= |args| {
      return Failure("ArrayIndexOutOfBoundsException");
    }
    var content := FormatText(args[idx]);
    if content.None? || Find(Placeholder, content.value, 0).None? || !IsSql(content.value) {
      return Ok(false);
    }
    SqlSplitOnPlaceholderNonEmpty(content.value);
    var split := Split(Placeholder, content.value);
    if EndsWith(content.value, split[|split| - 1]) {
      split := split[..|split| - 1];
    }
    var concat := ConcatOf(split, args, idx + 1);
    r := Ok(HasVulOnAdditiveFragments(concat) && !IgnoreMethodName(enclosing));
  }

  /**
   * The loop of visitMethodCallExpression: each piece goes into the
   * buffer, which is pushed and emptied when the argument after the piece
   * exists and is SQL-relevant, and otherwise gets "?".
   */
  method ConcatOf(pieces: seq<string>, args: seq<FormatArg>, start: nat) returns (concat: seq<string>)
    ensures concat == ConcatFrom(pieces, args, start, [])
  {
    concat := [];
    var sb: string := [];
    var idx := start;
    var i := 0;
    while i < |pieces|
      invariant 0 <= i <= |pieces| && idx == start + i
      invariant concat + ConcatFrom(pieces[i..], args, idx, sb) == ConcatFrom(pieces, args, start, [])
      decreases |pieces| - i
    {
      assert pieces[i..][0] == pieces[i] && pieces[i..][1..] == pieces[i + 1..];
      sb := sb + pieces[i];
      if idx < |args| && args[idx].care {
        concat := concat + [sb];
        sb := [];
      } else {
        sb := sb + "?";
      }
      idx := idx + 1;
      i := i + 1;
    }
    assert pieces[i..] == [];
    assert concat + [] == concat;
  }
}
