/**
 * MybatisAnnotationSQLi.java: detection of `${...}` splices in the SQL text
 * of MyBatis @Select/@Delete/@Update/@Insert annotations, and the quick fix
 * that rewrites them into `#{...}` bind parameters.
 */
module MybatisAnnotation {
  import opened Wrappers
  import opened JavaString
  import opened Patterns
  import opened Sqli

  // ---------------------------------------------------------------------
  // hasSQLi
  // ---------------------------------------------------------------------

  const ScriptOpen: string := "<script>"
  const ScriptClose: string := "</script>"

  predicate ScriptWrapped(content: string) {
    StartsWith(content, ScriptOpen) && EndsWith(content, ScriptClose)
  }

  /** The opening and closing script tags cannot overlap, so the inner text exists. */
  lemma ScriptWrappedLength(content: string)
    requires ScriptWrapped(content)
    ensures |content| >= |ScriptOpen| + |ScriptClose|
  {
    var p := |content| - |ScriptClose|;
    assert content[p] == ScriptClose[0] == '<';
    assert content[p + 1] == ScriptClose[1] == '/';
    assert forall i | 0 <= i < |ScriptOpen| :: content[i] == ScriptOpen[i];
    assert forall i | 0 < i < |ScriptOpen| :: ScriptOpen[i] != '<';
  }

  /** The text inside a `<script>...</script>` wrapper, or the whole text. */
  function Unwrapped(content: string): (r: string)
    ensures ScriptWrapped(content) ==> content == ScriptOpen + r + ScriptClose
    ensures !ScriptWrapped(content) ==> r == content
  {
    if ScriptWrapped(content) then
      ScriptWrappedLength(content);
      content[8..|content| - 9]
    else content
  }

  /**
   * The fragments judged for an annotation text: None when the split on
   * `${...}` leaves the text whole (no splice); otherwise the pieces, the
   * last one dropped when there are several.
   */
  function SpliceFragments(content: string): Option<seq<string>>
  {
    var text := Unwrapped(content);
    var fragments := Split(DollarVar, text);
    if |fragments| == 1 && fragments[0] == text then None
    else if |fragments| > 1 then Some(fragments[..|fragments| - 1])
    else Some(fragments)
  }

  /** hasSQLi: a spliced annotation text is flagged when a fragment is judged unsafe. */
  method HasSQLi(content: string) returns (r: bool)
    ensures r <==> SpliceFragments(content).Some? && HasVulOnAdditiveFragments(SpliceFragments(content).value)
  {
    var text := content;
    if StartsWith(text, ScriptOpen) && EndsWith(text, ScriptClose) {
      ScriptWrappedLength(text);
      text := text[8..|text| - 9];
    }
    var fragments := Split(DollarVar, text);
    if |fragments| == 1 && fragments[0] == text {
      return false;
    }
    if |fragments| > 1 {
      fragments := fragments[..|fragments| - 1];
    }
    r := HasVulOnAdditiveFragments(fragments);
  }

  /** A text without any `${...}` splice is never flagged. */
  lemma NoSpliceNotFlagged(content: string)
    requires Find(DollarVar, Unwrapped(content), 0).None?
    ensures SpliceFragments(content).None?
  {
  }

  /** `${v}` with a name of non-space characters other than '}'. */
  predicate SpliceName(v: string) {
    v != [] && forall k | 0 <= k < |v| :: !IsSpace(v[k]) && v[k] != '}'
  }

  lemma {:induction false} CloseBraceOfName(s: string, j: nat, v: string)
    requires j <= |s| && j + |v| < |s|
    requires s[j..j + |v|] == v && s[j + |v|] == '}'
    requires forall k | 0 <= k < |v| :: !IsSpace(v[k]) && v[k] != '}'
    ensures CloseBrace(s, j) == Some(j + |v| + 1)
    decreases |v|
  {
    if v != [] {
      assert s[j] == v[0];
      assert s[j + 1..j + 1 + |v[1..]|] == v[1..];
      CloseBraceOfName(s, j + 1, v[1..]);
    }
  }

  /** `${v}` at the end of a text is a match running to the end. */
  lemma TrailingSpliceMatches(p: string, v: string)
    requires SpliceName(v)
    ensures var t := p + "${" + v + "}";
            MatchAt(DollarVar, t, |p|) == Some(|t|)
  {
    var t := p + "${" + v + "}";
    var st := |p|;
    assert t[st] == '$' && t[st + 1] == '{' && t[st + 2] == v[0];
    assert t[st + 3..st + 3 + |v[1..]|] == v[1..];
    assert t[st + 3 + |v[1..]|] == '}';
    CloseBraceOfName(t, st + 3, v[1..]);
  }

  /** No match starts before position k of a text with no `$` before k. */
  lemma NoDollarNoMatch(t: string, k: nat)
    requires k <= |t| && forall j | 0 <= j < k :: t[j] != '$'
    ensures forall j | 0 <= j < k :: MatchAt(DollarVar, t, j).None?
  {
  }

  /** The only match in p + "${" + v + "}", when p has no `$`, is the trailing splice. */
  lemma TrailingSpliceFound(p: string, v: string)
    requires '$' !in p && SpliceName(v)
    ensures var t := p + "${" + v + "}";
            Find(DollarVar, t, 0) == Some((|p|, |t|)) && Find(DollarVar, t, |t|).None?
  {
    var t := p + "${" + v + "}";
    TrailingSpliceMatches(p, v);
    assert forall j | 0 <= j < |p| :: t[j] == p[j];
    NoDollarNoMatch(t, |p|);
    FindFirst(DollarVar, t, 0, |p|);
  }

  /**
   * A text whose only splice is a trailing `${v}` is judged by the text
   * before it: split discards the empty piece after the splice, and that
   * leaves exactly one fragment.
   */
  lemma TrailingSpliceJudgedByPrefix(p: string, v: string)
    requires p != [] && '$' !in p && SpliceName(v)
    requires !ScriptWrapped(p + "${" + v + "}")
    ensures SpliceFragments(p + "${" + v + "}") == Some([p])
  {
    var t := p + "${" + v + "}";
    TrailingSpliceFound(p, v);
    assert t[|t|..] == [];
    assert Pieces(DollarVar, t, |t|) == [[]];
    assert t[..|p|] == p;
    assert Pieces(DollarVar, t, 0) == [p, []];
    assert DropTrailingEmpty([p, []]) == DropTrailingEmpty([p]) == [p];
  }

  // ---------------------------------------------------------------------
  // replaceDollarWithHashtagOnString
  // ---------------------------------------------------------------------

  /** Characters stripped around a LIKE splice. */
  const LikeStrip: string := "'\"% "

  /** The CONCAT expression a LIKE splice becomes. */
  function LikeConcat(inner: string): (r: string)
    ensures '$' !in r
    ensures |r| >= 2 && r[|r| - 2] == ')' && r[|r| - 1] == ' '
  {
    var h := ReplaceChar(inner, '$', '#');
    assert forall k | 0 <= k < |h| :: h[k] != '$';
    " CONCAT('%', " + h + ", '%') "
  }

  /** `$` becomes `#` in a splice `${name}` whose name holds no `$`. */
  lemma SpliceHashed(name: string)
    requires '$' !in name
    ensures ReplaceChar("${" + name + "}", '$', '#') == "#{" + name + "}"
  {
    var h := ReplaceChar("${" + name + "}", '$', '#');
    assert h[0] == '#' && h[1] == '{' && h[|h| - 1] == '}';
    assert forall i | 2 <= i < |h| - 1 :: h[i] == name[i - 2];
  }

  /** A LIKE splice `${name}` becomes exactly ` CONCAT('%', #{name}, '%') `. */
  lemma LikeConcatOfSplice(name: string)
    requires '$' !in name
    ensures LikeConcat("${" + name + "}") == " CONCAT('%', #{" + name + "}, '%') "
  {
    SpliceHashed(name);
  }

  /**
   * Removing the quotes around a plain splice: when the right-trimmed prefix
   * ends in a quote, the prefix keeps its first length-1 characters after
   * right-trimming, and the suffix loses its first character after
   * left-trimming. Either cut fails when the text is too short.
   */
  function Unquote(prefix: string, suffix: string): (r: Result<(string, string)>)
    ensures r.Ok? ==> |prefix| - 1 <= |r.value.0| <= |prefix| && r.value.0 == prefix[..|r.value.0|]
    ensures r.Ok? ==> |r.value.1| <= |suffix| && r.value.1 == suffix[|suffix| - |r.value.1|..]
  {
    var trimmed := RTrim(prefix);
    if EndsWith(trimmed, "'") || EndsWith(trimmed, "\"") then
      if |prefix| - 1 <= |trimmed| && LTrim(suffix) != [] then
        Ok((trimmed[..|prefix| - 1], LTrim(suffix)[1..]))
      else Failure("StringIndexOutOfBoundsException")
    else Ok((prefix, suffix))
  }

  /**
   * With the quote right before the splice, the quote goes; with one
   * whitespace character between them, the whitespace goes and the quote
   * stays; with more, the prefix cut is out of bounds.
   */
  lemma UnquoteByGap(q: string, quote: char, w: string, suffix: string)
    requires quote == '\'' || quote == '"'
    requires forall i | 0 <= i < |w| :: IsSpace(w[i])
    requires LTrim(suffix) != []
    ensures var r := Unquote(q + [quote] + w, suffix);
            (|w| == 0 ==> r == Ok((q, LTrim(suffix)[1..])))
            && (|w| == 1 ==> r == Ok((q + [quote], LTrim(suffix)[1..])))
            && (|w| >= 2 ==> r.Failure?)
  {
    var x := q + [quote];
    RTrimPadded(x, w);
    assert x[..|q|] == q;
    assert x[..|x|] == x;
  }

  lemma TailOf3(a: string, b: string, c: string)
    ensures (a + b + c)[|a| + |b|..] == c
  {
  }

  lemma LikeTail(p2: string, concat: string, s2: string)
    requires |concat| >= 1 && concat[|concat| - 1] == ' '
    ensures (p2 + concat + s2)[|p2| + |concat| - 1..] == [' '] + s2
  {
  }

  lemma CountSuffix(s: string, k: nat)
    requires k <= |s|
    ensures Count(s[k..], '$') <= Count(s, '$')
  {
    assert s == s[..k] + s[k..];
    CountAppend(s[..k], s[k..], '$');
  }

  lemma CountSplit(s: string, k: nat)
    requires k <= |s|
    ensures Count(s, '$') == Count(s[..k], '$') + Count(s[k..], '$')
  {
    assert s == s[..k] + s[k..];
    CountAppend(s[..k], s[k..], '$');
  }

  /** The `$` of a match is behind the resume point, so fewer remain. */
  lemma MatchConsumesDollar(content: string, offset: nat, st: nat, en: nat, rest: string)
    requires offset <= st < en <= |content| && content[st] == '$'
    requires |rest| <= |content| - en && rest == content[|content| - |rest|..]
    ensures Count(rest, '$') < Count(content[offset..], '$')
  {
    var from := content[offset..];
    CountSplit(from, st - offset);
    assert from[st - offset..] == content[st..];
    var at := content[st..];
    assert at[0] == '$' && at[1..] == content[st + 1..];
    CountSuffix(content[st + 1..], en - st - 1);
    assert content[st + 1..][en - st - 1..] == content[en..];
    var tail := content[en..];
    assert rest == tail[|tail| - |rest|..];
    CountSuffix(tail, |tail| - |rest|);
  }

  /** How a splice is rewritten, from the text before it. */
  datatype SpliceKind = SafeStop | WhereIn | Like | Plain

  /**
   * The decision of replaceDollarWithHashtagOnString on a splice: a prefix
   * judged safe stops the rewrite; otherwise the lower-cased prefix is
   * tested against the where-in pattern, then the LIKE pattern.
   */
  function KindOf(prefix: string): (k: SpliceKind)
    ensures k == SafeStop <==> !HasVulOnAdditiveFragments([prefix])
    ensures k == WhereIn ==> WhereInEnd(Lower(prefix))
    ensures k == Like ==> LikeEnd(Lower(prefix)) && !WhereInEnd(Lower(prefix))
    ensures k == Plain ==> !LikeEnd(Lower(prefix)) && !WhereInEnd(Lower(prefix))
  {
    if !HasVulOnAdditiveFragments([prefix]) then SafeStop
    else if WhereInEnd(Lower(prefix)) then WhereIn
    else if LikeEnd(Lower(prefix)) then Like
    else Plain
  }

  /**
   * A LIKE splice content[st..en] becomes CONCAT('%', #{...}, '%'), with
   * the quote, percent and space characters around it stripped; the
   * rewrite resumes on the space that closes the CONCAT.
   */
  function LikeStep(content: string, st: nat, en: nat): (string, nat)
    requires st < en <= |content|
  {
    var concat := LikeConcat(content[st..en]);
    var p2 := StripEnd(content[..st], LikeStrip);
    var s2 := StripStart(content[en..], LikeStrip);
    (p2 + concat + s2, |p2| + |concat| - 1)
  }

  /** What is left after the LIKE rewrite's resume point holds no more `$` than what followed the splice. */
  lemma LikeStepShrinks(content: string, st: nat, en: nat)
    requires st < en <= |content|
    ensures var (next, at) := LikeStep(content, st, en);
              at <= |next| && Count(next[at..], '$') <= Count(content[en..], '$')
  {
    var suffix := content[en..];
    var concat := LikeConcat(content[st..en]);
    var p2 := StripEnd(content[..st], LikeStrip);
    var s2 := StripStart(suffix, LikeStrip);
    LikeTail(p2, concat, s2);
    CountAppend([' '], s2, '$');
    CountSuffix(suffix, |suffix| - |s2|);
  }

  /**
   * content[..m] and content[n..] are what is left around the splice
   * content[st..en] once the characters of `before` are stripped from the
   * end of the text before it, and those of `after` from the start of the
   * text after it.
   */
  predicate StrippedAround(content: string, st: nat, en: nat, m: nat, n: nat, before: string, after: string)
    requires st <= en <= |content|
  {
    m <= st && en <= n <= |content|
    && (forall i | m <= i < st :: content[i] in before)
    && (m == 0 || content[m - 1] !in before)
    && (forall i | en <= i < n :: content[i] in after)
    && (n == |content| || content[n] !in after)
  }

  /** Stripping both sides of a splice leaves exactly the text StrippedAround describes. */
  lemma StripsAround(content: string, st: nat, en: nat, before: string, after: string)
    requires st <= en <= |content|
    ensures var m := |StripEnd(content[..st], before)|;
            var n := |content| - |StripStart(content[en..], after)|;
            m <= st && en <= n <= |content| && StrippedAround(content, st, en, m, n, before, after)
            && StripEnd(content[..st], before) == content[..m] && StripStart(content[en..], after) == content[n..]
  {
    var p2, s2 := StripEnd(content[..st], before), StripStart(content[en..], after);
    var m, n := |p2|, |content| - |s2|;
    assert p2 == content[..m];
    assert s2 == content[n..];
    assert forall i | m <= i < st :: content[i] == content[..st][i];
    assert forall i | en <= i < n :: content[i] == content[en..][i - en];
  }

  /**
   * The LIKE rewrite keeps the text before the splice up to its last
   * character that is not a quote, percent or space, then the CONCAT, then
   * the text after the splice from its first such character; it resumes on
   * the space that closes the CONCAT.
   */
  lemma LikeStepStrips(content: string, st: nat, en: nat)
    requires st < en <= |content|
    ensures var (next, at) := LikeStep(content, st, en);
            var concat := LikeConcat(content[st..en]);
            exists m: nat, n: nat | StrippedAround(content, st, en, m, n, LikeStrip, LikeStrip) ::
              next == content[..m] + concat + content[n..] && at == m + |concat| - 1
  {
    StripsAround(content, st, en, LikeStrip, LikeStrip);
  }

  /**
   * Any other splice content[st..en] becomes `#{...}` with the quotes
   * around it removed; the rewrite resumes right after it.
   */
  function PlainStep(content: string, st: nat, en: nat): Result<(string, nat)>
    requires st < en <= |content|
  {
    match Unquote(content[..st], content[en..])
    case Failure(e) => Failure(e)
    case Ok((p2, s2)) =>
      var h := ReplaceChar(content[st..en], '$', '#');
      Ok((p2 + h + s2, |p2| + |h|))
  }

  /** What is left after the plain rewrite's resume point is a tail of what followed the splice. */
  lemma PlainStepShrinks(content: string, st: nat, en: nat)
    requires st < en <= |content|
    ensures var r := PlainStep(content, st, en);
            r.Ok? ==> var (next, at) := r.value;
                      at <= |next| && Count(next[at..], '$') <= Count(content[en..], '$')
  {
    var suffix := content[en..];
    match Unquote(content[..st], suffix)
    case Failure(_) =>
    case Ok((p2, s2)) =>
      var h := ReplaceChar(content[st..en], '$', '#');
      TailOf3(p2, h, s2);
      CountSuffix(suffix, |suffix| - |s2|);
  }

  /** The outcome of rewriting one splice: stop, or resume on a new text at a new offset. */
  datatype Step = Stop | Resume(next: string, at: nat)

  /**
   * One round of replaceDollarWithHashtagOnString on the splice
   * content[st..en], as `classify` judges the text before it: a safe
   * prefix stops the rewrite, a where-in splice is left as it is, the
   * others are rewritten.
   */
  function RewriteSplice(classify: string -> SpliceKind, content: string, st: nat, en: nat): (r: Result<Step>)
    requires st < en <= |content|
    ensures r.Ok? && r.value.Resume? ==>
              r.value.at <= |r.value.next|
              && Count(r.value.next[r.value.at..], '$') <= Count(content[en..], '$')
  {
    match classify(content[..st])
    case SafeStop => Ok(Stop)
    case WhereIn => Ok(Resume(content, en))
    case Like =>
      LikeStepShrinks(content, st, en);
      var (next, at) := LikeStep(content, st, en);
      Ok(Resume(next, at))
    case Plain =>
      PlainStepShrinks(content, st, en);
      match PlainStep(content, st, en)
      case Failure(e) => Failure(e)
      case Ok((next, at)) => Ok(Resume(next, at))
  }

  /** A round on a splice judged plain resumes on what the plain rewrite gives. */
  lemma PlainBranch(classify: string -> SpliceKind, content: string, st: nat, en: nat, next: string, at: nat)
    requires st < en <= |content| && classify(content[..st]) == Plain
    requires PlainStep(content, st, en) == Ok((next, at))
    ensures RewriteSplice(classify, content, st, en) == Ok(Resume(next, at))
  {
  }

  /**
   * The plain rewrite of a splice: its text with `$` turned into `#` (for
   * `${name}` that is `#{name}`, by SpliceHashed), between what Unquote
   * leaves of the text around it; the rewrite resumes right after it.
   */
  lemma PlainStepOk(content: string, st: nat, en: nat, p2: string, s2: string)
    requires st < en <= |content|
    requires Unquote(content[..st], content[en..]) == Ok((p2, s2))
    ensures PlainStep(content, st, en) == Ok((p2 + ReplaceChar(content[st..en], '$', '#') + s2, |p2| + en - st))
  {
  }

  /** Quotes right before a splice and after whitespace following it are both removed. */
  lemma QuotesRemoved(q: string, quote: char, w: string, rest: string)
    requires quote == '\'' || quote == '"'
    requires forall i | 0 <= i < |w| :: IsSpace(w[i])
    ensures Unquote(q + [quote], w + [quote] + rest) == Ok((q, rest))
  {
    assert w + [quote] + rest == w + ([quote] + rest);
    LTrimPadded(w, [quote] + rest);
    UnquoteByGap(q, quote, [], w + [quote] + rest);
    assert q + [quote] + [] == q + [quote];
  }

  /**
   * A plain splice content[st..en] between quotes (with whitespace allowed
   * before the closing one) is rewritten with both quotes gone.
   */
  lemma PlainSpliceUnquoted(classify: string -> SpliceKind, content: string, st: nat, en: nat,
                            q: string, quote: char, w: string, rest: string)
    requires st < en <= |content| && classify(content[..st]) == Plain
    requires quote == '\'' || quote == '"'
    requires content[..st] == q + [quote] && content[en..] == w + [quote] + rest
    requires forall i | 0 <= i < |w| :: IsSpace(w[i])
    ensures RewriteSplice(classify, content, st, en)
              == Ok(Resume(q + ReplaceChar(content[st..en], '$', '#') + rest, |q| + en - st))
  {
    QuotesRemoved(q, quote, w, rest);
    PlainStepOk(content, st, en, q, rest);
    PlainBranch(classify, content, st, en, q + ReplaceChar(content[st..en], '$', '#') + rest, |q| + en - st);
  }

  /**
   * A plain splice content[st..en] whose preceding text does not end in a
   * quote after rtrim is rewritten with everything around it kept.
   */
  lemma PlainSpliceBare(classify: string -> SpliceKind, content: string, st: nat, en: nat)
    requires st < en <= |content| && classify(content[..st]) == Plain
    requires !EndsWith(RTrim(content[..st]), "'") && !EndsWith(RTrim(content[..st]), "\"")
    ensures RewriteSplice(classify, content, st, en)
              == Ok(Resume(content[..st] + ReplaceChar(content[st..en], '$', '#') + content[en..], en))
  {
    PlainStepOk(content, st, en, content[..st], content[en..]);
    PlainBranch(classify, content, st, en, content[..st] + ReplaceChar(content[st..en], '$', '#') + content[en..], en);
  }

  /** One round from `offset`: stop when no splice is left, otherwise rewrite the first one. */
  function NextRound(classify: string -> SpliceKind, content: string, offset: nat): Result<Step>
    requires offset <= |content|
  {
    match Find(DollarVar, content, offset)
    case None => Ok(Stop)
    case Some((st, en)) => RewriteSplice(classify, content, st, en)
  }

  /** Each round leaves fewer `$` after the resume point. */
  lemma NextRoundShrinks(classify: string -> SpliceKind, content: string, offset: nat)
    requires offset <= |content|
    ensures var r := NextRound(classify, content, offset);
            r.Ok? && r.value.Resume? ==>
              r.value.at <= |r.value.next|
              && Count(r.value.next[r.value.at..], '$') < Count(content[offset..], '$')
  {
    match Find(DollarVar, content, offset)
    case None =>
    case Some((st, en)) =>
      MatchConsumesDollar(content, offset, st, en, content[en..]);
  }

  /**
   * The rewrite loop: rewrites the first `${...}` at or after `offset`,
   * then continues after it, until no splice is left or `classify` judges
   * a splice safe.
   */
  function RewriteFrom(classify: string -> SpliceKind, content: string, offset: nat): Result<string>
    requires offset <= |content|
    decreases Count(content[offset..], '$')
  {
    NextRoundShrinks(classify, content, offset);
    match NextRound(classify, content, offset)
    case Failure(e) => Failure(e)
    case Ok(Stop) => Ok(content)
    case Ok(Resume(next, at)) => RewriteFrom(classify, next, at)
  }

  /** replaceDollarWithHashtagOnString(content, offset): the rewrite loop with the source's classifier. */
  function ReplaceDollarWithHashtag(content: string, offset: nat): Result<string>
    requires offset <= |content|
  {
    RewriteFrom(KindOf, content, offset)
  }

  /**
   * The resume point follows a closing brace or parenthesis (the end of a
   * splice or of a CONCAT), which no later strip or trim can eat.
   */
  predicate Settled(content: string, offset: nat) {
    offset <= |content| &&
    (offset == 0 || content[offset - 1] == '}' || content[offset - 1] == ')')
  }

  /** Neither closing character is stripped around a LIKE splice, nor trimmed. */
  lemma ClosersKept(c: char)
    requires c == '}' || c == ')'
    ensures c !in LikeStrip && !IsSpace(c)
  {
  }

  lemma CharOf3(a: string, b: string, c: string, k: nat)
    requires k < |b|
    ensures (a + b + c)[|a| + k] == b[k]
  {
  }

  lemma PrefixOf3(content: string, offset: nat, a: string, b: string, c: string)
    requires offset <= |a| && a <= content
    ensures (a + b + c)[..offset] == content[..offset]
  {
    assert (a + b + c)[..offset] == a[..offset];
  }

  /** The LIKE strip stops at a settled character. */
  lemma LikeStripKeeps(content: string, offset: nat, st: nat)
    requires Settled(content, offset) && offset <= st <= |content|
    ensures |StripEnd(content[..st], LikeStrip)| >= offset
  {
    if offset > 0 {
      ClosersKept(content[offset - 1]);
      StripEndKeeps(content[..st], LikeStrip, offset - 1);
    }
  }

  /** Unquoting stops at a settled character. */
  lemma UnquoteKeeps(content: string, offset: nat, st: nat, en: nat)
    requires Settled(content, offset) && offset <= st < en <= |content|
    ensures var r := Unquote(content[..st], content[en..]);
            r.Ok? ==> |r.value.0| >= offset
  {
    if offset > 0 && offset == st {
      ClosersKept(content[offset - 1]);
      RTrimKeeps(content[..st], offset - 1);
    }
  }

  lemma LikeStepKeeps(content: string, offset: nat, st: nat, en: nat)
    requires Settled(content, offset) && offset <= st < en <= |content|
    ensures var (next, at) := LikeStep(content, st, en);
              offset <= at && Settled(next, at) && next[..offset] == content[..offset]
  {
    var concat := LikeConcat(content[st..en]);
    var p2 := StripEnd(content[..st], LikeStrip);
    var s2 := StripStart(content[en..], LikeStrip);
    CharOf3(p2, concat, s2, |concat| - 2);
    LikeStripKeeps(content, offset, st);
    PrefixOf3(content, offset, p2, concat, s2);
  }

  /** A rewritten splice that ends in '}' keeps the text before it and settles the text after it. */
  lemma ClosedSpliceSettles(content: string, offset: nat, p2: string, h: string, s2: string)
    requires offset <= |p2| && p2 <= content && h != [] && h[|h| - 1] == '}'
    ensures Settled(p2 + h + s2, |p2| + |h|) && (p2 + h + s2)[..offset] == content[..offset]
  {
    CharOf3(p2, h, s2, |h| - 1);
    PrefixOf3(content, offset, p2, h, s2);
  }

  lemma PlainStepKeeps(content: string, offset: nat, st: nat, en: nat)
    requires Settled(content, offset) && offset <= st < en <= |content| && content[en - 1] == '}'
    ensures var r := PlainStep(content, st, en);
            r.Ok? ==> offset <= r.value.1 && Settled(r.value.0, r.value.1) &&
                      r.value.0[..offset] == content[..offset]
  {
    var u := Unquote(content[..st], content[en..]);
    if u.Ok? {
      var (p2, s2) := u.value;
      UnquoteKeeps(content, offset, st, en);
      PlainStepOk(content, st, en, p2, s2);
      UnquotedSpliceKeeps(content, offset, st, en, p2, s2);
    }
  }

  lemma UnquotedSpliceKeeps(content: string, offset: nat, st: nat, en: nat, p2: string, s2: string)
    requires offset <= |p2| && st < en <= |content| && content[en - 1] == '}'
    requires p2 <= content[..st]
    ensures var h := ReplaceChar(content[st..en], '$', '#');
            Settled(p2 + h + s2, |p2| + |h|) && (p2 + h + s2)[..offset] == content[..offset]
  {
    var h := ReplaceChar(content[st..en], '$', '#');
    assert |h| == en - st && h[|h| - 1] == '}';
    assert p2 <= content;
    ClosedSpliceSettles(content, offset, p2, h, s2);
  }

  /** One round keeps settled text, and resumes after a settled character. */
  lemma RewriteSpliceKeeps(classify: string -> SpliceKind, content: string, offset: nat, st: nat, en: nat)
    requires Settled(content, offset) && offset <= st < en <= |content| && content[en - 1] == '}'
    ensures var r := RewriteSplice(classify, content, st, en);
            r.Ok? && r.value.Resume? ==>
              offset <= r.value.at && Settled(r.value.next, r.value.at)
              && r.value.next[..offset] == content[..offset]
  {
    match classify(content[..st])
    case SafeStop =>
    case WhereIn =>
    case Like => LikeStepKeeps(content, offset, st, en);
    case Plain => PlainStepKeeps(content, offset, st, en);
  }

  /** A round from a settled point keeps the text before it and resumes at a settled point. */
  lemma NextRoundKeeps(classify: string -> SpliceKind, content: string, offset: nat)
    requires Settled(content, offset)
    ensures var r := NextRound(classify, content, offset);
            r.Ok? && r.value.Resume? ==>
              offset <= r.value.at && Settled(r.value.next, r.value.at)
              && r.value.next[..offset] == content[..offset]
  {
    match Find(DollarVar, content, offset)
    case None =>
    case Some((st, en)) =>
      SpliceShape(content, offset);
      RewriteSpliceKeeps(classify, content, offset, st, en);
  }

  /**
   * The rewrite leaves the text before a settled resume point untouched,
   * whatever the classifier.
   */
  lemma {:induction false} RewriteKeepsSettledText(classify: string -> SpliceKind, content: string, offset: nat)
    requires Settled(content, offset)
    ensures var r := RewriteFrom(classify, content, offset);
            r.Ok? ==> |r.value| >= offset && r.value[..offset] == content[..offset]
    decreases Count(content[offset..], '$')
  {
    NextRoundShrinks(classify, content, offset);
    NextRoundKeeps(classify, content, offset);
    match NextRound(classify, content, offset)
    case Failure(_) =>
    case Ok(Stop) =>
    case Ok(Resume(next, at)) =>
      RewriteKeepsSettledText(classify, next, at);
      var r := RewriteFrom(classify, next, at);
      if r.Ok? {
        assert r.value[..offset] == r.value[..at][..offset];
      }
  }

  /** A splice the classifier leaves alone keeps its `$` in the result. */
  lemma LeftSpliceKeepsDollar(classify: string -> SpliceKind, content: string)
    requires Find(DollarVar, content, 0).Some?
    requires classify(content[..Find(DollarVar, content, 0).value.0]) == WhereIn
    ensures var r := RewriteFrom(classify, content, 0);
            r.Ok? ==> '$' in r.value
  {
    var (st, en) := Find(DollarVar, content, 0).value;
    SpliceShape(content, 0);
    assert NextRound(classify, content, 0) == Ok(Resume(content, en));
    NextRoundShrinks(classify, content, 0);
    RewriteKeepsSettledText(classify, content, en);
    var r := RewriteFrom(classify, content, en);
    assert RewriteFrom(classify, content, 0) == r;
    if r.Ok? {
      assert r.value[st] == r.value[..en][st] == content[..en][st] == '$';
    }
  }

  /**
   * A where-in splice is never rewritten: the rewritten text still holds
   * its `$`, so the fix is not complete.
   */
  lemma WhereInKeepsDollar(content: string)
    requires Find(DollarVar, content, 0).Some?
    requires var st := Find(DollarVar, content, 0).value.0;
             HasVulOnAdditiveFragments([content[..st]]) && WhereInEnd(Lower(content[..st]))
    ensures var r := ReplaceDollarWithHashtag(content, 0);
            r.Ok? ==> '$' in r.value
  {
    LeftSpliceKeepsDollar(KindOf, content);
  }

  /** A first splice whose prefix is judged safe stops the rewrite with the text unchanged. */
  lemma SafeSpliceStopsRewrite(content: string, offset: nat)
    requires offset <= |content| && Find(DollarVar, content, offset).Some?
    requires !HasVulOnAdditiveFragments([content[..Find(DollarVar, content, offset).value.0]])
    ensures ReplaceDollarWithHashtag(content, offset) == Ok(content)
  {
  }

  // ---------------------------------------------------------------------
  // applyFix
  // ---------------------------------------------------------------------

  /** What the quick fix does: the new literal text, if any, and whether the help comment is added. */
  datatype FixOutcome = FixOutcome(replacement: Option<string>, helpComment: bool)

  /**
   * applyFix: a single string literal is rewritten, and the fix counts as
   * complete when no `$` is left; otherwise the help comment goes on the
   * enclosing method, when there is one.
   */
  function ApplyFix(literal: Option<string>, inMethod: bool): (r: Result<FixOutcome>)
    ensures literal.None? ==> r == Ok(FixOutcome(None, inMethod))
    ensures literal.Some? && r.Ok? ==>
              r.value.replacement.Some?
              && (r.value.helpComment <==> inMethod && '$' in r.value.replacement.value)
  {
    match literal
    case None => Ok(FixOutcome(None, inMethod))
    case Some(content) =>
      match ReplaceDollarWithHashtag(content, 0)
      case Failure(e) => Failure(e)
      case Ok(newContent) =>
        var isFix := '$' !in newContent;
        Ok(FixOutcome(Some(newContent), !isFix && inMethod))
  }

  /** A where-in splice always ends with the help comment inside a method. */
  lemma WhereInGetsHelpComment(content: string)
    requires Find(DollarVar, content, 0).Some?
    requires var (st, en) := Find(DollarVar, content, 0).value;
             HasVulOnAdditiveFragments([content[..st]]) && WhereInEnd(Lower(content[..st]))
    ensures var r := ApplyFix(Some(content), true);
            r.Ok? ==> r.value.helpComment
  {
    WhereInKeepsDollar(content);
  }
}
