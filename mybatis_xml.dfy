/**
 * MybatisXmlSQLi.java: detection of `${...}` splices in the text of MyBatis
 * XML mapper statements, and the quick fix that rewrites them into `#{...}`
 * bind parameters, `CONCAT('%', #{...}, '%')` for LIKE, or a `<foreach>`
 * tag for `in (${...})`.
 */
module MybatisXml {
  import opened Wrappers
  import opened JavaString
  import opened Patterns
  import opened Sqli
  import Annotation = MybatisAnnotation

  // ---------------------------------------------------------------------
  // ignorePosition
  // ---------------------------------------------------------------------

  /** Variable names that are never reported or rewritten. */
  const IgnoredNames: set<string> :=
    {"orderByClause", "pageStart", "pageSize", "criterion.condition", "alias"}

  /** ignorePosition: a well-known paging/sorting name, or a MyBatis-Plus `ew.` wrapper. */
  predicate IgnorePosition(name: string) {
    name in IgnoredNames || StartsWith(name, "ew.")
  }

  /** The splice with this prefix and this name is reported: the name is not ignored and the prefix is vulnerable. */
  predicate Reportable(prefix: string, name: string) {
    !IgnorePosition(name) && JoinStrVulnerable(prefix)
  }

  // ---------------------------------------------------------------------
  // visitXmlText
  // ---------------------------------------------------------------------

  /** The splices the detection loop visits from `offset` on, in order. */
  function SplicesFrom(text: string, offset: nat): (r: seq<(nat, nat)>)
    requires offset <= |text|
    ensures SplicePositions(text, r)
    ensures forall i | 0 <= i < |r| :: offset <= r[i].0
    ensures r == [] <==> Find(DollarVar, text, offset).None?
    decreases |text| - offset
  {
    match Find(DollarVar, text, offset)
    case None => []
    case Some((st, en)) =>
      SpliceShape(text, offset);
      [(st, en)] + SplicesFrom(text, en)
  }

  /** Every pair is a splice position of `text`: `${`, a name, then `}`. */
  predicate SplicePositions(text: string, ms: seq<(nat, nat)>) {
    forall i | 0 <= i < |ms| :: ms[i].0 + 3 < ms[i].1 <= |text|
  }

  /** The splice text[m.0..m.1] is judged reported. */
  predicate JudgedAt(judge: (string, string) -> bool, text: string, m: (nat, nat))
    requires m.0 + 3 < m.1 <= |text|
  {
    judge(text[..m.0], text[m.0 + 2..m.1 - 1])
  }

  /** The verdict of a scan over the splices `ms`, which stops at the first one `judge` reports. */
  function ReportedIn(judge: (string, string) -> bool, text: string, ms: seq<(nat, nat)>): bool
    requires SplicePositions(text, ms)
  {
    ms != [] && (JudgedAt(judge, text, ms[0]) || ReportedIn(judge, text, ms[1..]))
  }

  /** The verdict of the detection loop over the splices from `offset` on. */
  function ReportedFrom(judge: (string, string) -> bool, text: string, offset: nat): bool
    requires offset <= |text|
  {
    ReportedIn(judge, text, SplicesFrom(text, offset))
  }

  /** The scan reports exactly when some splice is reported. */
  lemma {:induction false} ReportedInIff(judge: (string, string) -> bool, text: string, ms: seq<(nat, nat)>)
    requires SplicePositions(text, ms)
    ensures ReportedIn(judge, text, ms) <==> exists i | 0 <= i < |ms| :: JudgedAt(judge, text, ms[i])
  {
    if ms != [] {
      var rest := ms[1..];
      ReportedInIff(judge, text, rest);
      if ReportedIn(judge, text, rest) {
        var i :| 0 <= i < |rest| && JudgedAt(judge, text, rest[i]);
        assert ms[i + 1] == rest[i];
      }
      if exists i | 0 <= i < |ms| :: JudgedAt(judge, text, ms[i]) {
        var i :| 0 <= i < |ms| && JudgedAt(judge, text, ms[i]);
        if i > 0 {
          assert ms[i] == rest[i - 1];
        }
      }
    }
  }

  /** One step of the scan: the first splice from `offset` decides, or the scan goes on after it. */
  lemma ReportedFromStep(judge: (string, string) -> bool, text: string, offset: nat, st: nat, en: nat)
    requires offset <= |text| && Find(DollarVar, text, offset) == Some((st, en))
    ensures st + 3 < en <= |text|
    ensures ReportedFrom(judge, text, offset)
            == (judge(text[..st], text[st + 2..en - 1]) || ReportedFrom(judge, text, en))
  {
    SpliceShape(text, offset);
    var rest := SplicesFrom(text, en);
    assert SplicesFrom(text, offset) == [(st, en)] + rest;
    assert ([(st, en)] + rest)[1..] == rest;
  }

  /** A reported splice needs a `${` in the text, so the early return on texts without one loses nothing. */
  lemma ReportedHasDollarBrace(judge: (string, string) -> bool, text: string, offset: nat)
    requires offset <= |text| && ReportedFrom(judge, text, offset)
    ensures text != [] && Contains(text, "${")
  {
    var (st, en) := Find(DollarVar, text, offset).value;
    SpliceShape(text, offset);
    assert OccursAt(text, "${", st);
  }

  /** The mapper DTD test: the document declares a MyBatis mapper DTD. */
  predicate MapperDtd(dtd: Option<string>) {
    dtd.Some? && Contains(dtd.value, "mybatis.org") && Contains(dtd.value, "mapper.dtd")
  }

  /**
   * Whether the text element is reported, with `judge` deciding each
   * splice. `parentTag` is the name of the enclosing tag, if any; `dtd` is
   * the document's DTD URI (None when there is no document or no DTD).
   */
  predicate FlaggedWith(judge: (string, string) -> bool, parentTag: Option<string>, dtd: Option<string>, text: string) {
    parentTag != Some("sql") && parentTag != Some("mapper")
    && MapperDtd(dtd)
    && text != [] && Contains(text, "${")
    && ReportedFrom(judge, text, 0)
  }

  /** Whether visitXmlText reports the text element. */
  predicate XmlFlagged(parentTag: Option<string>, dtd: Option<string>, text: string) {
    FlaggedWith(Reportable, parentTag, dtd, text)
  }

  /**
   * A text element under a tag other than sql/mapper, in a MyBatis mapper
   * document, is reported exactly when one of its splices is judged
   * reportable; the early returns on empty texts and texts without `${`
   * change nothing.
   */
  lemma FlaggedIff(judge: (string, string) -> bool, parentTag: Option<string>, dtd: Option<string>, text: string)
    ensures FlaggedWith(judge, parentTag, dtd, text) <==>
              parentTag != Some("sql") && parentTag != Some("mapper") && MapperDtd(dtd)
              && exists i | 0 <= i < |SplicesFrom(text, 0)| :: JudgedAt(judge, text, SplicesFrom(text, 0)[i])
  {
    var ms := SplicesFrom(text, 0);
    ReportedInIff(judge, text, ms);
    var some := exists i | 0 <= i < |ms| :: JudgedAt(judge, text, ms[i]);
    assert ReportedFrom(judge, text, 0) == some;
    if some {
      ReportedHasDollarBrace(judge, text, 0);
    }
    if some {
      var i :| 0 <= i < |ms| && JudgedAt(judge, text, ms[i]);
      assert JudgedAt(judge, text, SplicesFrom(text, 0)[i]);
    }
  }

  /** visitXmlText: the guards, then the scan over the splices of the text. */
  method VisitXmlText(parentTag: Option<string>, dtd: Option<string>, text: string) returns (flagged: bool)
    ensures flagged == XmlFlagged(parentTag, dtd, text)
  {
    if parentTag == Some("sql") || parentTag == Some("mapper") {
      return false;
    }
    if dtd.None? || !(Contains(dtd.value, "mybatis.org") && Contains(dtd.value, "mapper.dtd")) {
      return false;
    }
    if text == [] || !Contains(text, "${") {
      return false;
    }
    var offset := 0;
    while true
      invariant offset <= |text|
      invariant ReportedFrom(Reportable, text, offset) == ReportedFrom(Reportable, text, 0)
      decreases |text| - offset
    {
      var m := Find(DollarVar, text, offset);
      if m.None? {
        assert SplicesFrom(text, offset) == [];
        return false;
      }
      var (st, en) := m.value;
      SpliceShape(text, offset);
      var prefix := text[..st];
      var name := text[st + 2..en - 1];
      var suffix := text[en..];
      ReportedFromStep(Reportable, text, offset, st, en);
      if !IgnorePosition(name) {
        var vulnerable := HasVulOnSQLJoinStr(prefix, name, Some(suffix));
        if vulnerable {
          return true;
        }
      }
      offset := en;
    }
  }

  // ---------------------------------------------------------------------
  // fixXmlText
  // ---------------------------------------------------------------------

  /** The children the fix leaves in place of the text element. */
  datatype XmlNode =
    | Text(value: string)
    | Foreach(collection: string, item: string, open: string, separator: string, close: string, body: string)

  /** Whitespace text, as a PSI whitespace element holds. */
  predicate Blank(ws: string) {
    forall i | 0 <= i < |ws| :: IsSpace(ws[i])
  }

  /**
   * createForeachXmlTag: iterates over the collection `name` with item
   * `nameItem`, wrapped in parentheses and separated by commas, binding each
   * item with `#{...}` between two copies of the surrounding whitespace.
   */
  function ForeachTag(name: string, ws: string): (t: XmlNode)
    ensures t.Foreach? && t.collection == name && t.item == name + "Item"
    ensures t.open == "(" && t.separator == "," && t.close == ")"
    ensures t.body == ws + "#{" + t.item + "}" + ws
  {
    Foreach(name, name + "Item", "(", ",", ")", ws + "#{" + name + "Item}" + ws)
  }

  /**
   * Removing the parentheses around a where-in splice: when the
   * right-trimmed prefix ends with `(` and the left-trimmed suffix starts
   * with `)`, the prefix keeps its first length-1 characters after
   * right-trimming and the suffix loses its `)`; the prefix cut fails when
   * trimming left it too short.
   */
  function InUnwrap(prefix: string, suffix: string): (r: Result<(string, string)>)
    ensures r.Ok? ==> r.value.0 <= prefix && |prefix| - 1 <= |r.value.0|
    ensures r.Ok? ==> |r.value.1| <= |suffix| && r.value.1 == suffix[|suffix| - |r.value.1|..]
  {
    var trimmed := RTrim(prefix);
    if EndsWith(trimmed, "(") && StartsWith(LTrim(suffix), ")") then
      if |prefix| - 1 <= |trimmed| then Ok((trimmed[..|prefix| - 1], LTrim(suffix)[1..]))
      else Failure("StringIndexOutOfBoundsException")
    else Ok((prefix, suffix))
  }

  /**
   * Removing the quotes around a plain splice: the test trims with
   * String.trim, the cuts with rtrim and ltrim, as in the annotation rule.
   */
  function XmlUnquote(prefix: string, suffix: string): (r: Result<(string, string)>)
    ensures r.Ok? ==> r.value.0 <= prefix && |prefix| - 1 <= |r.value.0|
    ensures r.Ok? ==> |r.value.1| <= |suffix| && r.value.1 == suffix[|suffix| - |r.value.1|..]
  {
    var t := Trim(prefix);
    if EndsWith(t, "'") || EndsWith(t, "\"") then
      var trimmed := RTrim(prefix);
      if |prefix| - 1 <= |trimmed| && LTrim(suffix) != [] then
        Ok((trimmed[..|prefix| - 1], LTrim(suffix)[1..]))
      else Failure("StringIndexOutOfBoundsException")
    else Ok((prefix, suffix))
  }

  /** Characters stripped from the end of the prefix of a LIKE splice. */
  const XmlLikeStripEnd: string := "'\"% \n\r"

  /** How the fix treats a splice, from its prefix and its name. */
  datatype XmlKind = Skip | WhereIn | Like | Plain

  /**
   * The decision of fixXmlText: ignored or safe splices are skipped; then
   * the where-in pattern, then the LIKE pattern, is tested on the prefix.
   */
  function XmlKindOf(prefix: string, name: string): (k: XmlKind)
    ensures k == Skip <==> IgnorePosition(name) || !JoinStrVulnerable(prefix)
    ensures k == WhereIn ==> WhereInEnd(prefix)
    ensures k == Like ==> LikeEnd(prefix) && !WhereInEnd(prefix)
    ensures k == Plain ==> !LikeEnd(prefix) && !WhereInEnd(prefix)
  {
    if IgnorePosition(name) || !JoinStrVulnerable(prefix) then Skip
    else if WhereInEnd(prefix) then WhereIn
    else if LikeEnd(prefix) then Like
    else Plain
  }

  /** The LIKE rewrite of v[st..en]; the fix resumes after the CONCAT. */
  function XmlLikeStep(v: string, st: nat, en: nat): (string, nat)
    requires st < en <= |v|
  {
    var concat := Annotation.LikeConcat(v[st..en]);
    var p2 := StripEnd(v[..st], XmlLikeStripEnd);
    var s2 := StripStart(v[en..], Annotation.LikeStrip);
    (p2 + concat + s2, |p2| + |concat|)
  }

  /** The plain rewrite of v[st..en] into `#{name}`; the fix resumes after it. */
  function XmlPlainStep(v: string, st: nat, en: nat): Result<(string, nat)>
    requires st + 3 < en <= |v|
  {
    match XmlUnquote(v[..st], v[en..])
    case Failure(e) => Failure(e)
    case Ok((p2, s2)) => Ok((p2 + "#{" + v[st + 2..en - 1] + "}" + s2, |p2| + (en - st)))
  }

  /** The outcome of one round: finish, or emit nodes and resume on a text at an offset. */
  datatype XmlStep = Finish | Resume(emit: seq<XmlNode>, next: string, at: nat)

  /**
   * One round of fixXmlText on the splice v[st..en], as `classify` judges
   * it. A where-in splice under a parent tag splits the text: the prefix
   * (plus the whitespace `ws`) stays, a foreach tag follows, and the fix
   * goes on over the whitespace and the suffix.
   */
  function XmlRewriteSplice(classify: (string, string) -> XmlKind, v: string, st: nat, en: nat,
                            hasParent: bool, ws: string): (r: Result<XmlStep>)
    requires st + 3 < en <= |v| && Blank(ws)
    ensures r.Ok? && r.value.Resume? ==>
              r.value.at <= |r.value.next|
              && Count(r.value.next[r.value.at..], '$') <= Count(v[en..], '$')
    ensures r.Ok? && r.value.Resume? ==>
              r.value.emit == [] || (|r.value.emit| == 2 && r.value.emit[0].Text? && r.value.emit[1].Foreach?)
    ensures r.Ok? && r.value.Resume? && !hasParent ==> r.value.emit == []
  {
    var prefix := v[..st];
    var suffix := v[en..];
    var name := v[st + 2..en - 1];
    match classify(prefix, name)
    case Skip => Ok(Resume([], v, en))
    case WhereIn =>
      (match InUnwrap(prefix, suffix)
       case Failure(e) => Failure(e)
       case Ok((p2, s2)) =>
         if !hasParent then Ok(Resume([], v, en))
         else
           BlankShrinks(ws, s2, suffix);
           Ok(Resume([Text(p2 + ws), ForeachTag(name, ws)], ws + s2, 0)))
    case Like =>
      XmlLikeStepShrinks(v, st, en);
      var (next, at) := XmlLikeStep(v, st, en);
      Ok(Resume([], next, at))
    case Plain =>
      XmlPlainStepShrinks(v, st, en);
      match XmlPlainStep(v, st, en)
      case Failure(e) => Failure(e)
      case Ok((next, at)) => Ok(Resume([], next, at))
  }

  lemma BlankShrinks(ws: string, s2: string, suffix: string)
    requires Blank(ws) && |s2| <= |suffix| && s2 == suffix[|suffix| - |s2|..]
    ensures Count((ws + s2)[0..], '$') <= Count(suffix, '$')
  {
    assert (ws + s2)[0..] == ws + s2;
    CountAbsent(ws, '$');
    CountAppend(ws, s2, '$');
    Annotation.CountSuffix(suffix, |suffix| - |s2|);
  }

  lemma XmlLikeStepShrinks(v: string, st: nat, en: nat)
    requires st < en <= |v|
    ensures var (next, at) := XmlLikeStep(v, st, en);
              at <= |next| && Count(next[at..], '$') <= Count(v[en..], '$')
  {
    var suffix := v[en..];
    var concat := Annotation.LikeConcat(v[st..en]);
    var p2 := StripEnd(v[..st], XmlLikeStripEnd);
    var s2 := StripStart(suffix, Annotation.LikeStrip);
    Annotation.TailOf3(p2, concat, s2);
    Annotation.CountSuffix(suffix, |suffix| - |s2|);
  }

  lemma XmlPlainStepShrinks(v: string, st: nat, en: nat)
    requires st + 3 < en <= |v|
    ensures var r := XmlPlainStep(v, st, en);
            r.Ok? ==> var (next, at) := r.value;
                      at <= |next| && Count(next[at..], '$') <= Count(v[en..], '$')
  {
    var suffix := v[en..];
    match XmlUnquote(v[..st], suffix)
    case Failure(_) =>
    case Ok((p2, s2)) =>
      var h := "#{" + v[st + 2..en - 1] + "}";
      assert p2 + "#{" + v[st + 2..en - 1] + "}" + s2 == p2 + h + s2;
      Annotation.TailOf3(p2, h, s2);
      Annotation.CountSuffix(suffix, |suffix| - |s2|);
  }

  /** One round from `offset`: finish when no splice is left, otherwise treat the first one. */
  function XmlRound(classify: (string, string) -> XmlKind, v: string, offset: nat,
                    hasParent: bool, ws: string): Result<XmlStep>
    requires offset <= |v| && Blank(ws)
  {
    match Find(DollarVar, v, offset)
    case None => Ok(Finish)
    case Some((st, en)) =>
      SpliceShape(v, offset);
      XmlRewriteSplice(classify, v, st, en, hasParent, ws)
  }

  /** Each round leaves fewer `$` after the resume point. */
  lemma XmlRoundShrinks(classify: (string, string) -> XmlKind, v: string, offset: nat,
                        hasParent: bool, ws: string)
    requires offset <= |v| && Blank(ws)
    ensures var r := XmlRound(classify, v, offset, hasParent, ws);
            r.Ok? && r.value.Resume? ==>
              r.value.at <= |r.value.next|
              && Count(r.value.next[r.value.at..], '$') < Count(v[offset..], '$')
  {
    match Find(DollarVar, v, offset)
    case None =>
    case Some((st, en)) =>
      SpliceShape(v, offset);
      Annotation.MatchConsumesDollar(v, offset, st, en, v[en..]);
  }

  /** Nodes emitted before a result, with a failure passed through. */
  function Prepend(emit: seq<XmlNode>, r: Result<seq<XmlNode>>): Result<seq<XmlNode>> {
    match r
    case Failure(e) => Failure(e)
    case Ok(nodes) => Ok(emit + nodes)
  }

  lemma PrependNothing(r: Result<seq<XmlNode>>)
    ensures Prepend([], r) == r
  {
    if r.Ok? {
      assert [] + r.value == r.value;
    }
  }

  /**
   * The fix from `offset`: the nodes that replace the text element. The
   * source recurses on the rewritten text; the recursion here is the same.
   */
  function FixXmlFrom(classify: (string, string) -> XmlKind, v: string, offset: nat,
                      hasParent: bool, ws: string): Result<seq<XmlNode>>
    requires offset <= |v| && Blank(ws)
    decreases Count(v[offset..], '$')
  {
    XmlRoundShrinks(classify, v, offset, hasParent, ws);
    match XmlRound(classify, v, offset, hasParent, ws)
    case Failure(e) => Failure(e)
    case Ok(Finish) => Ok([Text(v)])
    case Ok(Resume(emit, next, at)) => Prepend(emit, FixXmlFrom(classify, next, at, hasParent, ws))
  }

  /** fixXmlText(text, offset) with the source's classifier. */
  function FixXml(v: string, offset: nat, hasParent: bool, ws: string): Result<seq<XmlNode>>
    requires offset <= |v| && Blank(ws)
  {
    FixXmlFrom(XmlKindOf, v, offset, hasParent, ws)
  }

  /** The fix after a round that finds no splice: the text, unchanged. */
  lemma FixXmlFromFinish(classify: (string, string) -> XmlKind, v: string, offset: nat,
                         hasParent: bool, ws: string)
    requires offset <= |v| && Blank(ws)
    requires XmlRound(classify, v, offset, hasParent, ws) == Ok(Finish)
    ensures FixXmlFrom(classify, v, offset, hasParent, ws) == Ok([Text(v)])
  {
  }

  /** The fix after a round that resumes: what the round emits, then the fix of the new text. */
  lemma FixXmlFromResume(classify: (string, string) -> XmlKind, v: string, offset: nat,
                         hasParent: bool, ws: string, emit: seq<XmlNode>, next: string, at: nat)
    requires offset <= |v| && Blank(ws)
    requires XmlRound(classify, v, offset, hasParent, ws) == Ok(Resume(emit, next, at))
    ensures at <= |next|
    ensures FixXmlFrom(classify, v, offset, hasParent, ws)
            == Prepend(emit, FixXmlFrom(classify, next, at, hasParent, ws))
  {
    XmlRoundShrinks(classify, v, offset, hasParent, ws);
  }

  lemma RewriteLike(classify: (string, string) -> XmlKind, v: string, st: nat, en: nat,
                    hasParent: bool, ws: string)
    requires st + 3 < en <= |v| && Blank(ws) && classify(v[..st], v[st + 2..en - 1]) == Like
    ensures XmlRewriteSplice(classify, v, st, en, hasParent, ws)
            == Ok(Resume([], XmlLikeStep(v, st, en).0, XmlLikeStep(v, st, en).1))
  {
  }

  lemma RewritePlain(classify: (string, string) -> XmlKind, v: string, st: nat, en: nat,
                     hasParent: bool, ws: string)
    requires st + 3 < en <= |v| && Blank(ws) && classify(v[..st], v[st + 2..en - 1]) == Plain
    ensures var p := XmlPlainStep(v, st, en);
            XmlRewriteSplice(classify, v, st, en, hasParent, ws)
            == (if p.Failure? then Failure(p.error) else Ok(Resume([], p.value.0, p.value.1)))
  {
  }

  lemma PrependTwice(out: seq<XmlNode>, emit: seq<XmlNode>, r: Result<seq<XmlNode>>)
    ensures Prepend(out, Prepend(emit, r)) == Prepend(out + emit, r)
  {
    if r.Ok? {
      assert out + (emit + r.value) == (out + emit) + r.value;
    }
  }

  lemma SkipSplice(classify: (string, string) -> XmlKind, v: string, st: nat, en: nat, hasParent: bool, ws: string)
    requires st + 3 < en <= |v| && Blank(ws) && classify(v[..st], v[st + 2..en - 1]) == Skip
    ensures XmlRewriteSplice(classify, v, st, en, hasParent, ws) == Ok(Resume([], v, en))
  {
  }

  lemma RewriteWhereIn(classify: (string, string) -> XmlKind, v: string, st: nat, en: nat, ws: string)
    requires st + 3 < en <= |v| && Blank(ws) && classify(v[..st], v[st + 2..en - 1]) == WhereIn
    ensures var u := InUnwrap(v[..st], v[en..]);
            XmlRewriteSplice(classify, v, st, en, true, ws)
            == (if u.Failure? then Failure(u.error)
                else Ok(Resume([Text(u.value.0 + ws), ForeachTag(v[st + 2..en - 1], ws)], ws + u.value.1, 0)))
  {
  }

  /**
   * Without a parent tag a where-in splice is left as it is, but the
   * parenthesis cut still runs first and can fail.
   */
  lemma WhereInNoParent(classify: (string, string) -> XmlKind, v: string, st: nat, en: nat, ws: string)
    requires st + 3 < en <= |v| && Blank(ws) && classify(v[..st], v[st + 2..en - 1]) == WhereIn
    ensures var u := InUnwrap(v[..st], v[en..]);
            XmlRewriteSplice(classify, v, st, en, false, ws)
            == (if u.Failure? then Failure(u.error) else Ok(Resume([], v, en)))
  {
  }

  /** A round that finds a splice is the rewrite of that splice. */
  lemma RoundAt(classify: (string, string) -> XmlKind, v: string, offset: nat, st: nat, en: nat,
                hasParent: bool, ws: string)
    requires offset <= |v| && Blank(ws) && Find(DollarVar, v, offset) == Some((st, en))
    ensures st + 3 < en <= |v|
    ensures XmlRound(classify, v, offset, hasParent, ws) == XmlRewriteSplice(classify, v, st, en, hasParent, ws)
  {
    SpliceShape(v, offset);
  }

  /**
   * One round of the loop in fixXmlText: find the next splice and skip or
   * rewrite it as `classify` judges it.
   */
  method FixRound(classify: (string, string) -> XmlKind, v: string, offset: nat,
                  hasParent: bool, ws: string) returns (r: Result<XmlStep>)
    requires offset <= |v| && Blank(ws)
    ensures r == XmlRound(classify, v, offset, hasParent, ws)
  {
    var m := Find(DollarVar, v, offset);
    if m.None? {
      return Ok(Finish);
    }
    var st, en := m.value.0, m.value.1;
    RoundAt(classify, v, offset, st, en, hasParent, ws);
    var prefix, name, suffix := v[..st], v[st + 2..en - 1], v[en..];
    var kind := classify(prefix, name);
    if kind == Skip {
      SkipSplice(classify, v, st, en, hasParent, ws);
      r := Ok(Resume([], v, en));
    } else if kind == WhereIn {
      var u := InUnwrap(prefix, suffix);
      if !hasParent {
        WhereInNoParent(classify, v, st, en, ws);
        if u.Failure? {
          return Failure(u.error);
        }
        r := Ok(Resume([], v, en));
      } else {
        RewriteWhereIn(classify, v, st, en, ws);
        if u.Failure? {
          return Failure(u.error);
        }
        r := Ok(Resume([Text(u.value.0 + ws), ForeachTag(name, ws)], ws + u.value.1, 0));
      }
    } else if kind == Like {
      RewriteLike(classify, v, st, en, hasParent, ws);
      var step := XmlLikeStep(v, st, en);
      r := Ok(Resume([], step.0, step.1));
    } else {
      RewritePlain(classify, v, st, en, hasParent, ws);
      var u := XmlPlainStep(v, st, en);
      if u.Failure? {
        return Failure(u.error);
      }
      r := Ok(Resume([], u.value.0, u.value.1));
    }
  }

  /**
   * fixXmlText as a loop: each splice at or after `offset` is skipped or
   * rewritten in place, and a where-in splice under a parent moves the
   * loop onto the new suffix text. The source recurses where this loop
   * goes round again.
   */
  method FixXmlText(classify: (string, string) -> XmlKind, text: string, start: nat,
                    hasParent: bool, ws: string) returns (r: Result<seq<XmlNode>>)
    requires start <= |text| && Blank(ws)
    ensures r == FixXmlFrom(classify, text, start, hasParent, ws)
  {
    var v: string, offset: nat, out: seq<XmlNode> := text, start, [];
    PrependNothing(FixXmlFrom(classify, text, start, hasParent, ws));
    while true
      invariant offset <= |v|
      invariant Prepend(out, FixXmlFrom(classify, v, offset, hasParent, ws))
                == FixXmlFrom(classify, text, start, hasParent, ws)
      decreases Count(v[offset..], '$')
    {
      XmlRoundShrinks(classify, v, offset, hasParent, ws);
      var round := FixRound(classify, v, offset, hasParent, ws);
      match round
      case Failure(e) =>
        return Failure(e);
      case Ok(Finish) =>
        return Ok(out + [Text(v)]);
      case Ok(Resume(emit, next, at)) =>
        FixXmlFromResume(classify, v, offset, hasParent, ws, emit, next, at);
        PrependTwice(out, emit, FixXmlFrom(classify, next, at, hasParent, ws));
        out, v, offset := out + emit, next, at;
    }
  }
}

module MybatisXmlProperties {
  import opened Wrappers
  import opened JavaString
  import opened Patterns
  import opened MybatisXml
  import Annotation = MybatisAnnotation

  // ---------------------------------------------------------------------
  // Shape of the fix
  // ---------------------------------------------------------------------

  /** Text first and last, with foreach tags and text alternating in between. */
  predicate Alternating(nodes: seq<XmlNode>) {
    |nodes| >= 1 && nodes[0].Text?
    && (|nodes| == 1 || (|nodes| >= 3 && nodes[1].Foreach? && Alternating(nodes[2..])))
  }

  /**
   * The fix always leaves text, then foreach tag and text pairs: every
   * foreach tag sits between the text before its splice and the text after.
   */
  lemma {:induction false} FixAlternates(classify: (string, string) -> XmlKind, v: string, offset: nat,
                                         hasParent: bool, ws: string)
    requires offset <= |v| && Blank(ws)
    ensures var r := FixXmlFrom(classify, v, offset, hasParent, ws);
            r.Ok? ==> Alternating(r.value)
    decreases Count(v[offset..], '$')
  {
    XmlRoundShrinks(classify, v, offset, hasParent, ws);
    match XmlRound(classify, v, offset, hasParent, ws)
    case Failure(_) =>
    case Ok(Finish) =>
    case Ok(Resume(emit, next, at)) =>
      FixAlternates(classify, next, at, hasParent, ws);
      var rest := FixXmlFrom(classify, next, at, hasParent, ws);
      if rest.Ok? {
        if emit == [] {
          assert emit + rest.value == rest.value;
        } else {
          assert (emit + rest.value)[2..] == rest.value;
        }
      }
  }

  /** Without a parent tag the fix never splits the text: one text element comes out. */
  lemma {:induction false} NoParentSingleText(classify: (string, string) -> XmlKind, v: string, offset: nat, ws: string)
    requires offset <= |v| && Blank(ws)
    ensures var r := FixXmlFrom(classify, v, offset, false, ws);
            r.Ok? ==> |r.value| == 1 && r.value[0].Text?
    decreases Count(v[offset..], '$')
  {
    XmlRoundShrinks(classify, v, offset, false, ws);
    match XmlRound(classify, v, offset, false, ws)
    case Failure(_) =>
    case Ok(Finish) =>
    case Ok(Resume(emit, next, at)) =>
      NoParentSingleText(classify, next, at, ws);
      var rest := FixXmlFrom(classify, next, at, false, ws);
      if rest.Ok? {
        assert emit + rest.value == rest.value;
      }
  }

  /**
   * A text the scan does not report comes out of the fix unchanged, as
   * long as the fix skips whatever `judge` does not report.
   */
  lemma {:induction false} UnjudgedUnchanged(classify: (string, string) -> XmlKind, judge: (string, string) -> bool,
                                             v: string, offset: nat, hasParent: bool, ws: string)
    requires offset <= |v| && Blank(ws)
    requires forall p, n :: !judge(p, n) ==> classify(p, n) == Skip
    requires !ReportedFrom(judge, v, offset)
    ensures FixXmlFrom(classify, v, offset, hasParent, ws) == Ok([Text(v)])
    decreases |v| - offset
  {
    var m := Find(DollarVar, v, offset);
    if m.None? {
      assert XmlRound(classify, v, offset, hasParent, ws) == Ok(Finish);
    } else {
      var st, en := m.value.0, m.value.1;
      SpliceShape(v, offset);
      ReportedFromStep(judge, v, offset, st, en);
      SkipSplice(classify, v, st, en, hasParent, ws);
      assert XmlRound(classify, v, offset, hasParent, ws) == Ok(Resume([], v, en));
      FixXmlFromResume(classify, v, offset, hasParent, ws, [], v, en);
      UnjudgedUnchanged(classify, judge, v, en, hasParent, ws);
      PrependNothing(Ok([Text(v)]));
    }
  }

  /** The quick fix changes nothing in a text that visitXmlText would not report from `offset` on. */
  lemma UnreportedUnchanged(v: string, offset: nat, hasParent: bool, ws: string)
    requires offset <= |v| && Blank(ws)
    requires !ReportedFrom(Reportable, v, offset)
    ensures FixXml(v, offset, hasParent, ws) == Ok([Text(v)])
  {
    UnjudgedUnchanged(XmlKindOf, Reportable, v, offset, hasParent, ws);
  }

  // ---------------------------------------------------------------------
  // Settled text
  // ---------------------------------------------------------------------

  /** `k` is a settled point of `v` no later than the resume point `offset`. */
  predicate SettledBefore(v: string, k: nat, offset: nat) {
    k <= offset <= |v| && Annotation.Settled(v, k)
  }

  lemma XmlClosersKept(c: char)
    requires c == '}' || c == ')'
    ensures c !in XmlLikeStripEnd && !IsSpace(c) && !IsTrimmable(c)
  {
  }

  lemma XmlLikeKeeps(v: string, k: nat, st: nat, en: nat)
    requires Annotation.Settled(v, k) && k <= st < en <= |v|
    ensures var (next, at) := XmlLikeStep(v, st, en);
            k + 1 <= at && SettledBefore(next, at - 1, at) && next[..k] == v[..k]
  {
    var concat := Annotation.LikeConcat(v[st..en]);
    var p2 := StripEnd(v[..st], XmlLikeStripEnd);
    var s2 := StripStart(v[en..], Annotation.LikeStrip);
    if k > 0 {
      XmlClosersKept(v[k - 1]);
      StripEndKeeps(v[..st], XmlLikeStripEnd, k - 1);
    }
    Annotation.CharOf3(p2, concat, s2, |concat| - 2);
    Annotation.PrefixOf3(v, k, p2, concat, s2);
  }

  /** The quote test never fires on a prefix that ends in a settled character. */
  lemma SettledPrefixNotQuoted(prefix: string)
    requires prefix != [] && (prefix[|prefix| - 1] == '}' || prefix[|prefix| - 1] == ')')
    ensures !EndsWith(Trim(prefix), "'") && !EndsWith(Trim(prefix), "\"")
  {
    XmlClosersKept(prefix[|prefix| - 1]);
    TrimKeepsLast(prefix);
  }

  lemma XmlUnquoteKeeps(v: string, k: nat, st: nat, en: nat)
    requires Annotation.Settled(v, k) && k <= st < en <= |v|
    ensures var r := XmlUnquote(v[..st], v[en..]);
            r.Ok? ==> k <= |r.value.0| && r.value.0[..k] == v[..k]
  {
    if k > 0 && k == st {
      SettledPrefixNotQuoted(v[..st]);
    }
  }

  /** Splicing `#{name}` after a prefix keeps the prefix and settles the text at its end. */
  lemma PlainSpliceSettles(p2: string, name: string, s2: string)
    ensures var h := "#{" + name + "}";
            Annotation.Settled(p2 + h + s2, |p2| + |h|) && (p2 + h + s2)[..|p2|] == p2
  {
    var h := "#{" + name + "}";
    Annotation.CharOf3(p2, h, s2, |h| - 1);
    assert (p2 + h + s2)[..|p2|] == p2;
  }

  lemma XmlPlainKeeps(v: string, k: nat, st: nat, en: nat)
    requires Annotation.Settled(v, k) && k <= st && st + 3 < en <= |v|
    ensures var r := XmlPlainStep(v, st, en);
            r.Ok? ==> k <= r.value.1 && SettledBefore(r.value.0, r.value.1, r.value.1) &&
                      r.value.0[..k] == v[..k]
  {
    XmlUnquoteKeeps(v, k, st, en);
    var u := XmlUnquote(v[..st], v[en..]);
    if u.Ok? {
      var p2, s2, name := u.value.0, u.value.1, v[st + 2..en - 1];
      PlainSpliceSettles(p2, name, s2);
      assert |"#{" + name + "}"| == en - st;
      assert (p2 + "#{" + name + "}" + s2)[..k] == p2[..k];
    }
  }

  lemma InUnwrapKeeps(v: string, k: nat, st: nat, en: nat)
    requires Annotation.Settled(v, k) && k <= st < en <= |v|
    ensures var r := InUnwrap(v[..st], v[en..]);
            r.Ok? ==> v[..k] <= r.value.0
  {
    var prefix := v[..st];
    if k > 0 && k == st {
      XmlClosersKept(v[k - 1]);
      RTrimKeeps(prefix, k - 1);
    }
  }

  /** A round's outcome keeps the text before `k`, and resumes from a later settled point or emits it first. */
  predicate KeepsSettled(v: string, k: nat, step: XmlStep) {
    k <= |v| &&
    (step.Resume? ==>
      (step.emit == [] ==>
         k <= |step.next| && step.next[..k] == v[..k]
         && exists k' | k <= k' <= step.at :: SettledBefore(step.next, k', step.at))
      && (step.emit != [] ==> step.emit[0].Text? && v[..k] <= step.emit[0].value))
  }

  lemma RewriteKeeps(classify: (string, string) -> XmlKind, v: string, k: nat, st: nat, en: nat,
                     hasParent: bool, ws: string)
    requires Annotation.Settled(v, k) && k <= st && st + 3 < en <= |v| && v[en - 1] == '}' && Blank(ws)
    ensures var r := XmlRewriteSplice(classify, v, st, en, hasParent, ws);
            r.Ok? ==> KeepsSettled(v, k, r.value)
  {
    var prefix, name := v[..st], v[st + 2..en - 1];
    var kind := classify(prefix, name);
    if kind == Skip || (kind == WhereIn && !hasParent && InUnwrap(prefix, v[en..]).Ok?) {
      assert XmlRewriteSplice(classify, v, st, en, hasParent, ws) == Ok(Resume([], v, en));
      assert SettledBefore(v, en, en);
    } else if kind == WhereIn && !hasParent {
      WhereInNoParent(classify, v, st, en, ws);
    } else if kind == WhereIn {
      InUnwrapKeeps(v, k, st, en);
    } else if kind == Like {
      RewriteLike(classify, v, st, en, hasParent, ws);
      XmlLikeKeeps(v, k, st, en);
      var (next, at) := XmlLikeStep(v, st, en);
      assert SettledBefore(next, at - 1, at);
    } else {
      RewritePlain(classify, v, st, en, hasParent, ws);
      XmlPlainKeeps(v, k, st, en);
      var p := XmlPlainStep(v, st, en);
      if p.Ok? {
        assert SettledBefore(p.value.0, p.value.1, p.value.1);
      }
    }
  }

  lemma XmlRoundKeeps(classify: (string, string) -> XmlKind, v: string, k: nat, offset: nat,
                      hasParent: bool, ws: string)
    requires SettledBefore(v, k, offset) && Blank(ws)
    ensures var r := XmlRound(classify, v, offset, hasParent, ws);
            r.Ok? ==> KeepsSettled(v, k, r.value)
  {
    match Find(DollarVar, v, offset)
    case None =>
    case Some((st, en)) =>
      SpliceShape(v, offset);
      RewriteKeeps(classify, v, k, st, en, hasParent, ws);
  }

  /**
   * The fix never changes the text before a settled point (the start, or
   * the end of a finished splice): it opens the first node it leaves.
   */
  /** The fix's nodes open with a text that starts with `pre`. */
  predicate OpensWith(r: Result<seq<XmlNode>>, pre: string) {
    r.Ok? ==> r.value != [] && r.value[0].Text? && pre <= r.value[0].value
  }

  lemma PrependOpensWith(emit: seq<XmlNode>, rest: Result<seq<XmlNode>>, pre: string, longer: string)
    requires pre <= longer
    requires emit == [] ==> OpensWith(rest, longer)
    requires emit != [] ==> emit[0].Text? && pre <= emit[0].value
    ensures OpensWith(Prepend(emit, rest), pre)
  {
    if rest.Ok? {
      assert (emit + rest.value)[0] == (if emit == [] then rest.value[0] else emit[0]);
    }
  }

  /** The facts about one round that the settled-text induction needs, without the round itself. */
  lemma SettledRound(classify: (string, string) -> XmlKind, v: string, k: nat, offset: nat,
                     hasParent: bool, ws: string)
    returns (resumed: bool, emit: seq<XmlNode>, next: string, at: nat)
    requires SettledBefore(v, k, offset) && Blank(ws)
    ensures !resumed ==> OpensWith(FixXmlFrom(classify, v, offset, hasParent, ws), v[..k])
    ensures resumed ==>
              at <= |next| && Count(next[at..], '$') < Count(v[offset..], '$')
              && FixXmlFrom(classify, v, offset, hasParent, ws)
                 == Prepend(emit, FixXmlFrom(classify, next, at, hasParent, ws))
              && KeepsSettled(v, k, Resume(emit, next, at))
  {
    XmlRoundShrinks(classify, v, offset, hasParent, ws);
    XmlRoundKeeps(classify, v, k, offset, hasParent, ws);
    var round := XmlRound(classify, v, offset, hasParent, ws);
    resumed, emit, next, at := false, [], v, 0;
    if round.Ok? && round.value.Finish? {
      FixXmlFromFinish(classify, v, offset, hasParent, ws);
    } else if round.Ok? {
      resumed, emit, next, at := true, round.value.emit, round.value.next, round.value.at;
      FixXmlFromResume(classify, v, offset, hasParent, ws, emit, next, at);
    }
  }

  lemma {:induction false} FixKeepsSettledText(classify: (string, string) -> XmlKind, v: string, k: nat, offset: nat,
                                               hasParent: bool, ws: string)
    requires SettledBefore(v, k, offset) && Blank(ws)
    ensures OpensWith(FixXmlFrom(classify, v, offset, hasParent, ws), v[..k])
    decreases Count(v[offset..], '$')
  {
    var resumed, emit, next, at := SettledRound(classify, v, k, offset, hasParent, ws);
    if resumed {
      var rest := FixXmlFrom(classify, next, at, hasParent, ws);
      var longer := v[..k];
      if emit == [] {
        var k' :| k <= k' <= at && SettledBefore(next, k', at);
        FixKeepsSettledText(classify, next, k', at, hasParent, ws);
        longer := next[..k'];
        assert next[..k'][..k] == next[..k];
      }
      PrependOpensWith(emit, rest, v[..k], longer);
    }
  }

  // ---------------------------------------------------------------------
  // Removing quotes, as written
  // ---------------------------------------------------------------------

  /**
   * With the quote right before the splice, the quote goes; with one
   * whitespace character between them, the whitespace goes and the quote
   * stays; with more, the prefix cut is out of bounds.
   */
  lemma QuotedPrefix(q: string, quote: char, w: string)
    requires quote == '\'' || quote == '"'
    requires forall i | 0 <= i < |w| :: IsSpace(w[i])
    ensures EndsWith(Trim(q + [quote] + w), "'") || EndsWith(Trim(q + [quote] + w), "\"")
    ensures RTrim(q + [quote] + w) == q + [quote]
  {
    var x := q + [quote];
    assert forall i | 0 <= i < |w| :: IsTrimmable(w[i]);
    TrimAfterMark(x, w);
    RTrimPadded(x, w);
    var t := Trim(x + w);
    assert t[|t| - 1..] == [quote];
  }

  lemma UnquoteByGap(q: string, quote: char, w: string, suffix: string)
    requires quote == '\'' || quote == '"'
    requires forall i | 0 <= i < |w| :: IsSpace(w[i])
    requires LTrim(suffix) != []
    ensures var r := XmlUnquote(q + [quote] + w, suffix);
            (|w| == 0 ==> r == Ok((q, LTrim(suffix)[1..])))
            && (|w| == 1 ==> r == Ok((q + [quote], LTrim(suffix)[1..])))
            && (|w| >= 2 ==> r.Failure?)
  {
    var x := q + [quote];
    QuotedPrefix(q, quote, w);
    assert x[..|q|] == q;
    assert x[..|x|] == x;
  }

  /**
   * Removing the parentheses around a where-in splice: with `(` right
   * before the splice, the parenthesis goes; with one whitespace character
   * between them, the whitespace goes and the parenthesis stays; with more,
   * the prefix cut is out of bounds. Whitespace before the closing `)` is
   * always dropped with it.
   */
  lemma InUnwrapByGap(p: string, w1: string, w2: string, s: string)
    requires forall i | 0 <= i < |w1| :: IsSpace(w1[i])
    requires forall i | 0 <= i < |w2| :: IsSpace(w2[i])
    ensures var r := InUnwrap(p + "(" + w1, w2 + ")" + s);
            (|w1| == 0 ==> r == Ok((p, s)))
            && (|w1| == 1 ==> r == Ok((p + "(", s)))
            && (|w1| >= 2 ==> r.Failure?)
  {
    var x := p + "(";
    RTrimPadded(x, w1);
    assert w2 + ")" + s == w2 + (")" + s);
    LTrimPadded(w2, ")" + s);
    assert x[..|p|] == p;
    assert x[..|x|] == x;
  }

  /**
   * A where-in splice with two or more whitespace characters between `(`
   * and `${` makes the fix fail even without a parent tag: the cut runs
   * before the parent is looked at.
   */
  lemma NoParentWideGapFails(classify: (string, string) -> XmlKind, v: string, st: nat, en: nat, ws: string,
                             p: string, w1: string, w2: string, s: string)
    requires st + 3 < en <= |v| && Blank(ws) && classify(v[..st], v[st + 2..en - 1]) == WhereIn
    requires forall i | 0 <= i < |w1| :: IsSpace(w1[i])
    requires forall i | 0 <= i < |w2| :: IsSpace(w2[i])
    requires v[..st] == p + "(" + w1 && |w1| >= 2 && v[en..] == w2 + ")" + s
    ensures XmlRewriteSplice(classify, v, st, en, false, ws).Failure?
  {
    InUnwrapByGap(p, w1, w2, s);
    NoParentCutFails(classify, v, st, en, ws);
  }

  /** A failed parenthesis cut makes a parentless where-in round fail. */
  lemma NoParentCutFails(classify: (string, string) -> XmlKind, v: string, st: nat, en: nat, ws: string)
    requires st + 3 < en <= |v| && Blank(ws) && classify(v[..st], v[st + 2..en - 1]) == WhereIn
    requires InUnwrap(v[..st], v[en..]).Failure?
    ensures XmlRewriteSplice(classify, v, st, en, false, ws).Failure?
  {
    WhereInNoParent(classify, v, st, en, ws);
  }

  /**
   * The LIKE rewrite keeps the text before the splice up to its last
   * character that is not a quote, percent, space or line break, then the
   * CONCAT, then the text after the splice from its first character that is
   * not a quote, percent or space; it resumes right after the CONCAT.
   */
  lemma XmlLikeStepStrips(v: string, st: nat, en: nat)
    requires st < en <= |v|
    ensures var (next, at) := XmlLikeStep(v, st, en);
            var concat := Annotation.LikeConcat(v[st..en]);
            exists m: nat, n: nat | Annotation.StrippedAround(v, st, en, m, n, XmlLikeStripEnd, Annotation.LikeStrip) ::
              next == v[..m] + concat + v[n..] && at == m + |concat|
  {
    Annotation.StripsAround(v, st, en, XmlLikeStripEnd, Annotation.LikeStrip);
  }
}
