// The Jackson default-typing rule: class-based polymorphic type ids in
// @JsonTypeInfo are reported and rewritten to NAME; enableDefaultTyping is
// reported unless the mapper is handed to a Redis serializer.

module Jackson {
  import opened Wrappers
  import opened JavaString
  import opened Patterns

  // ---------------------------------------------------------------------
  // @JsonTypeInfo(use = ...)
  // ---------------------------------------------------------------------

  /** One name-value pair of the annotation: its name (none for the default attribute) and its value's text. */
  datatype Pair = Pair(name: Option<string>, value: Option<string>)

  /** A `use` value naming classes: the values the rule reports. */
  predicate ClassTypeId(text: string) {
    text == "JsonTypeInfo.Id.CLASS" || text == "JsonTypeInfo.Id.MINIMAL_CLASS"
  }

  predicate Flagged(p: Pair) {
    p.name == Some("use") && p.value.Some? && ClassTypeId(p.value.value)
  }

  /** The first flagged pair from `from` on, if any. */
  function FirstFlagged(pairs: seq<Pair>, from: nat): (r: Option<nat>)
    requires from <= |pairs|
    ensures r.Some? ==> from <= r.value < |pairs| && Flagged(pairs[r.value])
    ensures r.Some? ==> forall j | from <= j < r.value :: !Flagged(pairs[j])
    ensures r.None? ==> forall j | from <= j < |pairs| :: !Flagged(pairs[j])
    decreases |pairs| - from
  {
    if from == |pairs| then None
    else if Flagged(pairs[from]) then Some(from)
    else FirstFlagged(pairs, from + 1)
  }

  /**
   * visitAnnotation: on a JsonTypeInfo annotation, the first `use` pair
   * with a class-based value is reported, and only that one.
   */
  method VisitAnnotation(qualifiedName: Option<string>, pairs: seq<Pair>) returns (reported: Option<nat>)
    ensures qualifiedName != Some("com.fasterxml.jackson.annotation.JsonTypeInfo") ==> reported.None?
    ensures qualifiedName == Some("com.fasterxml.jackson.annotation.JsonTypeInfo") ==> reported == FirstFlagged(pairs, 0)
  {
    reported := None;
    if qualifiedName != Some("com.fasterxml.jackson.annotation.JsonTypeInfo") {
      return;
    }
    var i := 0;
    while i < |pairs|
      invariant 0 <= i <= |pairs|
      invariant FirstFlagged(pairs, 0) == FirstFlagged(pairs, i)
      decreases |pairs| - i
    {
      var p := pairs[i];
      if p.name == Some("use") {
        if p.value.Some? && (p.value.value == "JsonTypeInfo.Id.CLASS" || p.value.value == "JsonTypeInfo.Id.MINIMAL_CLASS") {
          reported := Some(i);
          break;
        }
      }
      i := i + 1;
    }
  }

  /** An annotation is reported exactly when one of its pairs is flagged. */
  lemma ReportedIffFlagged(pairs: seq<Pair>)
    ensures FirstFlagged(pairs, 0).Some? <==> exists j | 0 <= j < |pairs| :: Flagged(pairs[j])
  {
    if FirstFlagged(pairs, 0).None? {
      assert forall j | 0 <= j < |pairs| :: !Flagged(pairs[j]);
    }
  }

  // ---------------------------------------------------------------------
  // The annotation quick fix
  // ---------------------------------------------------------------------

  /** The split of the value's text with its last piece replaced by NAME when that piece names classes. */
  function FixedPieces(text: string): (r: seq<string>)
    ensures |r| == |Split(Dot, text)|
    ensures forall i | 0 <= i < |r| - 1 :: r[i] == Split(Dot, text)[i]
  {
    var ps := Split(Dot, text);
    if |ps| > 1 && (ps[|ps| - 1] == "CLASS" || ps[|ps| - 1] == "MINIMAL_CLASS") then ps[..|ps| - 1] + ["NAME"]
    else ps
  }

  /** The text the fix writes in place of the value. */
  function FixedText(text: string): string {
    Join(".", FixedPieces(text))
  }

  /**
   * applyFix: split the value's text on '.', overwrite the last slot of
   * the array when it names classes, and join again.
   */
  method ApplyAnnotationFix(text: string) returns (r: string)
    ensures r == FixedText(text)
  {
    var ps := Split(Dot, text);
    var splitText := new string[|ps|](i requires 0 <= i < |ps| => ps[i]);
    if splitText.Length > 1 && (splitText[splitText.Length - 1] == "CLASS" || splitText[splitText.Length - 1] == "MINIMAL_CLASS") {
      splitText[splitText.Length - 1] := "NAME";
    }
    assert splitText[..] == FixedPieces(text);
    r := Join(".", splitText[..]);
  }

  /** A dotted value whose last piece names classes gets NAME there, the rest kept. */
  lemma FixRenames(prefix: seq<string>, last: string)
    requires prefix != [] && (last == "CLASS" || last == "MINIMAL_CLASS")
    requires forall i | 0 <= i < |prefix| :: DotFree(prefix[i])
    ensures FixedText(Join(".", prefix + [last])) == Join(".", prefix + ["NAME"])
  {
    var ps := prefix + [last];
    AllDotFree(prefix, last);
    SplitOfJoinDot(ps);
    FixedPiecesOf(Join(".", ps), ps);
    assert ps[..|ps| - 1] == prefix;
  }

  lemma AllDotFree(prefix: seq<string>, last: string)
    requires forall i | 0 <= i < |prefix| :: DotFree(prefix[i])
    requires last == "CLASS" || last == "MINIMAL_CLASS"
    ensures var ps := prefix + [last]; ps[|ps| - 1] != [] && forall i | 0 <= i < |ps| :: DotFree(ps[i])
  {
    var ps := prefix + [last];
    assert DotFree(last);
    forall i | 0 <= i < |ps| ensures DotFree(ps[i]) {
      if i < |prefix| { assert ps[i] == prefix[i]; }
    }
  }

  lemma FixedPiecesOf(text: string, ps: seq<string>)
    requires Split(Dot, text) == ps && |ps| > 1 && (ps[|ps| - 1] == "CLASS" || ps[|ps| - 1] == "MINIMAL_CLASS")
    ensures FixedPieces(text) == ps[..|ps| - 1] + ["NAME"]
  {
  }

  /** The fix of a reported value: JsonTypeInfo.Id.<last> becomes JsonTypeInfo.Id.NAME. */
  lemma FixTypeId(last: string, text: string)
    requires (last == "CLASS" || last == "MINIMAL_CLASS") && text == "JsonTypeInfo.Id." + last
    ensures FixedText(text) == "JsonTypeInfo.Id.NAME"
  {
    var prefix := ["JsonTypeInfo", "Id"];
    assert DotFree(prefix[0]) && DotFree(prefix[1]);
    JoinCons(".", "Id", [last]);
    JoinCons(".", "JsonTypeInfo", ["Id", last]);
    assert prefix + [last] == ["JsonTypeInfo"] + ["Id", last];
    assert "JsonTypeInfo" + "." + ("Id" + "." + last) == text;
    JoinCons(".", "Id", ["NAME"]);
    JoinCons(".", "JsonTypeInfo", ["Id", "NAME"]);
    assert prefix + ["NAME"] == ["JsonTypeInfo"] + ["Id", "NAME"];
    assert "JsonTypeInfo" + "." + ("Id" + "." + "NAME") == "JsonTypeInfo.Id.NAME";
    FixRenames(prefix, last);
  }

  /** Both reported values become JsonTypeInfo.Id.NAME, so the fixed annotation is no longer reported. */
  lemma FixClearsReport(text: string)
    requires ClassTypeId(text)
    ensures FixedText(text) == "JsonTypeInfo.Id.NAME" && !ClassTypeId(FixedText(text))
  {
    if text == "JsonTypeInfo.Id.CLASS" {
      FixTypeId("CLASS", text);
    } else {
      FixTypeId("MINIMAL_CLASS", text);
    }
    assert |"JsonTypeInfo.Id.NAME"| != |"JsonTypeInfo.Id.CLASS"|;
  }

  /** A flagged pair whose value the fix rewrote is flagged no longer, and keeps its name. */
  lemma FixUnflags(p: Pair)
    requires Flagged(p)
    ensures var q := Pair(p.name, Some(FixedText(p.value.value)));
            !Flagged(q) && q.name == Some("use") && q.value == Some("JsonTypeInfo.Id.NAME")
  {
    FixClearsReport(p.value.value);
  }

  /** A value the fix has no reason to touch, and that does not end in '.', is written back unchanged. */
  lemma FixKeepsOtherValues(text: string)
    requires !EndsWith(text, ".")
    requires var ps := Split(Dot, text); |ps| <= 1 || (ps[|ps| - 1] != "CLASS" && ps[|ps| - 1] != "MINIMAL_CLASS")
    ensures FixedText(text) == text
  {
    SplitJoinDot(text);
  }

  // ---------------------------------------------------------------------
  // ObjectMapper.enableDefaultTyping
  // ---------------------------------------------------------------------

  /** An argument: a reference with what it resolves to, or any other expression. */
  datatype Arg = Reference(resolved: Option<nat>) | OtherArg

  /** A method call met by the walk: whether it is Jackson2JsonRedisSerializer.setObjectMapper, and its arguments. */
  datatype Call = Call(isSetObjectMapper: bool, args: seq<Arg>)

  /** A call that hands the mapper held in `refVar` to a Redis serializer. */
  predicate HandsOver(refVar: nat, c: Call) {
    c.isSetObjectMapper && |c.args| == 1 && c.args[0] == Reference(Some(refVar))
  }

  /**
   * UseToJackson2JsonRedisSerializerVisitor over the calls of the scope in
   * walk order: the fix is found at the first call handing the mapper over.
   */
  method WalkSerializer(refVar: nat, calls: seq<Call>) returns (fix: bool)
    ensures fix <==> exists i | 0 <= i < |calls| :: HandsOver(refVar, calls[i])
  {
    fix := false;
    var i := 0;
    while i < |calls|
      invariant 0 <= i <= |calls|
      invariant forall j | 0 <= j < i :: !HandsOver(refVar, calls[j])
      decreases |calls| - i
    {
      var c := calls[i];
      if c.isSetObjectMapper && |c.args| == 1 && c.args[0].Reference? {
        if c.args[0].resolved == Some(refVar) {
          fix := true;
          return;
        }
      }
      i := i + 1;
    }
  }

  /**
   * visitMethodCallExpression on enableDefaultTyping: reported unless its
   * qualifier resolves to a variable whose scope hands it to a Redis
   * serializer.
   */
  predicate DefaultTypingReported(qualifier: Option<nat>, calls: seq<Call>) {
    !(qualifier.Some? && exists i | 0 <= i < |calls| :: HandsOver(qualifier.value, calls[i]))
  }

  method VisitEnableDefaultTyping(qualifier: Option<nat>, calls: seq<Call>) returns (reported: bool)
    ensures reported == DefaultTypingReported(qualifier, calls)
  {
    if qualifier.Some? {
      var fix := WalkSerializer(qualifier.value, calls);
      if fix {
        return false;
      }
    }
    return true;
  }

  /** Handing another variable to the serializer, or none at all, does not exempt the mapper. */
  lemma OtherMapperStillReported(refVar: nat, calls: seq<Call>)
    requires forall i | 0 <= i < |calls| :: calls[i].isSetObjectMapper ==> calls[i].args != [Reference(Some(refVar))]
    ensures DefaultTypingReported(Some(refVar), calls)
  {
  }
}
