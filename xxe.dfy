// The XML external entity rule: a parser factory created into a variable
// must be configured, in the scope that creates it, with the secure
// settings its kind requires; the quick fix writes those settings.

module Xxe {
  import opened Wrappers
  import opened JavaString

  /** The kinds of parser factory the rule recognizes. */
  datatype Factory =
    | DocumentBuilderFactory
    | SaxParserFactory
    | SaxTransformerFactory
    | SaxBuilder
    | SaxReader
    | XmlReaderFactory
    | SchemaFactory
    | XmlInputFactory
    | TransformerFactory
    | ValidatorOfSchema

  /** The creating expression: a static call `cls.name(...)` or `new cls(...)`. */
  datatype Creator = StaticCall(cls: string, name: string) | NewObject(cls: string)

  /** Which factory a creating expression makes, if it is one the rule knows. */
  function FactoryOf(c: Creator): Option<Factory> {
    match c
    case StaticCall(cls, name) =>
      if cls == "javax.xml.parsers.DocumentBuilderFactory" && name == "newInstance" then Some(DocumentBuilderFactory)
      else if cls == "javax.xml.parsers.SAXParserFactory" && name == "newInstance" then Some(SaxParserFactory)
      else if cls == "javax.xml.transform.sax.SAXTransformerFactory" && name == "newInstance" then Some(SaxTransformerFactory)
      else if cls == "org.xml.sax.helpers.XMLReaderFactory" && name == "createXMLReader" then Some(XmlReaderFactory)
      else if cls == "javax.xml.validation.SchemaFactory" && name == "newInstance" then Some(SchemaFactory)
      else if cls == "javax.xml.stream.XMLInputFactory" && name == "newFactory" then Some(XmlInputFactory)
      else if cls == "javax.xml.transform.TransformerFactory" && name == "newInstance" then Some(TransformerFactory)
      else if cls == "javax.xml.validation.Schema" && name == "newValidator" then Some(ValidatorOfSchema)
      else None
    case NewObject(cls) =>
      if cls == "org.jdom.input.SAXBuilder" then Some(SaxBuilder)
      else if cls == "org.dom4j.io.SAXReader" then Some(SaxReader)
      else None
  }

  /** The creating expression of each factory: the inverse of FactoryOf. */
  function CreatorOf(f: Factory): Creator {
    match f
    case DocumentBuilderFactory => StaticCall("javax.xml.parsers.DocumentBuilderFactory", "newInstance")
    case SaxParserFactory => StaticCall("javax.xml.parsers.SAXParserFactory", "newInstance")
    case SaxTransformerFactory => StaticCall("javax.xml.transform.sax.SAXTransformerFactory", "newInstance")
    case XmlReaderFactory => StaticCall("org.xml.sax.helpers.XMLReaderFactory", "createXMLReader")
    case SchemaFactory => StaticCall("javax.xml.validation.SchemaFactory", "newInstance")
    case XmlInputFactory => StaticCall("javax.xml.stream.XMLInputFactory", "newFactory")
    case TransformerFactory => StaticCall("javax.xml.transform.TransformerFactory", "newInstance")
    case ValidatorOfSchema => StaticCall("javax.xml.validation.Schema", "newValidator")
    case SaxBuilder => NewObject("org.jdom.input.SAXBuilder")
    case SaxReader => NewObject("org.dom4j.io.SAXReader")
  }

  /** Every factory is recognized from its creating expression. */
  lemma FactoryOfCreator(f: Factory)
    ensures FactoryOf(CreatorOf(f)) == Some(f)
  {
    if f.DocumentBuilderFactory? || f.SaxParserFactory? || f.SaxTransformerFactory? || f.XmlReaderFactory? {
      ParserFactoryOfCreator(f);
    } else if f.SchemaFactory? || f.XmlInputFactory? || f.TransformerFactory? || f.ValidatorOfSchema? {
      SchemaFactoryOfCreator(f);
    }
  }

  lemma ParserFactoryOfCreator(f: Factory)
    requires f.DocumentBuilderFactory? || f.SaxParserFactory? || f.SaxTransformerFactory? || f.XmlReaderFactory?
    ensures FactoryOf(CreatorOf(f)) == Some(f)
  {
  }

  lemma SchemaFactoryOfCreator(f: Factory)
    requires f.SchemaFactory? || f.XmlInputFactory? || f.TransformerFactory? || f.ValidatorOfSchema?
    ensures FactoryOf(CreatorOf(f)) == Some(f)
  {
  }

  /** The factories secured by refusing DOCTYPE declarations; the others by emptying the external access lists. */
  predicate DoctypeKind(f: Factory) {
    f.DocumentBuilderFactory? || f.SaxParserFactory? || f.SaxBuilder? || f.SaxReader? || f.XmlReaderFactory?
  }

  /** The setter whose calls configure the factory. */
  function CheckedMethodName(f: Factory): (r: string)
    ensures DoctypeKind(f) <==> r == "setFeature"
    ensures r == "setAttribute" <==> f.SaxTransformerFactory? || f.TransformerFactory?
    ensures r == "setProperty" <==> f.SchemaFactory? || f.XmlInputFactory? || f.ValidatorOfSchema?
  {
    if DoctypeKind(f) then "setFeature"
    else if f.SaxTransformerFactory? || f.TransformerFactory? then "setAttribute"
    else "setProperty"
  }

  /** Whether the creating expression may sit under a cast (the transformer factories only). */
  predicate WithTypeCast(f: Factory) {
    f.SaxTransformerFactory? || f.TransformerFactory?
  }

  // ---------------------------------------------------------------------
  // Where the factory goes
  // ---------------------------------------------------------------------

  /** The syntactic parent of an expression, as far as the rule looks. */
  datatype ParentKind = Assignment | LocalVariable | Field | TypeCast | OtherParent

  /** How the factory is held: the three cases the rule checks and fixes. */
  datatype VulnElemType = AssignmentExpression | LocalVariableElem | ClassField

  /** The case for a factory held directly by an element of the given kind. */
  function HeldBy(k: ParentKind): Option<VulnElemType> {
    match k
    case Assignment => Some(AssignmentExpression)
    case LocalVariable => Some(LocalVariableElem)
    case Field => Some(ClassField)
    case _ => None
  }

  /**
   * commonExpressionCheck: the case is chosen by the creating expression's
   * parent, or by its grandparent through a cast for the factories that
   * allow one; anything else is not checked.
   */
  function ElemTypeOf(f: Factory, parent: ParentKind, grand: ParentKind): (r: Option<VulnElemType>)
    ensures parent != TypeCast ==> r == HeldBy(parent)
    ensures parent == TypeCast && WithTypeCast(f) ==> r == HeldBy(grand)
    ensures parent == TypeCast && !WithTypeCast(f) ==> r.None?
  {
    if parent == Assignment || (WithTypeCast(f) && parent == TypeCast && grand == Assignment) then Some(AssignmentExpression)
    else if parent == LocalVariable || (WithTypeCast(f) && parent == TypeCast && grand == LocalVariable) then Some(LocalVariableElem)
    else if parent == Field || (WithTypeCast(f) && parent == TypeCast && grand == Field) then Some(ClassField)
    else None
  }

  // ---------------------------------------------------------------------
  // The rules a walk must satisfy
  // ---------------------------------------------------------------------

  const DoctypeKey: string := "http://apache.org/xml/features/disallow-doctype-decl"
  const DtdKey: string := "XMLConstants.ACCESS_EXTERNAL_DTD"
  const StylesheetKey: string := "XMLConstants.ACCESS_EXTERNAL_STYLESHEET"

  /** The rules of a fresh visitor, none satisfied yet. */
  function RequiredRules(f: Factory): (m: map<string, bool>)
    ensures DoctypeKind(f) ==> m.Keys == {DoctypeKey}
    ensures !DoctypeKind(f) ==> m.Keys == {DtdKey, StylesheetKey}
    ensures forall k | k in m :: !m[k]
  {
    if DoctypeKind(f) then map[DoctypeKey := false]
    else map[DtdKey := false, StylesheetKey := false]
  }

  /** An argument expression, as far as the rule reads it. */
  datatype Arg = StringLit(value: string) | BoolLit(b: bool) | Reference(text: string) | OtherArg

  /** A method call met by the walk: its name, its arguments, and what its qualifier resolves to, if anything. */
  datatype Call = Call(name: string, args: seq<Arg>, qualifier: Option<nat>)

  /** The rule a call satisfies for the factory, if any. */
  function SatisfiedKey(f: Factory, methodName: string, c: Call): (r: Option<string>)
    ensures r.Some? ==> r.value in RequiredRules(f)
    ensures r.Some? ==> c.name == methodName && |c.args| == 2
  {
    if c.name != methodName || |c.args| != 2 then None
    else if DoctypeKind(f) then
      if c.args[0] == StringLit(DoctypeKey) && c.args[1] == BoolLit(true) then Some(DoctypeKey) else None
    else if !c.args[0].Reference? then None
    else if c.args[0].text == DtdKey && c.args[1] == StringLit([]) then Some(DtdKey)
    else if c.args[0].text == StylesheetKey && c.args[1] == StringLit([]) then Some(StylesheetKey)
    else None
  }

  /** Map.replace: only a key already present is updated. */
  function Replace(m: map<string, bool>, k: string, v: bool): (r: map<string, bool>)
    ensures r.Keys == m.Keys
    ensures forall j | j in m :: r[j] == if j == k then v else m[j]
  {
    if k in m then m[k := v] else m
  }

  predicate AllTrue(m: map<string, bool>) {
    forall k | k in m :: m[k]
  }

  /** The visitor's state: its rule map, and whether it found the fix (which also stops the walk). */
  datatype WalkState = WalkState(rules: map<string, bool>, fix: bool)

  function Initial(f: Factory): WalkState {
    WalkState(RequiredRules(f), false)
  }

  /**
   * visitElement on a method call: a satisfying call marks its rule; the
   * fix is found when, in addition, the call is on the tracked variable and
   * every rule is now satisfied.
   */
  function Visit(f: Factory, methodName: string, refVar: nat, s: WalkState, c: Call): WalkState {
    var k := SatisfiedKey(f, methodName, c);
    if k.None? then s
    else
      var rules := Replace(s.rules, k.value, true);
      if c.qualifier == Some(refVar) && AllTrue(rules) then WalkState(rules, true)
      else WalkState(rules, s.fix)
  }

  /** The walk over the calls of a scope, in order, which stops once the fix is found. */
  function WalkFrom(f: Factory, methodName: string, refVar: nat, s: WalkState, calls: seq<Call>): WalkState
    decreases |calls|
  {
    if calls == [] || s.fix then s
    else WalkFrom(f, methodName, refVar, Visit(f, methodName, refVar, s, calls[0]), calls[1..])
  }

  /** Whether the walk of a scope finds the fix for the factory held in `refVar`. */
  predicate Secured(f: Factory, refVar: nat, calls: seq<Call>) {
    WalkFrom(f, CheckedMethodName(f), refVar, Initial(f), calls).fix
  }

  /** One state's rules are those of another, with possibly more of them satisfied. */
  predicate Grown(before: map<string, bool>, after: map<string, bool>) {
    after.Keys == before.Keys && forall k | k in before && before[k] :: after[k]
  }

  /** A visit never un-satisfies a rule, and keeps a found fix. */
  lemma VisitMonotone(f: Factory, methodName: string, refVar: nat, s: WalkState, c: Call)
    ensures Grown(s.rules, Visit(f, methodName, refVar, s, c).rules)
    ensures s.fix ==> Visit(f, methodName, refVar, s, c).fix
  {
  }

  /** Nor does a walk. */
  lemma {:induction false} WalkMonotone(f: Factory, methodName: string, refVar: nat, s: WalkState, calls: seq<Call>)
    ensures Grown(s.rules, WalkFrom(f, methodName, refVar, s, calls).rules)
    ensures s.fix ==> WalkFrom(f, methodName, refVar, s, calls).fix
    decreases |calls|
  {
    if calls != [] && !s.fix {
      var s1 := Visit(f, methodName, refVar, s, calls[0]);
      VisitMonotone(f, methodName, refVar, s, calls[0]);
      WalkMonotone(f, methodName, refVar, s1, calls[1..]);
    }
  }

  /** A fix is only ever found with every rule satisfied. */
  lemma {:induction false} FixNeedsAllRules(f: Factory, methodName: string, refVar: nat, s: WalkState, calls: seq<Call>)
    requires s.fix ==> AllTrue(s.rules)
    ensures var t := WalkFrom(f, methodName, refVar, s, calls); t.fix ==> AllTrue(t.rules)
    decreases |calls|
  {
    if calls != [] && !s.fix {
      FixNeedsAllRules(f, methodName, refVar, Visit(f, methodName, refVar, s, calls[0]), calls[1..]);
    }
  }

  /** A secured factory had every one of its required rules satisfied by some call of the walk. */
  lemma SecuredMeansAllRules(f: Factory, refVar: nat, calls: seq<Call>)
    requires Secured(f, refVar, calls)
    ensures var t := WalkFrom(f, CheckedMethodName(f), refVar, Initial(f), calls);
            t.rules.Keys == RequiredRules(f).Keys && forall k | k in t.rules :: t.rules[k]
  {
    FixNeedsAllRules(f, CheckedMethodName(f), refVar, Initial(f), calls);
    WalkMonotone(f, CheckedMethodName(f), refVar, Initial(f), calls);
  }

  /** A rule no call satisfies stays unsatisfied, so the fix is never found while it is required. */
  lemma {:induction false} UnmetRuleBlocksFix(f: Factory, methodName: string, refVar: nat, s: WalkState, calls: seq<Call>, k: string)
    requires k in s.rules && !s.rules[k] && !s.fix
    requires forall i | 0 <= i < |calls| :: SatisfiedKey(f, methodName, calls[i]) != Some(k)
    ensures var t := WalkFrom(f, methodName, refVar, s, calls); !t.fix && k in t.rules && !t.rules[k]
    decreases |calls|
  {
    if calls != [] {
      var s1 := Visit(f, methodName, refVar, s, calls[0]);
      assert k in s1.rules && !s1.rules[k] && !s1.fix;
      UnmetRuleBlocksFix(f, methodName, refVar, s1, calls[1..], k);
    }
  }

  /** Disabling external DTDs alone does not secure a factory that also needs external stylesheets disabled. */
  lemma DtdAloneInsecure(f: Factory, refVar: nat, calls: seq<Call>)
    requires !DoctypeKind(f)
    requires forall i | 0 <= i < |calls| :: SatisfiedKey(f, CheckedMethodName(f), calls[i]) != Some(StylesheetKey)
    ensures !Secured(f, refVar, calls)
  {
    UnmetRuleBlocksFix(f, CheckedMethodName(f), refVar, Initial(f), calls, StylesheetKey);
  }

  /** Settings made on another variable mark the rules but never find the fix. */
  lemma {:induction false} OtherVariableNeverFixes(f: Factory, methodName: string, refVar: nat, s: WalkState, calls: seq<Call>)
    requires !s.fix
    requires forall i | 0 <= i < |calls| :: calls[i].qualifier != Some(refVar)
    ensures !WalkFrom(f, methodName, refVar, s, calls).fix
    decreases |calls|
  {
    if calls != [] {
      OtherVariableNeverFixes(f, methodName, refVar, Visit(f, methodName, refVar, s, calls[0]), calls[1..]);
    }
  }

  /**
   * DisableEntityElementVisitor: the rule map and the fix flag of one walk,
   * for one factory and the variable that holds it.
   */
  class EntityVisitor {
    const factory: Factory
    const methodName: string
    const refVar: nat
    var rules: map<string, bool>
    var fix: bool

    constructor (methodName: string, factory: Factory, refVar: nat)
      ensures this.factory == factory && this.methodName == methodName && this.refVar == refVar
      ensures WalkState(rules, fix) == Initial(factory)
    {
      this.factory := factory;
      this.methodName := methodName;
      this.refVar := refVar;
      rules := RequiredRules(factory);
      fix := false;
    }

    /** visitElement on one method call. */
    method VisitCall(c: Call)
      modifies this
      ensures WalkState(rules, fix) == Visit(factory, methodName, refVar, old(WalkState(rules, fix)), c)
    {
      if c.name != methodName || |c.args| != 2 {
        return;
      }
      var key: string;
      if DoctypeKind(factory) {
        if c.args[0] == StringLit(DoctypeKey) && c.args[1] == BoolLit(true) {
          key := DoctypeKey;
        } else {
          return;
        }
      } else {
        if !c.args[0].Reference? {
          return;
        }
        if c.args[0].text == DtdKey && c.args[1] == StringLit([]) {
          key := DtdKey;
        } else if c.args[0].text == StylesheetKey && c.args[1] == StringLit([]) {
          key := StylesheetKey;
        } else {
          return;
        }
      }
      if key in rules {
        rules := rules[key := true];
      }
      if c.qualifier == Some(refVar) && AllTrue(rules) {
        fix := true;
      }
    }

    /** The walk of one scope: its method calls in order, until the fix is found. */
    method Walk(calls: seq<Call>)
      modifies this
      ensures WalkState(rules, fix) == WalkFrom(factory, methodName, refVar, old(WalkState(rules, fix)), calls)
    {
      var i := 0;
      while i < |calls| && !fix
        invariant 0 <= i <= |calls|
        invariant WalkFrom(factory, methodName, refVar, WalkState(rules, fix), calls[i..])
                  == WalkFrom(factory, methodName, refVar, old(WalkState(rules, fix)), calls)
        decreases |calls| - i
      {
        assert calls[i..][0] == calls[i] && calls[i..][1..] == calls[i + 1..];
        VisitCall(calls[i]);
        i := i + 1;
      }
      assert i == |calls| ==> calls[i..] == [];
    }
  }

  // ---------------------------------------------------------------------
  // The quick fix
  // ---------------------------------------------------------------------

  /** What the quick fix reads of the variable: the left side of an assignment, a local variable or a field. */
  datatype FixTarget = AssignTo(lhsReference: Option<string>) | LocalNamed(name: string) | FieldNamed(name: string)

  /** The variable name; an assignment to something other than a plain reference has none. */
  function VarName(t: FixTarget): (r: Option<string>)
    ensures r.None? <==> t.AssignTo? && t.lhsReference.None?
  {
    match t
    case AssignTo(lhs) => lhs
    case LocalNamed(name) => Some(name)
    case FieldNamed(name) => Some(name)
  }

  /**
   * The calls the fix statements make, on the variable resolved as
   * `refVar`: the DOCTYPE feature, or the external DTD setting before the
   * external stylesheet setting.
   */
  function FixCalls(f: Factory, refVar: nat): (r: seq<Call>)
    ensures forall i | 0 <= i < |r| :: r[i].name == CheckedMethodName(f) && |r[i].args| == 2 && r[i].qualifier == Some(refVar)
  {
    var m := CheckedMethodName(f);
    if DoctypeKind(f) then [Call(m, [StringLit(DoctypeKey), BoolLit(true)], Some(refVar))]
    else [Call(m, [Reference(DtdKey), StringLit([])], Some(refVar)),
          Call(m, [Reference(StylesheetKey), StringLit([])], Some(refVar))]
  }

  function ArgText(a: Arg): string {
    match a
    case StringLit(value) => "\"" + value + "\""
    case BoolLit(b) => if b then "true" else "false"
    case Reference(text) => text
    case OtherArg => "?"
  }

  /** The statement text of a two-argument call on the variable `v`. */
  function CallText(v: string, c: Call): string
    requires |c.args| == 2
  {
    v + "." + c.name + "(" + ArgText(c.args[0]) + ", " + ArgText(c.args[1]) + ");"
  }

  /**
   * The statements the quick fix inserts, in order, for the variable that
   * holds the factory; none without a variable name.
   */
  function FixStatements(f: Factory, varName: Option<string>): (r: seq<string>)
    ensures varName.None? <==> r == []
    ensures |r| == if varName.None? then 0 else if DoctypeKind(f) then 1 else 2
  {
    if varName.None? then []
    else
      var calls := FixCalls(f, 0);
      seq(|calls|, i requires 0 <= i < |calls| => CallText(varName.value, calls[i]))
  }

  /** Every fix statement calls the factory's setter on the variable. */
  lemma FixStatementsCallSetter(f: Factory, v: string, i: nat)
    requires i < |FixStatements(f, Some(v))|
    ensures v + "." + CheckedMethodName(f) + "(" <= FixStatements(f, Some(v))[i]
  {
    var c := FixCalls(f, 0)[i];
    assert FixStatements(f, Some(v))[i] == CallText(v, c);
    CallTextStarts(v, c);
  }

  lemma CallTextStarts(v: string, c: Call)
    requires |c.args| == 2
    ensures v + "." + c.name + "(" <= CallText(v, c)
  {
    var head := v + "." + c.name + "(";
    var rest := ArgText(c.args[0]) + ", " + ArgText(c.args[1]) + ");";
    assert CallText(v, c) == head + rest;
  }

  /** The calls the fix writes secure the factory: the quick fix removes the report. */
  lemma FixCallsSecure(f: Factory, refVar: nat)
    ensures Secured(f, refVar, FixCalls(f, refVar))
  {
    var m := CheckedMethodName(f);
    var calls := FixCalls(f, refVar);
    assert |DtdKey| != |StylesheetKey|;
    assert SatisfiedKey(f, m, calls[0]) == Some(if DoctypeKind(f) then DoctypeKey else DtdKey);
    var s1 := Visit(f, m, refVar, Initial(f), calls[0]);
    if DoctypeKind(f) {
      assert s1.fix;
    } else {
      assert s1 == WalkState(map[DtdKey := true, StylesheetKey := false], false);
      assert SatisfiedKey(f, m, calls[1]) == Some(StylesheetKey);
      var s2 := Visit(f, m, refVar, s1, calls[1]);
      assert s2.rules == map[DtdKey := true, StylesheetKey := true];
      assert s2.fix;
      assert calls[1..][0] == calls[1] && calls[1..][1..] == [];
      assert WalkFrom(f, m, refVar, s2, []) == s2;
      assert WalkFrom(f, m, refVar, s1, calls[1..]) == WalkFrom(f, m, refVar, s2, []);
      assert WalkFrom(f, m, refVar, Initial(f), calls) == WalkFrom(f, m, refVar, s1, calls[1..]);
    }
  }

  /**
   * Writing the statements into a block: the first goes right after the
   * statement that creates the factory, at `anchor`; the others go after
   * that one, last first, so that they end up in order.
   */
  method InsertStatements(block: seq<string>, anchor: nat, texts: seq<string>) returns (r: seq<string>)
    requires anchor < |block| && texts != []
    ensures r == block[..anchor + 1] + texts + block[anchor + 1..]
  {
    r := block[..anchor + 1] + [texts[0]] + block[anchor + 1..];
    var first := anchor + 1;
    var i := |texts| - 1;
    while i >= 1
      invariant 0 <= i < |texts|
      invariant r == block[..anchor + 1] + [texts[0]] + texts[i + 1..] + block[anchor + 1..]
      decreases i
    {
      r := r[..first + 1] + [texts[i]] + r[first + 1..];
      assert texts[i..] == [texts[i]] + texts[i + 1..];
      i := i - 1;
    }
    assert [texts[0]] + texts[1..] == texts;
  }
}
