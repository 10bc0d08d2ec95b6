// Expression helpers of the Java inspections: the text of an expression,
// the deconstruction of a string concatenation, the "SQL-relevant type"
// test, method signatures and the walks up the syntax tree.

module ExpressionUtils {
  import opened Wrappers
  import opened JavaString

  // ---------------------------------------------------------------------
  // Expressions
  // ---------------------------------------------------------------------

  /** A type as the host reports it: its canonical and its presentable text. */
  datatype JType = JType(canonical: string, presentable: string)

  const StringType := JType("java.lang.String", "String")

  /**
   * What every expression carries: its source text, its type when the host
   * knows it, and whether the host judges it a compile-time constant.
   */
  datatype Info = Info(src: string, jtype: Option<JType>, constant: bool)

  datatype Operator = Plus | OtherOperator

  /** The shapes of method call that the type test looks into. */
  datatype CallShape =
    | StringJoin(argTypes: seq<Option<JType>>)       // java.lang.String.join
    | CommonsJoin(argTypes: seq<Option<JType>>)      // StringUtils.join, commons-lang or lang3
    | QualifiedCall(targetIsEnum: bool)              // a call whose qualifier resolves to something
    | PlainCall                                      // any other call

  /**
   * The expressions the inspections tell apart. A reference is resolved
   * already: to a field (with its initializer, if any) or to a local
   * variable. For a local, the host's reference search decides whether
   * every assignment to it and its initializer are text; those verdicts
   * are the two flags.
   */
  datatype Expr =
    | Literal(value: Option<string>, info: Info)
    | FieldRef(name: string, init: Option<Expr>, info: Info)
    | LocalRef(name: string, constConcat: bool, constBuilder: bool, info: Info)
    | Polyadic(op: Operator, operands: seq<Expr>, info: Info)
    | Call(shape: CallShape, info: Info)
    | Other(info: Info)

  const PrimitiveNames: set<string> := {"boolean", "byte", "char", "short", "int", "long", "float", "double", "void"}

  /** TypeConversionUtil.isPrimitiveAndNotNull */
  predicate PrimitiveType(t: Option<JType>) {
    t.Some? && t.value.canonical in PrimitiveNames
  }

  /** getLiteralInnerText: the value of a literal, as a string. */
  function LiteralInnerText(e: Expr): (r: Option<string>)
    ensures r.Some? ==> e.Literal?
  {
    if e.Literal? then e.value else None
  }

  // ---------------------------------------------------------------------
  // getText
  // ---------------------------------------------------------------------

  /**
   * getText(e, force): a literal's value; else the source text of a
   * primitive or constant non-concatenation; else, for a field, the text of
   * its initializer or its name; else, for a concatenation, the texts of its
   * operands joined when each has one and they are not all empty; else,
   * when forced, the source text.
   */
  function GetText(e: Expr, force: bool): (r: Option<string>)
    ensures force ==> r.Some?
    ensures e.FieldRef? ==> r.Some?
    ensures e.Literal? && e.value.Some? ==> r == e.value
    decreases e
  {
    var literal := LiteralInnerText(e);
    var simple :=
      if literal.None? && (PrimitiveType(e.info.jtype) || (e.info.constant && !e.Polyadic?))
      then Some(e.info.src) else literal;
    var field :=
      if simple.None? && e.FieldRef? then
        var t := if e.init.Some? then GetText(e.init.value, false) else None;
        if t.None? then Some(e.name) else t
      else simple;
    var joined :=
      if field.None? && e.Polyadic? then
        var c := OperandsText(e.operands, force);
        if c.Some? && c.value != [] then c else None
      else field;
    if force && joined.None? then Some(e.info.src) else joined
  }

  /** The operand texts joined, or None as soon as one operand has none. */
  function OperandsText(ops: seq<Expr>, force: bool): (r: Option<string>)
    decreases ops
  {
    if ops == [] then Some([])
    else match GetText(ops[0], force)
      case None => None
      case Some(t) =>
        match OperandsText(ops[1..], force)
        case None => None
        case Some(rest) => Some(t + rest)
  }

  /** isText */
  predicate IsText(e: Expr) {
    GetText(e, false).Some?
  }

  /** Each operand's own text, concatenated: the reference for OperandsText. */
  function ConcatTexts(ops: seq<Expr>, force: bool): string
    requires forall i | 0 <= i < |ops| :: GetText(ops[i], force).Some?
  {
    if ops == [] then [] else GetText(ops[0], force).value + ConcatTexts(ops[1..], force)
  }

  /** The operands have a joined text exactly when each has a text, and it is theirs concatenated. */
  lemma {:induction false} OperandsTextIff(ops: seq<Expr>, force: bool)
    ensures OperandsText(ops, force).Some? <==> forall i | 0 <= i < |ops| :: GetText(ops[i], force).Some?
    ensures OperandsText(ops, force).Some? ==> OperandsText(ops, force).value == ConcatTexts(ops, force)
  {
    if ops != [] {
      OperandsTextIff(ops[1..], force);
      if OperandsText(ops, force).Some? {
        forall i | 0 <= i < |ops| ensures GetText(ops[i], force).Some? {
          if i > 0 {
            assert ops[i] == ops[1..][i - 1];
          }
        }
      }
      if forall i | 0 <= i < |ops| :: GetText(ops[i], force).Some? {
        assert forall i | 0 <= i < |ops[1..]| :: GetText(ops[1..][i], force).Some? by {
          forall i | 0 <= i < |ops[1..]| ensures GetText(ops[1..][i], force).Some? {
            assert ops[1..][i] == ops[i + 1];
          }
        }
      }
    }
  }

  /**
   * Forcing never changes a text the expression already has: force only
   * fills in what would otherwise be null.
   */
  lemma {:induction false} ForceKeepsText(e: Expr)
    requires IsText(e)
    ensures GetText(e, true) == GetText(e, false)
    decreases e
  {
    if e.Polyadic? && OperandsText(e.operands, false).Some? {
      OperandsForceKeepsText(e.operands);
    }
  }

  lemma {:induction false} OperandsForceKeepsText(ops: seq<Expr>)
    requires OperandsText(ops, false).Some?
    ensures OperandsText(ops, true) == OperandsText(ops, false)
    decreases ops
  {
    if ops != [] {
      ForceKeepsText(ops[0]);
      OperandsForceKeepsText(ops[1..]);
    }
  }

  /**
   * getText as the source computes it: the same chain of fallbacks, with
   * the operand texts gathered in a buffer that is emptied when an operand
   * has no text.
   */
  method GetTextOf(e: Expr, force: bool) returns (r: Option<string>)
    ensures r == GetText(e, force)
    decreases e
  {
    r := LiteralInnerText(e);
    if r.None? && (PrimitiveType(e.info.jtype) || (e.info.constant && !e.Polyadic?)) {
      r := Some(e.info.src);
    }
    if r.None? && e.FieldRef? {
      if e.init.Some? {
        r := GetTextOf(e.init.value, false);
      }
      if r.None? {
        r := Some(e.name);
      }
    }
    if r.None? && e.Polyadic? {
      var sb: string := [];
      var i := 0;
      var broken := false;
      assert e.operands[0..] == e.operands;
      assert OperandsText(e.operands, force).Some? ==> [] + OperandsText(e.operands, force).value == OperandsText(e.operands, force).value;
      while i < |e.operands|
        invariant 0 <= i <= |e.operands|
        invariant !broken ==> OperandsText(e.operands, force) == Prepended(sb, OperandsText(e.operands[i..], force))
        invariant broken ==> OperandsText(e.operands, force).None? && sb == []
        decreases |e.operands| - i
      {
        var text := GetTextOf(e.operands[i], force);
        OperandsTextStep(e.operands, i, force, sb);
        if text.None? {
          sb := [];
          broken := true;
          break;
        }
        sb := sb + text.value;
        i := i + 1;
      }
      if !broken {
        assert e.operands[i..] == [];
        assert sb + [] == sb;
      }
      assert OperandsText(e.operands, force) == (if broken then None else Some(sb));
      if |sb| != 0 {
        r := Some(sb);
      }
    }
    if force && r.None? {
      r := Some(e.info.src);
    }
  }

  /** One operand further into the buffer. */
  lemma OperandsTextStep(ops: seq<Expr>, i: nat, force: bool, sb: string)
    requires i < |ops|
    ensures GetText(ops[i], force).None? ==> OperandsText(ops[i..], force).None?
    ensures GetText(ops[i], force).Some? ==>
              Prepended(sb, OperandsText(ops[i..], force))
              == Prepended(sb + GetText(ops[i], force).value, OperandsText(ops[i + 1..], force))
  {
    assert ops[i..][0] == ops[i] && ops[i..][1..] == ops[i + 1..];
    if GetText(ops[i], force).Some? && OperandsText(ops[i + 1..], force).Some? {
      var t, rest := GetText(ops[i], force).value, OperandsText(ops[i + 1..], force).value;
      assert sb + (t + rest) == (sb + t) + rest;
    }
  }

  /** `pre` in front of a joined text; nothing when there is none. */
  function Prepended(pre: string, r: Option<string>): Option<string> {
    match r
    case None => None
    case Some(t) => Some(pre + t)
  }

  // ---------------------------------------------------------------------
  // deconPolyadicExpression
  // ---------------------------------------------------------------------

  /** getCustomLiteral(s): a string literal whose value is s. */
  function CustomLiteral(s: string): (r: Expr)
    ensures LiteralInnerText(r) == Some(s)
  {
    Literal(Some(s), Info("\"" + s + "\"", Some(StringType), true))
  }

  predicate IsBuilderType(t: Option<JType>) {
    t.Some? && (t.value.canonical == "java.lang.StringBuilder" || t.value.canonical == "java.lang.StringBuffer")
  }

  predicate IsStringType(t: Option<JType>) {
    t.Some? && t.value.canonical == "java.lang.String"
  }

  /**
   * The parts of a `+` concatenation, in order: a local judged constant
   * becomes a literal of its source text; a field is replaced by the parts
   * of its concatenation initializer, by a text initializer, or by a literal
   * of its source text; anything else stays. Other operators give nothing.
   */
  function Decon(e: Expr): (r: seq<Expr>)
    ensures !(e.Polyadic? && e.op == Plus) ==> r == []
    decreases e
  {
    if e.Polyadic? && e.op == Plus then DeconOps(e.operands) else []
  }

  function DeconOps(ops: seq<Expr>): seq<Expr>
    decreases ops
  {
    if ops == [] then [] else DeconOperand(ops[0]) + DeconOps(ops[1..])
  }

  function DeconOperand(x: Expr): (r: seq<Expr>)
    ensures !SplicedField(x) ==> |r| == 1
    decreases x
  {
    match x
    case LocalRef(_, constConcat, constBuilder, info) =>
      if IsStringType(info.jtype) && constConcat then [CustomLiteral(info.src)]
      else if IsBuilderType(info.jtype) && constBuilder then [CustomLiteral(info.src)]
      else [x]
    case FieldRef(_, init, info) =>
      if init.Some? && init.value.Polyadic? then Decon(init.value)
      else if init.Some? && IsText(init.value) then [init.value]
      else [CustomLiteral(info.src)]
    case _ => [x]
  }

  /** The parts of a joined list of operands are the parts of each, in order. */
  lemma {:induction false} DeconOpsAppend(a: seq<Expr>, b: seq<Expr>)
    ensures DeconOps(a + b) == DeconOps(a) + DeconOps(b)
    decreases a
  {
    if a == [] {
      assert a + b == b;
    } else {
      assert (a + b)[1..] == a[1..] + b;
      DeconOpsAppend(a[1..], b);
    }
  }

  /** A field whose initializer is itself a concatenation. */
  predicate SplicedField(x: Expr) {
    x.FieldRef? && x.init.Some? && x.init.value.Polyadic?
  }

  /**
   * Without fields that splice in their own concatenation, each operand
   * gives exactly one part, at its own position; an operand that is neither
   * a local nor a field is that part itself.
   */
  lemma {:induction false} DeconOnePerOperand(ops: seq<Expr>)
    requires forall i | 0 <= i < |ops| :: !SplicedField(ops[i])
    ensures |DeconOps(ops)| == |ops|
    ensures forall i | 0 <= i < |ops| :: DeconOps(ops)[i] == DeconOperand(ops[i])[0]
    ensures forall i | 0 <= i < |ops| && !ops[i].LocalRef? && !ops[i].FieldRef? :: DeconOps(ops)[i] == ops[i]
    decreases ops
  {
    if ops != [] {
      assert forall i | 0 <= i < |ops[1..]| :: ops[1..][i] == ops[i + 1];
      DeconOnePerOperand(ops[1..]);
      assert |DeconOperand(ops[0])| == 1;
      forall i | 0 <= i < |ops| ensures DeconOps(ops)[i] == DeconOperand(ops[i])[0] {
        if i > 0 {
          assert DeconOps(ops)[i] == DeconOps(ops[1..])[i - 1];
          assert ops[1..][i - 1] == ops[i];
        }
      }
    }
  }

  /** A local String judged constant is replaced by a literal of its own name, not its value. */
  lemma ConstLocalBecomesName(x: Expr)
    requires x.LocalRef? && IsStringType(x.info.jtype) && x.constConcat
    ensures DeconOperand(x) == [CustomLiteral(x.info.src)]
    ensures GetText(DeconOperand(x)[0], false) == Some(x.info.src)
  {
  }

  /**
   * deconPolyadicExpression as the source computes it: a list built
   * operand by operand, recursing into a field's concatenation initializer.
   */
  method DeconOf(e: Expr) returns (r: seq<Expr>)
    ensures r == Decon(e)
    decreases e, 1
  {
    r := [];
    if e.Polyadic? && e.op == Plus {
      var i := 0;
      while i < |e.operands|
        invariant 0 <= i <= |e.operands|
        invariant r + DeconOps(e.operands[i..]) == DeconOps(e.operands)
        decreases |e.operands| - i
      {
        assert e.operands[i..] == [e.operands[i]] + e.operands[i + 1..];
        var parts := DeconOperandOf(e.operands[i]);
        r := r + parts;
        i := i + 1;
      }
      assert e.operands[i..] == [];
    }
  }

  method DeconOperandOf(x: Expr) returns (r: seq<Expr>)
    ensures r == DeconOperand(x)
    decreases x, 0
  {
    if x.LocalRef? {
      if IsStringType(x.info.jtype) && x.constConcat {
        return [CustomLiteral(x.info.src)];
      }
      if IsBuilderType(x.info.jtype) && x.constBuilder {
        return [CustomLiteral(x.info.src)];
      }
      return [x];
    }
    if x.FieldRef? {
      if x.init.Some? && x.init.value.Polyadic? {
        r := DeconOf(x.init.value);
      } else if x.init.Some? && IsText(x.init.value) {
        r := [x.init.value];
      } else {
        r := [CustomLiteral(x.info.src)];
      }
      return;
    }
    return [x];
  }

  // ---------------------------------------------------------------------
  // isSqliCareExpression
  // ---------------------------------------------------------------------

  const CareTypes: set<string> := {"java.lang.String", "java.lang.StringBuilder", "java.lang.StringBuffer"}

  /** The presentable text of an argument type mentions `<String>`. */
  predicate StringElements(t: Option<JType>) {
    t.Some? && Contains(t.value.presentable, "<String>")
  }

  /**
   * isSqliCareExpression: an expression whose value can carry SQL text. A
   * known type outside String/StringBuilder/StringBuffer is not; a join
   * is only when it joins String elements; a call on an enum class is not.
   */
  predicate IsSqliCare(e: Expr) {
    if e.info.jtype.Some? && e.info.jtype.value.canonical !in CareTypes then false
    else if e.Call? then
      match e.shape
      case StringJoin(args) => |args| == 2 && StringElements(args[1])
      case CommonsJoin(args) => |args| >= 1 && StringElements(args[0])
      case QualifiedCall(targetIsEnum) => !targetIsEnum
      case PlainCall => true
    else true
  }

  /** A known type that cannot carry text is never of interest; an unknown type alone never excludes. */
  lemma CareTypeTest(e: Expr)
    ensures e.info.jtype.Some? && e.info.jtype.value.canonical !in CareTypes ==> !IsSqliCare(e)
    ensures !e.Call? && (e.info.jtype.None? || e.info.jtype.value.canonical in CareTypes) ==> IsSqliCare(e)
  {
  }

  // ---------------------------------------------------------------------
  // getMethodFQName and getElementFQName
  // ---------------------------------------------------------------------

  datatype Param = Param(ptype: string, name: string)

  /** A method declaration: its class's qualified name and its return type, when known. */
  datatype MethodSig = MethodSig(className: Option<string>, returnType: Option<string>, name: string, params: seq<Param>)

  function ParamText(p: Param): string {
    p.ptype + " " + p.name
  }

  function ParamTexts(ps: seq<Param>): (r: seq<string>)
    ensures |r| == |ps| && forall i | 0 <= i < |ps| :: r[i] == ParamText(ps[i])
  {
    if ps == [] then [] else [ParamText(ps[0])] + ParamTexts(ps[1..])
  }

  /** "<class> <return type> <name>(<type> <param>, ...)", with "null" for what is unknown. */
  function MethodFQName(m: MethodSig): string {
    OrNull(m.className) + " " + OrNull(m.returnType) + " " + m.name + "(" + Join(", ", ParamTexts(m.params)) + ")"
  }

  /** Each parameter followed by ", ": what the source's loop appends. */
  function Listed(ps: seq<Param>): (r: string)
    ensures ps != [] ==> |r| >= 2 && r[|r| - 2..] == ", "
  {
    if ps == [] then [] else
      var rest := Listed(ps[1..]);
      var r := ParamText(ps[0]) + ", " + rest;
      assert ps[1..] != [] ==> r[|r| - 2..] == rest[|rest| - 2..];
      r
  }

  /** Dropping the last ", " from the listed parameters leaves them joined with ", ". */
  lemma {:induction false} ListedIsJoin(ps: seq<Param>)
    requires ps != []
    ensures Listed(ps)[..|Listed(ps)| - 2] == Join(", ", ParamTexts(ps))
  {
    var l := Listed(ps);
    if |ps| == 1 {
      assert ps[1..] == [];
      assert l == ParamText(ps[0]) + ", ";
    } else {
      ListedIsJoin(ps[1..]);
      var rest := Listed(ps[1..]);
      assert l == ParamText(ps[0]) + ", " + rest;
      assert ParamTexts(ps) == [ParamText(ps[0])] + ParamTexts(ps[1..]);
      assert ParamTexts(ps)[1..] == ParamTexts(ps[1..]);
      assert l[..|l| - 2] == ParamText(ps[0]) + ", " + rest[..|rest| - 2];
    }
  }

  /**
   * getMethodFQName as the source builds it: the head, then each
   * parameter followed by ", ", then the last ", " deleted when there was
   * a parameter.
   */
  method MethodFQNameOf(m: MethodSig) returns (r: string)
    ensures r == MethodFQName(m)
  {
    var head := OrNull(m.className) + " " + OrNull(m.returnType) + " " + m.name + "(";
    var fq := head;
    var i := 0;
    while i < |m.params|
      invariant 0 <= i <= |m.params|
      invariant fq + Listed(m.params[i..]) == head + Listed(m.params)
      decreases |m.params| - i
    {
      assert m.params[i..][1..] == m.params[i + 1..];
      fq := fq + ParamText(m.params[i]) + ", ";
      i := i + 1;
    }
    assert m.params[i..] == [];
    assert fq == head + Listed(m.params);
    if |m.params| != 0 {
      ListedIsJoin(m.params);
      assert fq[..|fq| - 2] == head + Listed(m.params)[..|Listed(m.params)| - 2];
      fq := fq[..|fq| - 2];
    }
    r := fq + ")";
  }

  /** The nodes between an element and the root of its file, the element first. */
  datatype Node =
    | StatementNode
    | FieldNode
    | MethodNode(sig: MethodSig)
    | ClassNode(qualifiedName: Option<string>)
    | ClassInitializerNode
    | OtherNode

  /**
   * The first node of `chain` that `target` accepts, unless `stop` accepts
   * an earlier node or that node itself: the getParentOf* walks, where
   * running off the chain is the null parent.
   */
  function FirstUpTo(chain: seq<Node>, target: Node -> bool, stop: Node -> bool): (r: Option<nat>)
    ensures r.Some? ==> r.value < |chain| && target(chain[r.value]) &&
                        forall j | 0 <= j < r.value :: !target(chain[j]) && !stop(chain[j])
    ensures r.None? ==> forall j | 0 <= j < |chain| :: target(chain[j]) ==>
                          exists k | 0 <= k <= j :: stop(chain[k]) && !target(chain[k])
    decreases |chain|
  {
    if chain == [] then None
    else if target(chain[0]) then Some(0)
    else if stop(chain[0]) then None
    else match FirstUpTo(chain[1..], target, stop)
      case None =>
        assert forall j | 1 <= j < |chain| :: chain[j] == chain[1..][j - 1];
        None
      case Some(i) =>
        assert forall j | 1 <= j <= i + 1 :: chain[j] == chain[1..][j - 1];
        Some(i + 1)
  }

  /** The walk as the source writes it: step to the parent until the target kind, the stop kind or the end. */
  method WalkUp(chain: seq<Node>, target: Node -> bool, stop: Node -> bool) returns (r: Option<nat>)
    ensures r == FirstUpTo(chain, target, stop)
  {
    var i := 0;
    while i == |chain| || !target(chain[i])
      invariant 0 <= i <= |chain|
      invariant FirstUpTo(chain, target, stop) == OffsetBy(FirstUpTo(chain[i..], target, stop), i)
      decreases |chain| - i
    {
      if i == |chain| || stop(chain[i]) {
        return None;
      }
      assert chain[i..][1..] == chain[i + 1..];
      i := i + 1;
    }
    return Some(i);
  }

  function OffsetBy(r: Option<nat>, d: nat): Option<nat> {
    if r.Some? then Some(r.value + d) else None
  }

  predicate IsStatement(n: Node) { n.StatementNode? }
  predicate IsField(n: Node) { n.FieldNode? }
  predicate IsMethod(n: Node) { n.MethodNode? }
  predicate IsClass(n: Node) { n.ClassNode? }
  predicate IsClassInitializer(n: Node) { n.ClassInitializerNode? }
  predicate Never(n: Node) { false }

  /** getParentOfStatement: the nearest statement, not past the enclosing method. */
  function ParentOfStatement(chain: seq<Node>): Option<nat> { FirstUpTo(chain, IsStatement, IsMethod) }

  /** getParentOfField: the nearest field, not past the enclosing class. */
  function ParentOfField(chain: seq<Node>): Option<nat> { FirstUpTo(chain, IsField, IsClass) }

  function ParentOfMethod(chain: seq<Node>): Option<nat> { FirstUpTo(chain, IsMethod, Never) }
  function ParentOfClass(chain: seq<Node>): Option<nat> { FirstUpTo(chain, IsClass, Never) }
  function ParentOfClassInitializer(chain: seq<Node>): Option<nat> { FirstUpTo(chain, IsClassInitializer, Never) }

  /** Without a stop kind the walk finds a node of the kind exactly when there is one. */
  lemma UnboundedWalkFinds(chain: seq<Node>, target: Node -> bool, j: nat)
    requires j < |chain| && target(chain[j])
    ensures FirstUpTo(chain, target, Never).Some? && FirstUpTo(chain, target, Never).value <= j
  {
  }

  /**
   * getElementFQName: the signature of the enclosing method; else the
   * qualified name of the enclosing class, which may be null; else "null".
   */
  function ElementFQName(chain: seq<Node>): (r: Option<string>)
    ensures ParentOfMethod(chain).None? && ParentOfClass(chain).None? ==> r == Some("null")
  {
    match ParentOfMethod(chain)
    case Some(i) => Some(MethodFQName(chain[i].sig))
    case None =>
      match ParentOfClass(chain)
      case Some(i) => chain[i].qualifiedName
      case None => Some("null")
  }

  /** Inside a method the name is that method's signature, whatever classes lie around it. */
  lemma ElementInMethod(chain: seq<Node>, i: nat)
    requires i < |chain| && chain[i].MethodNode? && forall j | 0 <= j < i :: !chain[j].MethodNode?
    ensures ElementFQName(chain) == Some(MethodFQName(chain[i].sig))
  {
    UnboundedWalkFinds(chain, IsMethod, i);
  }
}
