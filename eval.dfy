/**
 * A reference semantics for the expressions the folder rewrites: the value a
 * constant, conditional, logical, binary, unary, sequence or member
 * expression has when every operand it needs has one. It is written from
 * the language's rules (with the engine's own coercions and arithmetic taken
 * from `Host`), not from the folding rules, so that each rule can be proved
 * to keep the value of what it folds.
 */
module Semantics {
  import opened Values
  import opened Tree
  import opened ConstModel
  import ConstLemmas

  /** The operators FOLD_BINARY evaluates; any other leaves the value undefined. */
  const BinaryOperators: set<string> :=
    {"+", "-", "*", "/", "%", "==", "!=", "===", "!==", "<", "<=", ">", ">=", "<<", ">>", ">>>", "|", "&", "^"}

  /** `n.operator` as a string ("" when it is missing or not a string). */
  function Operator(n: Node): string {
    var o := Field(n, "operator");
    if o.Leaf? && o.p.Str? then o.p.s else ""
  }

  /** The value of a unary operator applied to `v`; unknown operators have none. */
  function UnaryValue(host: Host, op: string, v: Value): Option<Value> {
    if op == "-" then Some(Primitive(Negate(host.toNumber(v))))
    else if op == "+" then Some(Primitive(host.toNumber(v)))
    else if op == "~" then Some(Primitive(host.bitNot(v)))
    else if op == "!" then Some(Not(v))
    else if op == "typeof" then Some(Primitive(Str(TypeOf(v))))
    else if op == "delete" then Some(Primitive(Bool(true)))
    else if op == "void" then Some(Primitive(Undefined))
    else None
  }

  // ---- array indices ----------------------------------------------------------

  function Digit(d: nat): char
    requires d < 10
  {
    ('0' as int + d) as char
  }

  predicate IsDigit(c: char) {
    '0' <= c <= '9'
  }

  /** The canonical decimal form of `k`, the string `String(k)` gives. */
  function DecimalString(k: nat): (s: string)
    ensures |s| > 0 && (forall i :: 0 <= i < |s| ==> IsDigit(s[i]))
    ensures k > 0 ==> s[0] != '0'
    ensures k == 0 ==> s == "0"
    decreases k
  {
    if k < 10 then [Digit(k)] else DecimalString(k / 10) + [Digit(k % 10)]
  }

  /** The number a string of digits denotes. */
  function DigitsValue(s: string): nat
    requires forall i :: 0 <= i < |s| ==> IsDigit(s[i])
    decreases |s|
  {
    if s == [] then 0 else DigitsValue(s[..|s| - 1]) * 10 + DigitValue(s[|s| - 1])
  }

  function DigitValue(c: char): (d: nat)
    requires IsDigit(c)
    ensures d < 10 && Digit(d) == c
  {
    c as int - '0' as int
  }

  /** The index a property name denotes, if it is the canonical form of one. */
  function ParseIndex(s: string): Option<nat> {
    if |s| > 0 && (forall i :: 0 <= i < |s| ==> IsDigit(s[i])) && (s[0] != '0' || |s| == 1)
    then Some(DigitsValue(s)) else None
  }

  /** Reading back the canonical form gives the index. */
  lemma {:induction false} DecimalDigits(k: nat)
    ensures DigitsValue(DecimalString(k)) == k
    decreases k
  {
    if k >= 10 {
      DecimalDigits(k / 10);
      var s := DecimalString(k);
      assert s[..|s| - 1] == DecimalString(k / 10);
    }
  }

  lemma ParseDecimal(k: nat)
    ensures ParseIndex(DecimalString(k)) == Some(k)
  {
    DecimalDigits(k);
  }

  /** A name that parses as an index is that index's canonical form. */
  lemma DecimalParse(s: string)
    requires ParseIndex(s).Some?
    ensures DecimalString(ParseIndex(s).value) == s
  {
    DigitsCanonical(s);
  }

  lemma {:induction false} DigitsCanonical(s: string)
    requires |s| > 0 && (forall i :: 0 <= i < |s| ==> IsDigit(s[i])) && (s[0] != '0' || |s| == 1)
    ensures DecimalString(DigitsValue(s)) == s
    decreases |s|
  {
    var pre := s[..|s| - 1];
    var d := DigitValue(s[|s| - 1]);
    if pre == [] {
      assert s == [Digit(d)];
    } else {
      assert pre[0] == s[0];
      DigitsCanonical(pre);
      assert DigitsValue(pre) > 0;
      var k := DigitsValue(s);
      assert k / 10 == DigitsValue(pre) && k % 10 == d;
      assert s == pre + [Digit(d)];
    }
  }

  /**
   * Reading property `name` of a string or an array: `length`, or an own
   * index (a hole reads as undefined). Other names are not modelled.
   */
  function Lookup(o: Value, name: string): Option<Value> {
    match o
    case Primitive(Str(s)) =>
      if name == "length" then Some(Primitive(Num(|s| as real)))
      else if ParseIndex(name).Some? && ParseIndex(name).value < |s| then Some(Primitive(Str([s[ParseIndex(name).value]])))
      else None
    case Array(es) =>
      if name == "length" then Some(Primitive(Num(|es| as real)))
      else if ParseIndex(name).Some? && ParseIndex(name).value < |es| then
        var e := es[ParseIndex(name).value];
        Some(if e.Some? then e.value else Primitive(Undefined))
      else None
    case _ => None
  }

  // ---- the value of an expression -----------------------------------------------

  /** The value of expression `n`, when every operand it needs has one. */
  ghost function Eval(host: Host, n: Node): Option<Value>
    decreases n
  {
    if IsConstExpr(n) then
      (match ConstValue(n) case Ok(v) => Some(v) case Err(_) => None)
    else match n
      case Obj(fs, _) =>
        var t := TypeName(n);
        if t == "ConditionalExpression" && "test" in fs then
          // only the branch the test selects is evaluated
          match Eval(host, fs["test"])
          case None => None
          case Some(c) =>
            if Truthy(c) then (if "consequent" in fs then Eval(host, fs["consequent"]) else None)
            else if "alternate" in fs then Eval(host, fs["alternate"]) else None
        else if t == "LogicalExpression" && "left" in fs then
          // the right operand is evaluated only when the left one does not decide
          match Eval(host, fs["left"])
          case None => None
          case Some(l) =>
            if Operator(n) == "||" then (if Truthy(l) then Some(l) else if "right" in fs then Eval(host, fs["right"]) else None)
            else if Operator(n) == "&&" then (if !Truthy(l) then Some(l) else if "right" in fs then Eval(host, fs["right"]) else None)
            else None
        else if t == "BinaryExpression" && "left" in fs && "right" in fs then
          match (Eval(host, fs["left"]), Eval(host, fs["right"]))
          case (Some(l), Some(r)) => if Operator(n) in BinaryOperators then Some(host.binary(Operator(n), l, r)) else None
          case _ => None
        else if t == "UnaryExpression" && "argument" in fs then
          match Eval(host, fs["argument"])
          case None => None
          case Some(v) => UnaryValue(host, Operator(n), v)
        else if t == "SequenceExpression" && "expressions" in fs && fs["expressions"].Arr? then
          var es := fs["expressions"].elems;
          if |es| > 0 && forall i :: 0 <= i < |es| ==> Eval(host, es[i]).Some? then Eval(host, es[|es| - 1]) else None
        else if t == "MemberExpression" && "object" in fs && "property" in fs then
          match Eval(host, fs["object"])
          case None => None
          case Some(o) =>
            if NodeTruthy(Field(n, "computed")) then
              match Eval(host, fs["property"])
              case None => None
              case Some(pv) => Lookup(o, host.toString(pv))
            else
              var name := Field(fs["property"], "name");
              if TypeName(fs["property"]) == "Identifier" && name.Leaf? && name.p.Str? then Lookup(o, name.p.s) else None
        else None
      case _ => None
  }

  /** A constant node has the value CONSTVALUE gives it. */
  lemma EvalConstant(host: Host, n: Node)
    requires IsConstExpr(n) && ConstValue(n).Ok?
    ensures Eval(host, n) == Some(ConstValue(n).value)
  {
  }

  /** The value of a unary operator node that is not itself constant. */
  lemma EvalUnaryNode(host: Host, n: Node)
    requires !IsConstExpr(n) && TypeName(n) == "UnaryExpression" && "argument" in n.fields
    ensures Eval(host, n) == match Eval(host, n.fields["argument"])
      case None => None
      case Some(v) => UnaryValue(host, Operator(n), v)
  {
  }

  /** The value of a comma expression that is not itself constant. */
  lemma EvalSequenceNode(host: Host, n: Node)
    requires !IsConstExpr(n) && TypeName(n) == "SequenceExpression" && Field(n, "expressions").Arr?
    ensures var es := Field(n, "expressions").elems;
      Eval(host, n) == if |es| > 0 && forall i :: 0 <= i < |es| ==> Eval(host, es[i]).Some? then Eval(host, es[|es| - 1]) else None
  {
  }

  /** The node TO_CONSTEXPR builds for `v` has the value `v`. */
  lemma EvalToConstExpr(host: Host, v: Value)
    requires ToConstExpr(v).Ok?
    ensures Eval(host, ToConstExpr(v).value) == Some(v)
  {
    ConstLemmas.RoundTrip(v);
  }
}
