/**
 * The constant-value model of the folder: the sentinel nodes for values with
 * no literal form, which nodes count as constant, the value a constant node
 * stands for (CONSTVALUE) and the node a value is turned into (TO_CONSTEXPR).
 */
module ConstModel {
  import opened Values
  import opened Tree

  const ConstMarked := Marks(true, false, None)

  /** `{type: 'Literal', value: p}` with the given markers. */
  function Lit(p: Prim, m: Marks): Node {
    Obj(map["type" := StrLeaf("Literal"), "value" := Leaf(p)], m)
  }

  const ZeroLit := Lit(Num(0.0), ConstMarked)

  const EMPTY := Obj(map["type" := StrLeaf("EmptyStatement")], ConstMarked)
  const NULL := Lit(Null, ConstMarked)
  const NAN := Obj(map["type" := StrLeaf("BinaryExpression"), "operator" := StrLeaf("/"), "left" := ZeroLit, "right" := ZeroLit], ConstMarked)
  const NEG_ZERO := Obj(map["type" := StrLeaf("UnaryExpression"), "operator" := StrLeaf("-"), "argument" := ZeroLit], ConstMarked)
  const UNDEFINED := Obj(map["type" := StrLeaf("UnaryExpression"), "operator" := StrLeaf("void"), "argument" := ZeroLit], ConstMarked)

  /** `IS_UNARY_NEGATIVE`: unary minus over a non-NaN numeric literal. */
  predicate IsUnaryNegative(n: Node) {
    var arg := Field(n, "argument");
    var v := Field(arg, "value");
    TypeName(n) == "UnaryExpression" && Field(n, "operator") == StrLeaf("-")
    && v.Leaf? && IsNumber(v.p) && !v.p.NaN? && TypeName(arg) == "Literal"
  }

  /**
   * `IS_CONSTEXPR`. An ArrayExpression whose `elements` is not an array is
   * treated as having no elements.
   */
  predicate IsConstExpr(n: Node)
    decreases n
  {
    match n
    case Obj(fs, m) =>
      if m.constExpr then true
      else if TypeName(n) == "ArrayExpression" then
        "elements" in fs && fs["elements"].Arr? ==>
          forall i :: 0 <= i < |fs["elements"].elems| ==>
            fs["elements"].elems[i] == Leaf(Null) || IsConstExpr(fs["elements"].elems[i])
      else TypeName(n) == "Literal" || n == UNDEFINED || n == NAN || IsUnaryNegative(n)
    case _ => false
  }

  /** `CONSTVALUE`: the value a constant node stands for; throws on anything else. */
  function ConstValue(n: Node): Result<Value>
    decreases n, 1
  {
    match n
    case Leaf(p) => Err(if p.Undefined? || p.Null? then TypeError else NotAConstExpr)
    case Arr(_) => Err(NotAConstExpr)
    case Obj(fs, m) =>
      if m.constValue.Some? && Truthy(Primitive(m.constValue.value)) then Ok(Primitive(m.constValue.value))
      else if n == UNDEFINED then Ok(Primitive(Undefined))
      else if n == NAN then Ok(Primitive(NaN))
      else if !IsConstExpr(n) then Err(NotAConstExpr)
      else if TypeName(n) == "ArrayExpression" then
        if "elements" in fs && fs["elements"].Arr? then
          var vs :- ConstValues(fs["elements"].elems);
          Ok(Array(vs))
        else Ok(Array([]))
      else if IsUnaryNegative(n) then Ok(Primitive(Negate(Field(Field(n, "argument"), "value").p)))
      else if Field(n, "regex") != Leaf(Undefined) then
        var re := Field(n, "regex");
        Ok(RegExp(StringField(re, "pattern"), StringField(re, "flags")))
      else
        var v := Field(n, "value");
        Ok(Primitive(if v.Leaf? then v.p else Undefined))
  }

  /** The element loop of CONSTVALUE: a null element is a hole, any other is converted. */
  function ConstValues(es: seq<Node>): (r: Result<seq<Option<Value>>>)
    ensures r.Ok? ==> |r.value| == |es|
    decreases es, 0
  {
    if es == [] then Ok([])
    else
      var first :- if es[0] == Leaf(Null) then Ok(None) else (var v :- ConstValue(es[0]); Ok(Some(v)));
      var rest :- ConstValues(es[1..]);
      Ok([first] + rest)
  }

  function StringField(n: Node, name: string): string {
    var f := Field(n, name);
    if f.Leaf? && f.p.Str? then f.p.s else ""
  }

  /** Numbers below zero, the ones TO_CONSTEXPR wraps in a unary minus. */
  predicate IsNegative(p: Prim) {
    (p.Num? && p.r < 0.0) || p == Inf(true)
  }

  /**
   * The node the interning map `CONSTEXPRS` holds (or will hold) for `p`:
   * the three preset sentinels, a marked unary minus over the positive literal
   * for a negative number, and a marked literal otherwise. The node caches `p`.
   */
  function Interned(p: Prim): Node {
    match p
    case Undefined => UNDEFINED
    case NaN => NAN
    case Null => NULL
    case NegZero => NEG_ZERO
    case _ =>
      if IsNegative(p) then
        Obj(map["type" := StrLeaf("UnaryExpression"), "operator" := StrLeaf("-"),
                "argument" := Lit(Negate(p), Unmarked)], Marks(true, false, Some(p)))
      else Lit(p, Marks(true, false, Some(p)))
  }

  /** The initial content of `CONSTEXPRS`. */
  const InitialConstExprs: map<Prim, Node> := map[Undefined := UNDEFINED, NaN := NAN, Null := NULL]

  /**
   * `TO_CONSTEXPR`, with the negative-zero test on numbers only and holes of an
   * array becoming null elements (see the findings in README.md).
   */
  function ToConstExpr(v: Value): (r: Result<Node>)
    ensures r.Ok? ==> r.value.Obj? && r.value.marks.constExpr
    ensures r.Err? ==> r.error == NotAConstValue
    decreases v, 1
  {
    match v
    case Primitive(p) => Ok(Interned(p))
    case Array(es) =>
      var nodes :- ToConstExprs(es);
      Ok(Obj(map["type" := StrLeaf("ArrayExpression"), "elements" := Arr(nodes)], ConstMarked))
    case RegExp(_, _) => Err(NotAConstValue)
  }

  /** `value.map(TO_CONSTEXPR)` with holes kept as null elements. */
  function ToConstExprs(es: seq<Option<Value>>): (r: Result<seq<Node>>)
    ensures r.Ok? ==> |r.value| == |es|
    ensures r.Err? ==> r.error == NotAConstValue
    decreases es, 0
  {
    if es == [] then Ok([])
    else
      var first :- ToConstExprElem(es[0]);
      var rest :- ToConstExprs(es[1..]);
      Ok([first] + rest)
  }

  /** One element of an array value: a hole becomes a null element. */
  function ToConstExprElem(e: Option<Value>): (r: Result<Node>)
    ensures r.Err? ==> r.error == NotAConstValue
    decreases e, 2
  {
    match e
    case None => Ok(Leaf(Null))
    case Some(x) => ToConstExpr(x)
  }

  /** TO_CONSTEXPR as the source writes it. */
  function ToConstExprAsWritten(host: Host, v: Value): Result<Node>
    decreases v, 1
  {
    if host.toNumber(v) == NegZero then Ok(NEG_ZERO)   // `1 / value === -Infinity` after coercion
    else match v
      case Primitive(p) => Ok(Interned(p))
      case Array(es) =>
        var nodes :- ToConstExprsAsWritten(host, es);
        Ok(Obj(map["type" := StrLeaf("ArrayExpression"), "elements" := Arr(nodes)], ConstMarked))
      case RegExp(_, _) => Err(NotAConstValue)
  }

  /** `value.map(TO_CONSTEXPR)`: `map` skips holes, so they stay holes and read as undefined. */
  function ToConstExprsAsWritten(host: Host, es: seq<Option<Value>>): Result<seq<Node>>
    decreases es, 0
  {
    if es == [] then Ok([])
    else
      var e := es[0];
      assert e in es;
      var first :- match e case None => Ok(Leaf(Undefined)) case Some(x) => assert x < e; ToConstExprAsWritten(host, x);
      var rest :- ToConstExprsAsWritten(host, es[1..]);
      Ok([first] + rest)
  }

  predicate HasRegExp(v: Value)
    decreases v
  {
    match v
    case Primitive(_) => false
    case RegExp(_, _) => true
    case Array(es) => exists i :: 0 <= i < |es| && es[i].Some? && HasRegExp(es[i].value)
  }
}
