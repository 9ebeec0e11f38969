/**
 * The expression folds of the first pass: FOLD_CONDITIONAL, FOLD_LOGICAL,
 * FOLD_BINARY and FOLD_UNARY. Each is specified by a function of the tree
 * and the path it is given, implemented by a method on the folder's state,
 * and proved to keep the value of the expression it rewrites.
 */
module FoldExpressions {
  import opened Values
  import opened Tree
  import opened ConstModel
  import opened NodePaths
  import opened Edits
  import opened Semantics
  import ConstLemmas

  // ---- FOLD_CONDITIONAL ---------------------------------------------------------

  /** A conditional expression with a constant test becomes the branch the test selects. */
  function ConditionalStep(root: Node, p: NodePath): Result<Step> {
    var n := p.node;
    var test := Field(n, "test");
    if TypeName(n) != "ConditionalExpression" || !IsConstExpr(test) then Ok(Step(Pass, root))
    else
      var c :- ConstValue(test);
      Replaced(root, p, if Truthy(c) then Field(n, "consequent") else Field(n, "alternate"))
  }

  method FoldConditional(f: Folder, p: NodePath) returns (r: Result<Stage>)
    modifies f`root
    ensures Agrees(r, f.root, ConditionalStep(old(f.root), p))
  {
    var n := p.node;
    if TypeName(n) == "ConditionalExpression" {
      var test := Field(n, "test");
      if IsConstExpr(test) {
        var c :- ConstValue(test);
        var q: NodePath;
        if Truthy(c) {
          q :- f.Replace(p, Field(n, "consequent"));
        } else {
          q :- f.Replace(p, Field(n, "alternate"));
        }
        return Ok(Fire(Some(q)));
      }
    }
    return Ok(Pass);
  }

  // ---- FOLD_LOGICAL -------------------------------------------------------------

  /**
   * `c || e` becomes `c` when `c` is truthy and `e` otherwise; `c && e` the
   * other way round. Other operators are left alone.
   */
  function LogicalStep(root: Node, p: NodePath): Result<Step> {
    var n := p.node;
    var left := Field(n, "left");
    if TypeName(n) != "LogicalExpression" || !IsConstExpr(left) then Ok(Step(Pass, root))
    else
      var l :- ConstValue(left);
      if Operator(n) == "||" then
        if Truthy(l) then ReplacedConst(root, p, l) else Replaced(root, p, Field(n, "right"))
      else if Operator(n) == "&&" then
        if !Truthy(l) then ReplacedConst(root, p, l) else Replaced(root, p, Field(n, "right"))
      else Ok(Step(Pass, root))
  }

  method FoldLogical(f: Folder, p: NodePath) returns (r: Result<Stage>)
    requires f.Valid()
    modifies f
    ensures f.Valid()
    ensures Agrees(r, f.root, LogicalStep(old(f.root), p))
  {
    var n := p.node;
    if TypeName(n) == "LogicalExpression" {
      var left := Field(n, "left");
      if IsConstExpr(left) {
        var l :- ConstValue(left);
        var op := Operator(n);
        if (op == "||" && Truthy(l)) || (op == "&&" && !Truthy(l)) {
          var c :- f.ToConstExpr(l);
          var q :- f.Replace(p, c);
          return Ok(Fire(Some(q)));
        } else if op == "||" || op == "&&" {
          var q :- f.Replace(p, Field(n, "right"));
          return Ok(Fire(Some(q)));
        }
      }
    }
    return Ok(Pass);
  }

  // ---- FOLD_BINARY --------------------------------------------------------------

  /** `value == value && isFinite(value)`: not NaN, and finite once coerced to a number. */
  predicate Foldable(host: Host, v: Value) {
    v != Primitive(NaN) && IsFiniteNumber(host.toNumber(v))
  }

  /**
   * In `==` and `!=` an operand that is the UNDEFINED sentinel becomes NULL;
   * otherwise two constant operands of a known operator fold to the result
   * when it is a finite number or coerces to one.
   */
  function BinaryStep(host: Host, root: Node, p: NodePath): Result<Step> {
    var n := p.node;
    var op, left, right := Operator(n), Field(n, "left"), Field(n, "right");
    if TypeName(n) != "BinaryExpression" || n == NAN then Ok(Step(Pass, root))
    else if (op == "==" || op == "!=") && (left == UNDEFINED || right == UNDEFINED) then
      var r1 :- if left == UNDEFINED then ReplaceTree(root, Sub(p, "left"), NULL) else Ok(root);
      var r2 :- if right == UNDEFINED then ReplaceTree(r1, Sub(p, "right"), NULL) else Ok(r1);
      Ok(Step(Fire(Some(p)), r2))
    else if IsConstExpr(left) && IsConstExpr(right) then
      var l :- ConstValue(left);
      var r :- ConstValue(right);
      if op in BinaryOperators && Foldable(host, host.binary(op, l, r)) then ReplacedConst(root, p, host.binary(op, l, r))
      else Ok(Step(Pass, root))
    else Ok(Step(Pass, root))
  }

  method FoldBinary(f: Folder, p: NodePath) returns (r: Result<Stage>)
    requires f.Valid()
    modifies f
    ensures f.Valid()
    ensures Agrees(r, f.root, BinaryStep(f.host, old(f.root), p))
  {
    var n := p.node;
    if TypeName(n) != "BinaryExpression" || n == NAN {
      return Ok(Pass);
    }
    var op, left, right := Operator(n), Field(n, "left"), Field(n, "right");
    if op == "==" || op == "!=" {
      var updated := false;
      if left == UNDEFINED {
        updated := true;
        var l := Get(p, [Name("left")]);
        SubIsGet(p, "left");
        var replaced :- f.Replace(l, NULL);
      }
      if right == UNDEFINED {
        updated := true;
        var rt := Get(p, [Name("right")]);
        SubIsGet(p, "right");
        var replaced :- f.Replace(rt, NULL);
      }
      if updated {
        return Ok(Fire(Some(p)));
      }
    }
    if IsConstExpr(left) && IsConstExpr(right) {
      var l :- ConstValue(left);
      var rv :- ConstValue(right);
      if op in BinaryOperators {
        var value := f.host.binary(op, l, rv);
        if Foldable(f.host, value) {
          var c :- f.ToConstExpr(value);
          var q :- f.Replace(p, c);
          return Ok(Fire(Some(q)));
        }
      }
    }
    return Ok(Pass);
  }

  // ---- FOLD_UNARY ---------------------------------------------------------------

  /**
   * A unary operator over a constant folds to its result: `void` to the
   * UNDEFINED sentinel, the others through TO_CONSTEXPR. Constant unary
   * expressions (negative literals, the sentinels) are left alone.
   */
  function UnaryStep(host: Host, root: Node, p: NodePath): Result<Step> {
    var n := p.node;
    var arg := Field(n, "argument");
    if TypeName(n) != "UnaryExpression" || IsConstExpr(n) || !IsConstExpr(arg) then Ok(Step(Pass, root))
    else if Operator(n) == "void" then Replaced(root, p, UNDEFINED)
    else UnaryFold(host, root, p)
  }

  /** FOLD_UNARY on a constant argument. */
  function UnaryFold(host: Host, root: Node, p: NodePath): Result<Step> {
    var v :- ConstValue(Field(p.node, "argument"));
    var value := match UnaryValue(host, Operator(p.node), v) case Some(x) => x case None => v;
    ReplacedConst(root, p, value)
  }

  method FoldUnary(f: Folder, p: NodePath) returns (r: Result<Stage>)
    requires f.Valid()
    modifies f
    ensures f.Valid()
    ensures Agrees(r, f.root, UnaryStep(f.host, old(f.root), p))
  {
    var n := p.node;
    if TypeName(n) == "UnaryExpression" {
      if IsConstExpr(n) {
        return Ok(Pass);
      }
      var arg, op := Field(n, "argument"), Operator(n);
      if IsConstExpr(arg) {
        if op == "void" {
          var q :- f.Replace(p, UNDEFINED);
          return Ok(Fire(Some(q)));
        }
        r := FoldUnaryValue(f, p);
        return;
      }
    }
    return Ok(Pass);
  }

  method FoldUnaryValue(f: Folder, p: NodePath) returns (r: Result<Stage>)
    requires f.Valid() && Operator(p.node) != "void"
    modifies f
    ensures f.Valid()
    ensures Agrees(r, f.root, UnaryFold(f.host, old(f.root), p))
  {
    var op := Operator(p.node);
    var value :- ConstValue(Field(p.node, "argument"));
    if op == "-" {
      value := Primitive(Negate(f.host.toNumber(value)));
    } else if op == "+" {
      value := Primitive(f.host.toNumber(value));
    } else if op == "~" {
      value := Primitive(f.host.bitNot(value));
    } else if op == "!" {
      value := Not(value);
    } else if op == "typeof" {
      value := Primitive(Str(TypeOf(value)));
    } else if op == "delete" {
      value := Primitive(Bool(true));
    }
    var c :- f.ToConstExpr(value);
    var q :- f.Replace(p, c);
    return Ok(Fire(Some(q)));
  }

  // ---- the folds keep the value -------------------------------------------------

  /** The engine's `==` and `!=` do not tell undefined from null, as the language defines. */
  ghost predicate NullishAlike(host: Host) {
    forall op, x :: (op == "==" || op == "!=") ==>
      host.binary(op, Primitive(Undefined), x) == host.binary(op, Primitive(Null), x)
      && host.binary(op, x, Primitive(Undefined)) == host.binary(op, x, Primitive(Null))
  }

  /** What a stage leaves at the address of its path. */
  function After(s: Result<Step>, root: Node, p: NodePath): Node {
    if s.Ok? then At(s.value.root, Address(p)) else At(root, Address(p))
  }

  /** FOLD_CONDITIONAL keeps the value of the expression at the path and writes nowhere else. */
  lemma ConditionalKeepsValue(host: Host, root: Node, a: seq<Key>, p: NodePath, b: seq<Key>)
    requires p == PathTo(root, a) && !IsConstExpr(p.node)
    requires ConditionalStep(root, p).Ok?
    ensures Eval(host, At(ConditionalStep(root, p).value.root, a)) == Eval(host, p.node)
    ensures Diverge(a, b) ==> At(ConditionalStep(root, p).value.root, b) == At(root, b)
  {
    PathToAt(root, a);
    var n := p.node;
    var test := Field(n, "test");
    if TypeName(n) == "ConditionalExpression" && IsConstExpr(test) {
      var c := ConstValue(test).value;
      var folded := if Truthy(c) then Field(n, "consequent") else Field(n, "alternate");
      ReplaceLands(root, a, p, folded, b);
      assert Eval(host, test) == Some(c);
    }
  }

  /** FOLD_LOGICAL keeps the value of the expression at the path and writes nowhere else. */
  lemma LogicalKeepsValue(host: Host, root: Node, a: seq<Key>, p: NodePath, b: seq<Key>)
    requires p == PathTo(root, a) && !IsConstExpr(p.node)
    requires LogicalStep(root, p).Ok?
    ensures Eval(host, At(LogicalStep(root, p).value.root, a)) == Eval(host, p.node)
    ensures Diverge(a, b) ==> At(LogicalStep(root, p).value.root, b) == At(root, b)
  {
    PathToAt(root, a);
    var n := p.node;
    var left := Field(n, "left");
    if TypeName(n) == "LogicalExpression" && IsConstExpr(left) {
      var l := ConstValue(left).value;
      assert Eval(host, left) == Some(l);
      var op := Operator(n);
      if (op == "||" && Truthy(l)) || (op == "&&" && !Truthy(l)) {
        var c := ConstModel.ToConstExpr(l).value;
        EvalToConstExpr(host, l);
        ReplaceLands(root, a, p, c, b);
      } else if op == "||" || op == "&&" {
        ReplaceLands(root, a, p, Field(n, "right"), b);
      }
    }
  }

  /**
   * FOLD_BINARY keeps the value of the expression at the path, for an engine
   * whose loose equality treats undefined as null, and writes nowhere outside it.
   */
  lemma BinaryKeepsValue(host: Host, root: Node, a: seq<Key>, p: NodePath, b: seq<Key>)
    requires p == PathTo(root, a) && !IsConstExpr(p.node) && NullishAlike(host)
    requires BinaryStep(host, root, p).Ok?
    ensures Eval(host, At(BinaryStep(host, root, p).value.root, a)) == Eval(host, p.node)
    ensures Diverge(a, b) ==> At(BinaryStep(host, root, p).value.root, b) == At(root, b)
  {
    PathToAt(root, a);
    var n := p.node;
    var op, left, right := Operator(n), Field(n, "left"), Field(n, "right");
    if TypeName(n) != "BinaryExpression" || n == NAN {
    } else if (op == "==" || op == "!=") && (left == UNDEFINED || right == UNDEFINED) {
      BinaryNullish(host, root, a, p, b);
    } else if IsConstExpr(left) && IsConstExpr(right) {
      BinaryConstKeeps(host, root, a, p, b);
    }
  }

  /** The fold of two constant operands keeps the value and writes nowhere else. */
  lemma BinaryConstKeeps(host: Host, root: Node, a: seq<Key>, p: NodePath, b: seq<Key>)
    requires p == PathTo(root, a) && !IsConstExpr(p.node)
    requires TypeName(p.node) == "BinaryExpression" && p.node != NAN
    requires !((Operator(p.node) == "==" || Operator(p.node) == "!=") && (Field(p.node, "left") == UNDEFINED || Field(p.node, "right") == UNDEFINED))
    requires IsConstExpr(Field(p.node, "left")) && IsConstExpr(Field(p.node, "right"))
    requires BinaryStep(host, root, p).Ok?
    ensures Eval(host, At(BinaryStep(host, root, p).value.root, a)) == Eval(host, p.node)
    ensures Diverge(a, b) ==> At(BinaryStep(host, root, p).value.root, b) == At(root, b)
  {
    PathToAt(root, a);
    var n := p.node;
    var op, left, right := Operator(n), Field(n, "left"), Field(n, "right");
    var l, r := ConstValue(left).value, ConstValue(right).value;
    assert Eval(host, left) == Some(l) && Eval(host, right) == Some(r);
    if op in BinaryOperators && Foldable(host, host.binary(op, l, r)) {
      var v := host.binary(op, l, r);
      EvalToConstExpr(host, v);
      ReplaceLands(root, a, p, ConstModel.ToConstExpr(v).value, b);
    }
  }

  /** The operator node once FOLD_BINARY has turned its UNDEFINED operands into NULL. */
  function NullishOperands(n: Node): Node {
    var n1 := if Field(n, "left") == UNDEFINED then Put(n, Name("left"), NULL) else n;
    if Field(n, "right") == UNDEFINED then Put(n1, Name("right"), NULL) else n1
  }

  /** The `==`/`!=` sentinel rewrite of FOLD_BINARY keeps the value and writes nowhere else. */
  lemma BinaryNullish(host: Host, root: Node, a: seq<Key>, p: NodePath, b: seq<Key>)
    requires p == PathTo(root, a) && !IsConstExpr(p.node) && NullishAlike(host)
    requires TypeName(p.node) == "BinaryExpression" && p.node != NAN
    requires Operator(p.node) == "==" || Operator(p.node) == "!="
    requires Field(p.node, "left") == UNDEFINED || Field(p.node, "right") == UNDEFINED
    ensures BinaryStep(host, root, p).Ok?
    ensures Eval(host, At(BinaryStep(host, root, p).value.root, a)) == Eval(host, p.node)
    ensures Diverge(a, b) ==> At(BinaryStep(host, root, p).value.root, b) == At(root, b)
  {
    PathToAt(root, a);
    BinaryNullishTree(host, root, a, p);
    WriteContainer(root, a, NullishOperands(p.node));
    if Diverge(a, b) {
      SetAtDiverge(root, a, b, NullishOperands(p.node));
    }
    NullishKeepsValue(host, p.node);
  }

  /** The rewrite amounts to writing the rewritten operator node at the path. */
  lemma BinaryNullishTree(host: Host, root: Node, a: seq<Key>, p: NodePath)
    requires p == PathTo(root, a)
    requires TypeName(p.node) == "BinaryExpression" && p.node != NAN
    requires Operator(p.node) == "==" || Operator(p.node) == "!="
    requires Field(p.node, "left") == UNDEFINED || Field(p.node, "right") == UNDEFINED
    ensures BinaryStep(host, root, p) == Ok(Step(Fire(Some(p)), SetAt(root, a, NullishOperands(p.node))))
  {
    PathToAt(root, a);
    var n := p.node;
    var left := Field(n, "left");
    var n1 := if left == UNDEFINED then Put(n, Name("left"), NULL) else n;
    var r1 := SetAt(root, a, n1);
    if left == UNDEFINED {
      WriteField(root, a, p, "left", NULL);
      WriteSlot(root, a, Name("left"), NULL);
      assert ReplaceTree(root, Sub(p, "left"), NULL) == Ok(r1);
    } else {
      SetAtOwn(root, a);
    }
    WriteContainer(root, a, n1);
    if Field(n, "right") == UNDEFINED {
      WriteSlot(r1, a, Name("right"), NULL);
      SetAtTwice(root, a, n1, Put(n1, Name("right"), NULL));
      assert ReplaceTree(r1, Sub(p, "right"), NULL) == Ok(SetAt(root, a, NullishOperands(n)));
    }
  }

  /** Under loose equality the sentinel NULL stands for the UNDEFINED it replaces. */
  lemma NullishKeepsValue(host: Host, n: Node)
    requires !IsConstExpr(n) && NullishAlike(host)
    requires TypeName(n) == "BinaryExpression" && (Operator(n) == "==" || Operator(n) == "!=")
    ensures Eval(host, NullishOperands(n)) == Eval(host, n)
  {
    var m := NullishOperands(n);
    NullishShape(n);
    ConstLemmas.PlainConstExpr(n);
    ConstLemmas.PlainConstExpr(m);
    EvalBinaryNode(host, n);
    EvalBinaryNode(host, m);
    if "left" in n.fields && "right" in n.fields {
      var x, y := n.fields["left"], n.fields["right"];
      NullishSide(host, x);
      NullishSide(host, y);
      NullishPair(host, Operator(n), Eval(host, x), Eval(host, y), Eval(host, m.fields["left"]), Eval(host, m.fields["right"]));
    }
  }

  /** NULL in place of an UNDEFINED operand, and everything else of the operator node kept. */
  lemma NullishShape(n: Node)
    requires TypeName(n) == "BinaryExpression"
    ensures var m := NullishOperands(n);
      m.Obj? && m.marks == n.marks && m.fields.Keys == n.fields.Keys
      && TypeName(m) == TypeName(n) && Operator(m) == Operator(n)
      && ("left" in n.fields ==> m.fields["left"] == if n.fields["left"] == UNDEFINED then NULL else n.fields["left"])
      && ("right" in n.fields ==> m.fields["right"] == if n.fields["right"] == UNDEFINED then NULL else n.fields["right"])
  {
    var m := NullishOperands(n);
    assert m.fields["type"] == n.fields["type"];
    assert "operator" in n.fields ==> m.fields["operator"] == n.fields["operator"];
  }

  /** An operand that is UNDEFINED has the value undefined, and NULL has the value null. */
  lemma NullishSide(host: Host, x: Node)
    ensures x == UNDEFINED ==> Eval(host, x) == Some(Primitive(Undefined)) && Eval(host, NULL) == Some(Primitive(Null))
  {
    if x == UNDEFINED {
      ConstLemmas.UndefinedValue();
      ConstLemmas.NullValue();
      EvalConstant(host, UNDEFINED);
      EvalConstant(host, NULL);
    }
  }

  /** Loose equality cannot tell an undefined operand from a null one. */
  lemma NullishPair(host: Host, op: string, l: Option<Value>, r: Option<Value>, l': Option<Value>, r': Option<Value>)
    requires NullishAlike(host) && (op == "==" || op == "!=")
    requires l' == l || (l == Some(Primitive(Undefined)) && l' == Some(Primitive(Null)))
    requires r' == r || (r == Some(Primitive(Undefined)) && r' == Some(Primitive(Null)))
    ensures l'.Some? == l.Some? && r'.Some? == r.Some?
    ensures l.Some? && r.Some? ==> host.binary(op, l'.value, r'.value) == host.binary(op, l.value, r.value)
  {
    if l.Some? && r.Some? {
      assert host.binary(op, Primitive(Undefined), r.value) == host.binary(op, Primitive(Null), r.value);
      assert host.binary(op, l'.value, Primitive(Undefined)) == host.binary(op, l'.value, Primitive(Null));
    }
  }

  /** The value of an operator node that is not itself constant. */
  lemma EvalBinaryNode(host: Host, n: Node)
    requires !IsConstExpr(n) && TypeName(n) == "BinaryExpression"
    ensures Eval(host, n) ==
      if "left" in n.fields && "right" in n.fields then
        match (Eval(host, n.fields["left"]), Eval(host, n.fields["right"]))
        case (Some(l), Some(r)) => if Operator(n) in BinaryOperators then Some(host.binary(Operator(n), l, r)) else None
        case _ => None
      else None
  {
  }

  /** FOLD_UNARY keeps the value of the expression at the path and writes nowhere else. */
  lemma UnaryKeepsValue(host: Host, root: Node, a: seq<Key>, p: NodePath, b: seq<Key>)
    requires p == PathTo(root, a) && Eval(host, p.node).Some?
    requires UnaryStep(host, root, p).Ok?
    ensures Eval(host, At(UnaryStep(host, root, p).value.root, a)) == Eval(host, p.node)
    ensures Diverge(a, b) ==> At(UnaryStep(host, root, p).value.root, b) == At(root, b)
  {
    PathToAt(root, a);
    var n := p.node;
    var arg := Field(n, "argument");
    if TypeName(n) == "UnaryExpression" && !IsConstExpr(n) && IsConstExpr(arg) {
      if Operator(n) == "void" {
        ConstLemmas.SentinelValues();
        assert Eval(host, UNDEFINED) == Some(Primitive(Undefined));
        ReplaceLands(root, a, p, UNDEFINED, b);
      } else {
        UnaryFoldKeeps(host, root, a, p, b);
      }
    }
  }

  /** The fold of a constant argument keeps the value and writes nowhere else. */
  lemma UnaryFoldKeeps(host: Host, root: Node, a: seq<Key>, p: NodePath, b: seq<Key>)
    requires p == PathTo(root, a) && Eval(host, p.node).Some?
    requires TypeName(p.node) == "UnaryExpression" && !IsConstExpr(p.node) && IsConstExpr(Field(p.node, "argument"))
    requires UnaryFold(host, root, p).Ok?
    ensures Eval(host, At(UnaryFold(host, root, p).value.root, a)) == Eval(host, p.node)
    ensures Diverge(a, b) ==> At(UnaryFold(host, root, p).value.root, b) == At(root, b)
  {
    PathToAt(root, a);
    var arg := Field(p.node, "argument");
    var v := ConstValue(arg).value;
    assert Eval(host, arg) == Some(v);
    var value := UnaryValue(host, Operator(p.node), v).value;
    EvalToConstExpr(host, value);
    ReplaceLands(root, a, p, ConstModel.ToConstExpr(value).value, b);
  }
}
