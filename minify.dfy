/**
 * MIN_VALUES, the stage of the minify pipeline: a constant whose value is a
 * boolean is replaced by the shorter `!0` or `!1`. The replacement nodes carry
 * the "already minimal" marker, so the stage leaves them alone when the walk
 * comes back to them.
 */
module Minify {
  import opened Values
  import opened Tree
  import opened ConstModel
  import opened NodePaths
  import opened Edits
  import opened Semantics
  import ConstLemmas
  import FoldExpressions

  /** The markers of a node the minifier built: minimal, and not marked constant. */
  const MinMarks := Marks(false, true, None)

  /** `!0`, the minimal form of `true`. */
  const MIN_TRUE := MinNot(0.0)

  /** `!1`, the minimal form of `false`. */
  const MIN_FALSE := MinNot(1.0)

  /** The node carries the marker of a node the minifier built. */
  predicate Minimal(n: Node) {
    n.Obj? && n.marks.minimal
  }

  /** `MIN_REPLACEMENTS`: only the two booleans have a shorter form. */
  function MinReplacement(v: Value): (r: Option<Node>)
    ensures r.Some? <==> v.Primitive? && v.p.Bool?
    ensures r.Some? ==> Minimal(r.value)
  {
    if v == Primitive(Bool(true)) then Some(MIN_TRUE)
    else if v == Primitive(Bool(false)) then Some(MIN_FALSE)
    else None
  }

  /** A node MIN_VALUES looks at: present, not built by the minifier, and constant. */
  predicate MinCandidate(n: Node) {
    NodeTruthy(n) && !Minimal(n) && IsConstExpr(n)
  }

  /** MIN_VALUES on one path. */
  function MinStep(root: Node, p: NodePath): Result<Step> {
    if MinCandidate(p.node) then
      var v :- ConstValue(p.node);
      match MinReplacement(v)
      case Some(m) => Replaced(root, p, m)
      case None => Ok(Step(Pass, root))
    else Ok(Step(Pass, root))
  }

  method MinValues(f: Folder, p: NodePath) returns (r: Result<Stage>)
    modifies f`root
    ensures Agrees(r, f.root, MinStep(old(f.root), p))
  {
    if MinCandidate(p.node) {
      var v :- ConstValue(p.node);
      var m := MinReplacement(v);
      if m.Some? {
        var q :- f.Replace(p, m.value);
        return Ok(Fire(Some(q)));
      }
    }
    return Ok(Pass);
  }

  /** `!x` with the minifier's markers. */
  function MinNot(x: real): Node {
    Obj(map["type" := StrLeaf("UnaryExpression"), "operator" := StrLeaf("!"), "argument" := Lit(Num(x), MinMarks)], MinMarks)
  }

  /** A numeric literal the minifier built is a constant with its own value. */
  lemma MinLiteral(x: real)
    ensures IsConstExpr(Lit(Num(x), MinMarks))
    ensures ConstValue(Lit(Num(x), MinMarks)) == Ok(Primitive(Num(x)))
  {
    var n := Lit(Num(x), MinMarks);
    assert TypeName(n) == "Literal";
    assert n != UNDEFINED && n != NAN && !IsUnaryNegative(n);
    assert Field(n, "regex") == Leaf(Undefined);
  }

  /** `!x` is not a constant node, and its value is the negation of `x`. */
  lemma MinNotValue(host: Host, x: real)
    ensures Eval(host, MinNot(x)) == Some(Not(Primitive(Num(x))))
  {
    var n := MinNot(x);
    MinLiteral(x);
    MinNotShape(x);
    EvalUnaryNode(host, n);
    EvalConstant(host, Lit(Num(x), MinMarks));
  }

  /** `!x` is a unary `!` over the literal, and not a constant node. */
  lemma MinNotShape(x: real)
    ensures var n := MinNot(x);
      TypeName(n) == "UnaryExpression" && Operator(n) == "!" && "argument" in n.fields
      && n.fields["argument"] == Lit(Num(x), MinMarks) && !IsConstExpr(n)
  {
    var n := MinNot(x);
    assert TypeName(n) == "UnaryExpression" && Operator(n) == "!";
    assert n != UNDEFINED && n != NAN && !IsUnaryNegative(n);
  }

  /** The two replacements have the values they stand for. */
  lemma MinForms(host: Host)
    ensures Eval(host, MIN_TRUE) == Some(Primitive(Bool(true)))
    ensures Eval(host, MIN_FALSE) == Some(Primitive(Bool(false)))
    ensures Minimal(MIN_TRUE) && Minimal(MIN_FALSE)
  {
    MinNotValue(host, 0.0);
    MinNotValue(host, 1.0);
  }

  /**
   * MIN_VALUES fails only where CONSTVALUE fails or where it would replace the
   * root; it fires exactly on a constant whose value is a boolean, and when it
   * passes the tree is as it was.
   */
  lemma MinDecision(root: Node, a: seq<Key>, p: NodePath)
    requires p == PathTo(root, a)
    ensures MinStep(root, p).Err? <==>
      MinCandidate(p.node) && (ConstValue(p.node).Err? || (MinReplacement(ConstValue(p.node).value).Some? && p.parent.None?))
    ensures MinStep(root, p).Ok? ==>
      (MinStep(root, p).value.stage.Fire? <==> MinCandidate(p.node) && ConstValue(p.node).value.Primitive? && ConstValue(p.node).value.p.Bool?)
    ensures MinStep(root, p).Ok? && MinStep(root, p).value.stage.Pass? ==> MinStep(root, p).value.root == root
  {
    PathToAt(root, a);
    if MinCandidate(p.node) && ConstValue(p.node).Ok? && MinReplacement(ConstValue(p.node).value).Some? {
      ReplaceLands(root, a, p, MinReplacement(ConstValue(p.node).value).value, []);
    }
  }

  /**
   * When MIN_VALUES fires on a live path, the slot holds `!0` or `!1`, which is
   * minimal and has the value the constant had, and nothing outside the slot
   * changes.
   */
  lemma MinResult(root: Node, a: seq<Key>, p: NodePath, b: seq<Key>, host: Host)
    requires p == PathTo(root, a)
    requires MinStep(root, p).Ok? && MinStep(root, p).value.stage.Fire?
    ensures
      var t := MinStep(root, p).value.root;
      Minimal(At(t, a))
      && Eval(host, At(t, a)) == Eval(host, p.node)
      && (Diverge(a, b) ==> At(t, b) == At(root, b))
  {
    PathToAt(root, a);
    MinForms(host);
    var v := ConstValue(p.node).value;
    EvalConstant(host, p.node);
    ReplaceLands(root, a, p, MinReplacement(v).value, b);
  }

  /** Once MIN_VALUES has fired, a second visit to the same slot leaves it alone. */
  lemma MinIdempotent(root: Node, a: seq<Key>, p: NodePath)
    requires p == PathTo(root, a)
    requires MinStep(root, p).Ok? && MinStep(root, p).value.stage.Fire?
    ensures
      var t := MinStep(root, p).value.root;
      MinStep(t, PathTo(t, a)) == Ok(Step(Pass, t))
  {
    PathToAt(root, a);
    var v := ConstValue(p.node).value;
    ReplaceLands(root, a, p, MinReplacement(v).value, []);
    PathToAt(MinStep(root, p).value.root, a);
  }

  // ---- the write into a frozen node ----------------------------------------------

  /** MIN_VALUES as written, whose REPLACE throws on a frozen parent. */
  function MinStepAsWritten(root: Node, p: NodePath): Result<Step> {
    if MinCandidate(p.node) then
      var v :- ConstValue(p.node);
      match MinReplacement(v)
      case Some(m) => ReplacedAsWritten(root, p, m)
      case None => Ok(Step(Pass, root))
    else Ok(Step(Pass, root))
  }

  /** MIN_VALUES as written differs from MinStep exactly where MinStep writes into a frozen node, and there it throws. */
  lemma FrozenWrite(root: Node, p: NodePath)
    ensures MinStep(root, p).Ok? && MinStep(root, p).value.stage.Fire? && p.parent.Some? && Frozen(p.parent.value) ==>
      MinStepAsWritten(root, p) == Err(TypeError)
    ensures !(MinStep(root, p).Ok? && MinStep(root, p).value.stage.Fire? && p.parent.Some? && Frozen(p.parent.value)) ==>
      MinStepAsWritten(root, p) == MinStep(root, p)
  {
  }

  /**
   * An array expression TO_CONSTEXPR built is frozen, its `elements` array
   * with it: MIN_VALUES on a boolean element would put `!0` or `!1` there, and
   * as written the write throws.
   */
  lemma FrozenElement(root: Node, a: seq<Key>, es: seq<Option<Value>>, k: nat, b: bool)
    requires ToConstExpr(Array(es)).Ok? && At(root, a) == ToConstExpr(Array(es)).value
    requires k < |es| && es[k] == Some(Primitive(Bool(b)))
    ensures var p := PathTo(root, a + [Name("elements"), Index(k)]);
      MinStep(root, p).Ok? && MinStep(root, p).value.stage.Fire?
      && MinStepAsWritten(root, p) == Err(TypeError)
  {
    var ak := a + [Name("elements"), Index(k)];
    BuiltElement(root, a, es, k);
    InternedBool(b);
    var p := PathTo(root, ak);
    ReplaceLands(root, ak, p, MinReplacement(Primitive(Bool(b))).value, []);
  }

  /** The path to element `k` of an array expression TO_CONSTEXPR built holds that element's node, under a frozen parent. */
  lemma BuiltElement(root: Node, a: seq<Key>, es: seq<Option<Value>>, k: nat)
    requires ToConstExpr(Array(es)).Ok? && At(root, a) == ToConstExpr(Array(es)).value && k < |es|
    ensures ToConstExprElem(es[k]).Ok?
    ensures var p := PathTo(root, a + [Name("elements"), Index(k)]);
      p.node == ToConstExprElem(es[k]).value && p.parent.Some? && Frozen(p.parent.value)
  {
    ConstLemmas.ToConstExprsAt(es, k);
    var ae := a + [Name("elements")];
    var ak := ae + [Index(k)];
    assert a + [Name("elements"), Index(k)] == ak;
    PathToAt(root, ak);
    PathToAt(root, ae);
    PathToAt(root, a);
    assert ak[..|ak| - 1] == ae && ae[..|ae| - 1] == a;
    AtSnoc(root, a, Name("elements"));
    AtSnoc(root, ae, Index(k));
    assert Marked(PathTo(root, a).node);
    assert Frozen(PathTo(root, ae));
  }

  /** The interned node of a boolean is one MIN_VALUES looks at, and stands for the boolean. */
  lemma InternedBool(b: bool)
    ensures MinCandidate(Interned(Bool(b))) && ConstValue(Interned(Bool(b))) == Ok(Primitive(Bool(b)))
  {
    ConstLemmas.InternedValue(Bool(b));
  }

  /** `[true]` as esprima parses it. */
  const TRUE_ARRAY := Obj(map["type" := StrLeaf("ArrayExpression"), "elements" := Arr([Lit(Bool(true), Unmarked)])], Unmarked)

  /** `[true] || y` */
  const TRUE_OR_Y := Obj(map["type" := StrLeaf("LogicalExpression"), "operator" := StrLeaf("||"), "left" := TRUE_ARRAY,
                             "right" := Obj(map["type" := StrLeaf("Identifier"), "name" := StrLeaf("y")], Unmarked)], Unmarked)

  /** The program `[true] || y;` */
  const TRUE_OR_Y_PROGRAM := Obj(map["type" := StrLeaf("Program"), "body" := Arr([
                               Obj(map["type" := StrLeaf("ExpressionStatement"), "expression" := TRUE_OR_Y], Unmarked)])], Unmarked)

  /** Where `[true] || y` sits in the program. */
  const TRUE_OR_Y_AT := [Name("body"), Index(0), Name("expression")]

  /** `[true]` is a constant with the value `[true]`. */
  lemma TrueArrayValue()
    ensures IsConstExpr(TRUE_ARRAY) && ConstValue(TRUE_ARRAY) == Ok(Array([Some(Primitive(Bool(true)))]))
  {
    var lit := Lit(Bool(true), Unmarked);
    assert TRUE_ARRAY.fields["elements"].elems == [lit];
    assert TypeName(lit) == "Literal";
    assert lit != UNDEFINED && lit != NAN && !IsUnaryNegative(lit);
    assert Field(lit, "regex") == Leaf(Undefined);
    assert ConstValue(lit) == Ok(Primitive(Bool(true)));
    assert [lit][0] == lit && [lit][1..] == [];
    assert ConstValues([lit]) == Ok([Some(Primitive(Bool(true)))] + []);
    assert [Some(Primitive(Bool(true)))] + [] == [Some(Primitive(Bool(true)))];
    assert TypeName(TRUE_ARRAY) == "ArrayExpression";
    assert TRUE_ARRAY != UNDEFINED && TRUE_ARRAY != NAN;
    assert IsConstExpr(TRUE_ARRAY);

  }

  /** TO_CONSTEXPR of `[true]` is an array expression over the interned `true`. */
  lemma TrueArrayBuilt()
    ensures ToConstExpr(Array([Some(Primitive(Bool(true)))])).Ok?
  {
    var es := [Some(Primitive(Bool(true)))];
    assert es[0] == Some(Primitive(Bool(true))) && es[1..] == [];
    assert ToConstExprElem(es[0]) == Ok(Interned(Bool(true)));
    assert ToConstExprs(es) == Ok([Interned(Bool(true))] + []);
    assert [Interned(Bool(true))] + [] == [Interned(Bool(true))];
  }

  /** A `||` whose left operand is a truthy constant is replaced by TO_CONSTEXPR of that operand's value. */
  lemma OrLeavesConstant(root: Node, a: seq<Key>, p: NodePath, v: Value)
    requires p == PathTo(root, a) && a != []
    requires TypeName(p.node) == "LogicalExpression" && Operator(p.node) == "||"
    requires IsConstExpr(Field(p.node, "left")) && ConstValue(Field(p.node, "left")) == Ok(v) && Truthy(v)
    requires ToConstExpr(v).Ok?
    ensures var s := FoldExpressions.LogicalStep(root, p);
      s.Ok? && s.value.stage.Fire? && At(s.value.root, a) == ToConstExpr(v).value
  {
    PathToAt(root, a);
    assert p.node != Leaf(Undefined) by {
      assert TypeName(Leaf(Undefined)) == "";
    }
    ReplaceLands(root, a, p, ToConstExpr(v).value, []);
  }

  /** The path to `[true] || y` in the program. */
  lemma TrueOrYPath()
    ensures PathTo(TRUE_OR_Y_PROGRAM, TRUE_OR_Y_AT).node == TRUE_OR_Y
  {
    PathToAt(TRUE_OR_Y_PROGRAM, TRUE_OR_Y_AT);
    assert At(TRUE_OR_Y_PROGRAM, TRUE_OR_Y_AT) == At(TRUE_OR_Y_PROGRAM.fields["body"].elems[0], [Name("expression")]);
  }

  /** `[true] || y` is a `||` with `[true]` on its left. */
  lemma TrueOrYShape()
    ensures TypeName(TRUE_OR_Y) == "LogicalExpression" && Operator(TRUE_OR_Y) == "||" && Field(TRUE_OR_Y, "left") == TRUE_ARRAY
  {
  }

  /** FOLD_LOGICAL replaces `[true] || y` by the array expression TO_CONSTEXPR builds for `[true]`. */
  lemma TrueOrYFolds()
    ensures ToConstExpr(Array([Some(Primitive(Bool(true)))])).Ok?
    ensures var root, a := TRUE_OR_Y_PROGRAM, TRUE_OR_Y_AT;
      var s := FoldExpressions.LogicalStep(root, PathTo(root, a));
      s.Ok? && s.value.stage.Fire? && At(s.value.root, a) == ToConstExpr(Array([Some(Primitive(Bool(true)))])).value
  {
    TrueOrYPath();
    TrueArrayValue();
    TrueArrayBuilt();
    TrueOrYShape();
    OrLeavesConstant(TRUE_OR_Y_PROGRAM, TRUE_OR_Y_AT, PathTo(TRUE_OR_Y_PROGRAM, TRUE_OR_Y_AT), Array([Some(Primitive(Bool(true)))]));
  }

  /**
   * In `[true] || y;` FOLD_LOGICAL leaves TO_CONSTEXPR of `[true]`, a frozen
   * array expression; the minify walk then reaches its element `true`, and
   * MIN_VALUES as written throws writing `!0` into the frozen array, where
   * MinStep writes it.
   */
  lemma FrozenWriteAsWritten()
    ensures var root, a := TRUE_OR_Y_PROGRAM, TRUE_OR_Y_AT;
      var s := FoldExpressions.LogicalStep(root, PathTo(root, a));
      s.Ok? && s.value.stage.Fire?
      && var p := PathTo(s.value.root, a + [Name("elements"), Index(0)]);
      MinStepAsWritten(s.value.root, p) == Err(TypeError)
      && MinStep(s.value.root, p).Ok? && At(MinStep(s.value.root, p).value.root, a + [Name("elements"), Index(0)]) == MIN_TRUE
  {
    var root, a := TRUE_OR_Y_PROGRAM, TRUE_OR_Y_AT;
    TrueOrYFolds();
    var t := FoldExpressions.LogicalStep(root, PathTo(root, a)).value.root;
    var es := [Some(Primitive(Bool(true)))];
    FrozenElement(t, a, es, 0, true);
    var ak := a + [Name("elements"), Index(0)];
    BuiltElement(t, a, es, 0);
    InternedBool(true);
    ReplaceLands(t, ak, PathTo(t, ak), MIN_TRUE, []);
  }
}
