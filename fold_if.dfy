/**
 * FOLD_IF: the `if` folds of the second pass. An `if` with nothing to do
 * becomes its test as a statement; two expression branches become a
 * conditional expression and a lone one a guard `test && e`; a constant test
 * picks its branch; otherwise empty branches are emptied (the consequent) or
 * removed (the alternate).
 */
module FoldIf {
  import opened Values
  import opened Tree
  import opened ConstModel
  import opened NodePaths
  import opened Shapes
  import opened Edits
  import FoldStatements
  import Semantics

  /** `{type: 'ExpressionStatement', expression: e}` */
  function ExpressionStatement(e: Node): Node {
    Record(map["type" := StrLeaf("ExpressionStatement"), "expression" := e])
  }

  /** `test ? c : a` */
  function ConditionalOf(test: Node, c: Node, a: Node): Node {
    Record(map["type" := StrLeaf("ConditionalExpression"), "test" := test, "consequent" := c, "alternate" := a])
  }

  /** `test && e`, built as a BinaryExpression with operator `&&`. */
  function Guard(test: Node, e: Node): Node {
    Record(map["type" := StrLeaf("BinaryExpression"), "operator" := StrLeaf("&&"), "left" := test, "right" := e])
  }

  /**
   * What replaces `if (test) c; else a;` when both branches are expression
   * statements: the conditional of their expressions, bare or wrapped in an
   * expression statement.
   */
  function Joined(test: Node, c: Node, a: Node, wrap: bool): Node {
    var e := ConditionalOf(test, Field(c, "expression"), Field(a, "expression"));
    if wrap then ExpressionStatement(e) else e
  }

  /** FOLD_IF, with the two-expression case built as `Joined(…, wrap)`. */
  function IfStepWith(root: Node, p: NodePath, wrap: bool): Result<Step> {
    var n := p.node;
    if TypeName(n) != "IfStatement" then Ok(Step(Pass, root))
    else
      var nc :- NotCompletion(p);
      var emptyIf :- if nc && !NodeTruthy(Field(n, "alternate")) then EmptyCheck(Field(n, "consequent")) else Ok(false);
      if emptyIf then Replaced(root, p, ExpressionStatement(Field(n, "test")))
      else ShortcutStep(root, p, nc, wrap)
  }

  /** The rewrites of an `if` with expression-statement branches; `nc` is IS_NOT_COMPLETION. */
  function ShortcutStep(root: Node, p: NodePath, nc: bool, wrap: bool): Result<Step> {
    var n := p.node;
    var test, cons, alt := Field(n, "test"), Field(n, "consequent"), Field(n, "alternate");
    if cons == Leaf(Undefined) || cons == Leaf(Null) then Err(TypeError)
    else if TypeName(cons) == "ExpressionStatement" && NodeTruthy(alt) && TypeName(alt) == "ExpressionStatement" then
      Replaced(root, p, Joined(test, cons, alt, wrap))
    else if TypeName(cons) == "ExpressionStatement" && !NodeTruthy(alt) && nc then
      Replaced(root, p, ExpressionStatement(Guard(test, Field(cons, "expression"))))
    else ConstStep(root, p)
  }

  /** A constant test picks its branch; any other test leaves the branch clean-up. */
  function ConstStep(root: Node, p: NodePath): Result<Step> {
    var n := p.node;
    var test := Field(n, "test");
    if IsConstExpr(test) then
      var v :- ConstValue(test);
      Replaced(root, p, Chosen(v, Field(n, "consequent"), Field(n, "alternate")))
    else BranchesStep(root, p)
  }

  /** The statement a constant test picks: the consequent, else the alternate, else EMPTY. */
  function Chosen(v: Value, cons: Node, alt: Node): Node {
    if Truthy(v) then cons else if NodeTruthy(alt) then alt else EMPTY
  }

  /** FOLD_IF as written: two expression branches become a bare ConditionalExpression. */
  function IfStepAsWritten(root: Node, p: NodePath): Result<Step> {
    IfStepWith(root, p, false)
  }

  /** FOLD_IF with the conditional wrapped in an expression statement, as the `&&` case is. */
  function IfStep(root: Node, p: NodePath): Result<Step> {
    IfStepWith(root, p, true)
  }

  /**
   * The consequent unless it already is EMPTY: REPLACE_IF_EMPTY with EMPTY,
   * then whether the live `if` now holds EMPTY there.
   */
  function ConsequentStep(root: Node, p: NodePath): Result<(Node, bool)> {
    var c := Sub(p, "consequent");
    if c.node == EMPTY then Ok((root, false))
    else
      var t :- ReplaceIfEmptyTree(root, c, EMPTY);
      Ok((t, Field(At(t, Address(p)), "consequent") == EMPTY))
  }

  /** A truthy alternate: REMOVE_IF_EMPTY, then whether the live `if` now holds null there. */
  function AlternateStep(root: Node, p: NodePath): Result<(Node, bool)> {
    if !NodeTruthy(Field(p.node, "alternate")) then Ok((root, false))
    else
      var t :- RemoveIfEmptyTree(root, Sub(p, "alternate"));
      Ok((t, Field(At(t, Address(p)), "alternate") == Leaf(Null)))
  }

  /** The branch clean-up of an `if` whose test is not constant; the path comes back when a branch went. */
  function BranchesStep(root: Node, p: NodePath): Result<Step> {
    var c :- ConsequentStep(root, p);
    var a :- AlternateStep(c.0, p);
    Ok(Step(if c.1 || a.1 then Fire(Some(p)) else Pass, a.0))
  }

  method FoldIf(f: Folder, p: NodePath) returns (r: Result<Stage>)
    modifies f`root
    ensures Agrees(r, f.root, IfStep(old(f.root), p))
  {
    var n := p.node;
    if TypeName(n) != "IfStatement" {
      return Ok(Pass);
    }
    var nc :- IsNotCompletion(p);
    if nc && !NodeTruthy(Field(n, "alternate")) {
      var e :- EmptyCheck(Field(n, "consequent"));
      if e {
        var q :- f.Replace(p, ExpressionStatement(Field(n, "test")));
        return Ok(Fire(Some(q)));
      }
    }
    r := FoldShortcut(f, p, nc);
  }

  method FoldShortcut(f: Folder, p: NodePath, nc: bool) returns (r: Result<Stage>)
    modifies f`root
    ensures Agrees(r, f.root, ShortcutStep(old(f.root), p, nc, true))
  {
    var n := p.node;
    var test, cons, alt := Field(n, "test"), Field(n, "consequent"), Field(n, "alternate");
    if cons == Leaf(Undefined) || cons == Leaf(Null) {
      return Err(TypeError);
    }
    if TypeName(cons) == "ExpressionStatement" {
      if NodeTruthy(alt) {
        if TypeName(alt) == "ExpressionStatement" {
          var q :- f.Replace(p, Joined(test, cons, alt, true));
          return Ok(Fire(Some(q)));
        }
      } else if nc {
        var q :- f.Replace(p, ExpressionStatement(Guard(test, Field(cons, "expression"))));
        return Ok(Fire(Some(q)));
      }
    }
    if IsConstExpr(test) {
      var v :- ConstValue(test);
      var q :- f.Replace(p, Chosen(v, cons, alt));
      return Ok(Fire(Some(q)));
    }
    r := FoldBranches(f, p);
  }

  method FoldBranches(f: Folder, p: NodePath) returns (r: Result<Stage>)
    modifies f`root
    ensures Agrees(r, f.root, BranchesStep(old(f.root), p))
  {
    var updated := false;
    var c := Sub(p, "consequent");
    if c.node != EMPTY {
      var q :- f.ReplaceIfEmpty(c, EMPTY);
      if Field(At(f.root, Address(p)), "consequent") == EMPTY {
        updated := true;
      }
    }
    if NodeTruthy(Field(p.node, "alternate")) {
      var u :- f.RemoveIfEmpty(Sub(p, "alternate"));
      if Field(At(f.root, Address(p)), "alternate") == Leaf(Null) {
        updated := true;
      }
    }
    if updated {
      return Ok(Fire(Some(p)));
    }
    return Ok(Pass);
  }

  // ---- the branch clean-up ----------------------------------------------------------

  /** The `if` the branch clean-up leaves: an empty consequent becomes EMPTY, an empty truthy alternate null. */
  function BranchRewrite(n: Node): Node {
    var cons, alt := Field(n, "consequent"), Field(n, "alternate");
    var m0 := if cons != EMPTY && EmptyCheck(cons) == Ok(true) then Put(n, Name("consequent"), EMPTY) else n;
    if NodeTruthy(alt) && EmptyCheck(alt) == Ok(true) then Put(m0, Name("alternate"), Leaf(Null)) else m0
  }

  /** Whether the clean-up of the `if` `n` takes a branch away. */
  predicate BranchGoes(n: Node) {
    var cons, alt := Field(n, "consequent"), Field(n, "alternate");
    (cons != EMPTY && EmptyCheck(cons) == Ok(true)) || (NodeTruthy(alt) && EmptyCheck(alt) == Ok(true))
  }

  /**
   * On a live `if`, the branch clean-up throws only where IS_EMPTY does, and
   * otherwise writes the cleaned-up `if` at its address; the path comes back
   * exactly when a branch went.
   */
  lemma BranchesTree(root: Node, a: seq<Key>, p: NodePath)
    requires p == PathTo(root, a) && p.node.Obj?
    ensures var n := p.node;
      BranchesStep(root, p).Err? <==>
        (Field(n, "consequent") != EMPTY && EmptyCheck(Field(n, "consequent")).Err?)
        || (NodeTruthy(Field(n, "alternate")) && EmptyCheck(Field(n, "alternate")).Err?)
    ensures BranchesStep(root, p).Ok? ==>
      BranchesStep(root, p).value.root == SetAt(root, a, BranchRewrite(p.node))
      && At(BranchesStep(root, p).value.root, a) == BranchRewrite(p.node)
      && (BranchesStep(root, p).value.stage.Fire? <==> BranchGoes(p.node))
  {
    PathToAt(root, a);
    var n := p.node;
    var cons, alt := Field(n, "consequent"), Field(n, "alternate");
    SetAtOwn(root, a);
    assert WrittenAt(root, root, a, n);
    var c := ConsequentStep(root, p);
    var goes := cons != EMPTY && EmptyCheck(cons) == Ok(true);
    var m0 := if goes then Put(n, Name("consequent"), EMPTY) else n;
    if goes {
      WriteThrough(root, root, p, n, "consequent", EMPTY);
    }
    if c.Ok? {
      assert c.value.0 == SetAt(root, a, m0) && At(c.value.0, a) == m0;
      assert c.value.1 <==> goes;
      if NodeTruthy(alt) && EmptyCheck(alt) == Ok(true) {
        RemoveThrough(root, SetAt(root, a, m0), p, m0, "alternate");
      }
    }
  }

  /**
   * FOLD_IF's clean-up of the branches of a live `if`: an empty consequent
   * becomes EMPTY and an empty alternate null, every other field is kept,
   * nothing outside the `if` changes, and the path comes back exactly when a
   * branch went.
   */
  lemma BranchesResult(root: Node, a: seq<Key>, p: NodePath, b: seq<Key>)
    requires p == PathTo(root, a) && TypeName(p.node) == "IfStatement"
    requires BranchesStep(root, p).Ok?
    ensures var n, s := p.node, BranchesStep(root, p).value;
      var m, cons, alt := At(s.root, a), Field(n, "consequent"), Field(n, "alternate");
      m.Obj? && m.marks == n.marks && m.fields.Keys == n.fields.Keys
      && (forall k :: k in n.fields && k != "consequent" && k != "alternate" ==> m.fields[k] == n.fields[k])
      && Field(m, "consequent") == (if IsEmpty(cons) then EMPTY else cons)
      && Field(m, "alternate") == (if NodeTruthy(alt) && IsEmpty(alt) then Leaf(Null) else alt)
      && (s.stage.Fire? <==> (cons != EMPTY && IsEmpty(cons)) || (NodeTruthy(alt) && IsEmpty(alt)))
      && (Diverge(a, b) ==> At(s.root, b) == At(root, b))
  {
    PathToAt(root, a);
    BranchesTree(root, a, p);
    RewrittenIf(root, a, p.node, BranchesStep(root, p).value.root, b);
  }

  /** The tree with the cleaned-up `if` written at `a`. */
  lemma RewrittenIf(root: Node, a: seq<Key>, n: Node, t: Node, b: seq<Key>)
    requires n.Obj? && t == SetAt(root, a, BranchRewrite(n)) && At(t, a) == BranchRewrite(n)
    ensures var m, cons, alt := At(t, a), Field(n, "consequent"), Field(n, "alternate");
      m.Obj? && m.marks == n.marks && m.fields.Keys == n.fields.Keys
      && (forall k :: k in n.fields && k != "consequent" && k != "alternate" ==> m.fields[k] == n.fields[k])
      && Field(m, "consequent") == (if IsEmpty(cons) then EMPTY else cons)
      && Field(m, "alternate") == (if NodeTruthy(alt) && IsEmpty(alt) then Leaf(Null) else alt)
      && (Diverge(a, b) ==> At(t, b) == At(root, b))
  {
    BranchFields(n);
    if Diverge(a, b) {
      SetAtDiverge(root, a, b, BranchRewrite(n));
    }
  }

  /** The cleaned-up `if` has the fields and markers of the `if`, with only its two branches changed. */
  lemma BranchFields(n: Node)
    requires n.Obj?
    ensures var m, cons, alt := BranchRewrite(n), Field(n, "consequent"), Field(n, "alternate");
      m.Obj? && m.marks == n.marks && m.fields.Keys == n.fields.Keys
      && (forall k :: k in n.fields && k != "consequent" && k != "alternate" ==> m.fields[k] == n.fields[k])
      && Field(m, "consequent") == (if IsEmpty(cons) then EMPTY else cons)
      && Field(m, "alternate") == (if NodeTruthy(alt) && IsEmpty(alt) then Leaf(Null) else alt)
  {
    assert IsEmpty(Field(n, "consequent")) ==> Field(n, "consequent").Obj?;
    assert IsEmpty(Field(n, "alternate")) ==> Field(n, "alternate").Obj?;
  }

  /** A cleaned-up `if` needs no further clean-up. */
  lemma BranchFixed(n: Node)
    requires n.Obj?
    requires Field(n, "consequent") != EMPTY ==> EmptyCheck(Field(n, "consequent")).Ok?
    requires NodeTruthy(Field(n, "alternate")) ==> EmptyCheck(Field(n, "alternate")).Ok?
    ensures var m := BranchRewrite(n);
      m.Obj? && !BranchGoes(m) && BranchRewrite(m) == m
      && (Field(m, "consequent") != EMPTY ==> EmptyCheck(Field(m, "consequent")).Ok?)
      && (NodeTruthy(Field(m, "alternate")) ==> EmptyCheck(Field(m, "alternate")).Ok?)
  {
    BranchFields(n);
    assert IsEmpty(EMPTY);
  }

  /** A second clean-up of the `if` the clean-up left lets the path through and changes nothing. */
  lemma BranchesIdempotent(root: Node, a: seq<Key>, p: NodePath)
    requires p == PathTo(root, a) && p.node.Obj?
    requires BranchesStep(root, p).Ok?
    ensures var t := BranchesStep(root, p).value.root;
      BranchesStep(t, PathTo(t, a)) == Ok(Step(Pass, t))
  {
    PathToAt(root, a);
    BranchesTree(root, a, p);
    var t := BranchesStep(root, p).value.root;
    PathToAt(t, a);
    BranchFixed(p.node);
    CleanStep(t, a, PathTo(t, a));
  }

  /** The clean-up of a live `if` that needs none lets the path through and changes nothing. */
  lemma CleanStep(t: Node, a: seq<Key>, q: NodePath)
    requires q == PathTo(t, a) && q.node.Obj?
    requires Field(q.node, "consequent") != EMPTY ==> EmptyCheck(Field(q.node, "consequent")).Ok?
    requires NodeTruthy(Field(q.node, "alternate")) ==> EmptyCheck(Field(q.node, "alternate")).Ok?
    requires !BranchGoes(q.node) && BranchRewrite(q.node) == q.node
    ensures BranchesStep(t, q) == Ok(Step(Pass, t))
  {
    PathToAt(t, a);
    BranchesTree(t, a, q);
    SetAtOwn(t, a);
    var s := BranchesStep(t, q);
    assert s.Ok? && s.value.root == t;
    assert s.value.stage == Pass;
  }

  // ---- a constant test ---------------------------------------------------------------

  /**
   * FOLD_IF on a live `if` with a constant test, past its other rewrites:
   * the `if` is replaced by the branch the test's value selects (EMPTY when
   * that is a missing alternate) and nothing outside it changes; it throws
   * exactly when the test has no constant value or the `if` is the root.
   */
  lemma ConstantTestPicks(root: Node, a: seq<Key>, p: NodePath, b: seq<Key>, host: Host)
    requires p == PathTo(root, a) && TypeName(p.node) == "IfStatement" && IsConstExpr(Field(p.node, "test"))
    ensures ConstStep(root, p).Err? <==> ConstValue(Field(p.node, "test")).Err? || p.parent.None?
    ensures ConstStep(root, p).Ok? ==>
      var n, s := p.node, ConstStep(root, p).value;
      var cons, alt := Field(n, "consequent"), Field(n, "alternate");
      Semantics.Eval(host, Field(n, "test")).Some?
      && var m := if Truthy(Semantics.Eval(host, Field(n, "test")).value) then cons else if NodeTruthy(alt) then alt else EMPTY;
      s.stage == Fire(Some(Replacement(p, m))) && At(s.root, a) == m
      && (Diverge(a, b) ==> At(s.root, b) == At(root, b))
  {
    PathToAt(root, a);
    var n := p.node;
    var test := Field(n, "test");
    if ConstValue(test).Ok? {
      Semantics.EvalConstant(host, test);
      var m := Chosen(ConstValue(test).value, Field(n, "consequent"), Field(n, "alternate"));
      ReplaceLands(root, a, p, m, b);
    }
  }

  // ---- what is left in statement position ----------------------------------------

  /** The ESTree statement and module-item types. */
  const StatementTypes := {
    "BlockStatement", "BreakStatement", "ClassDeclaration", "ContinueStatement", "DebuggerStatement",
    "DoWhileStatement", "EmptyStatement", "ExportAllDeclaration", "ExportDefaultDeclaration",
    "ExportNamedDeclaration", "ExpressionStatement", "ForInStatement", "ForOfStatement", "ForStatement",
    "FunctionDeclaration", "IfStatement", "ImportDeclaration", "LabeledStatement", "ReturnStatement",
    "SwitchStatement", "ThrowStatement", "TryStatement", "VariableDeclaration", "WhileStatement", "WithStatement"}

  predicate IsStatement(n: Node) {
    TypeName(n) in StatementTypes
  }

  /**
   * FOLD_IF (with the conditional wrapped) leaves a statement where the `if`
   * was, as long as the `if`'s branches are statements: its test as a
   * statement, a conditional or guard expression statement, the branch a
   * constant test picks, EMPTY, or the cleaned-up `if`.
   */
  lemma IfKeepsStatement(root: Node, a: seq<Key>, p: NodePath)
    requires p == PathTo(root, a) && TypeName(p.node) == "IfStatement"
    requires IsStatement(Field(p.node, "consequent"))
    requires NodeTruthy(Field(p.node, "alternate")) ==> IsStatement(Field(p.node, "alternate"))
    requires IfStep(root, p).Ok?
    ensures IsStatement(At(IfStep(root, p).value.root, a))
  {
    PathToAt(root, a);
    IfPassesChecks(root, p, true);
    EmptyIfKeepsStatement(root, a, p);
    NonEmptyIfKeepsStatement(root, a, p);
  }

  /** Whether FOLD_IF takes the `if` for one with nothing to do. */
  predicate NothingToDo(p: NodePath)
    requires NotCompletion(p).Ok?
  {
    NotCompletion(p).value && !NodeTruthy(Field(p.node, "alternate")) && EmptyCheck(Field(p.node, "consequent")) == Ok(true)
  }

  lemma EmptyIfKeepsStatement(root: Node, a: seq<Key>, p: NodePath)
    requires p == PathTo(root, a) && TypeName(p.node) == "IfStatement" && NotCompletion(p).Ok?
    requires IfStep(root, p).Ok?
    ensures NothingToDo(p) ==> IsStatement(At(IfStep(root, p).value.root, a))
  {
    PathToAt(root, a);
    if NothingToDo(p) {
      BuiltStatement(Field(p.node, "test"));
      EmptyIf(root, p, true);
      ReplacedStatement(root, a, p, ExpressionStatement(Field(p.node, "test")));
    }
  }

  lemma NonEmptyIfKeepsStatement(root: Node, a: seq<Key>, p: NodePath)
    requires p == PathTo(root, a) && TypeName(p.node) == "IfStatement" && NotCompletion(p).Ok?
    requires NotCompletion(p).value && !NodeTruthy(Field(p.node, "alternate")) ==> EmptyCheck(Field(p.node, "consequent")).Ok?
    requires IsStatement(Field(p.node, "consequent"))
    requires NodeTruthy(Field(p.node, "alternate")) ==> IsStatement(Field(p.node, "alternate"))
    requires IfStep(root, p).Ok?
    ensures !NothingToDo(p) ==> IsStatement(At(IfStep(root, p).value.root, a))
  {
    PathToAt(root, a);
    if !NothingToDo(p) {
      var nc := NotCompletion(p).value;
      IfToShortcut(root, p, true, nc);
      ShortcutKeepsStatement(root, a, p, nc);
    }
  }

  /** FOLD_IF does not throw only if IS_NOT_COMPLETION and, where it is asked, IS_EMPTY do not. */
  lemma IfPassesChecks(root: Node, p: NodePath, wrap: bool)
    requires TypeName(p.node) == "IfStatement" && IfStepWith(root, p, wrap).Ok?
    ensures NotCompletion(p).Ok?
    ensures NotCompletion(p).value && !NodeTruthy(Field(p.node, "alternate")) ==> EmptyCheck(Field(p.node, "consequent")).Ok?
  {
  }

  /** An `if` with nothing to do that is not the completion value becomes its test as a statement. */
  lemma EmptyIf(root: Node, p: NodePath, wrap: bool)
    requires TypeName(p.node) == "IfStatement" && NotCompletion(p) == Ok(true)
    requires !NodeTruthy(Field(p.node, "alternate")) && EmptyCheck(Field(p.node, "consequent")) == Ok(true)
    ensures IfStepWith(root, p, wrap) == Replaced(root, p, ExpressionStatement(Field(p.node, "test")))
  {
  }

  /** Past an `if` with nothing to do, FOLD_IF is the rewrites of its branches. */
  lemma IfToShortcut(root: Node, p: NodePath, wrap: bool, nc: bool)
    requires TypeName(p.node) == "IfStatement" && NotCompletion(p) == Ok(nc)
    requires nc && !NodeTruthy(Field(p.node, "alternate")) ==> EmptyCheck(Field(p.node, "consequent")) == Ok(false)
    ensures IfStepWith(root, p, wrap) == ShortcutStep(root, p, nc, wrap)
  {
  }

  lemma ShortcutKeepsStatement(root: Node, a: seq<Key>, p: NodePath, nc: bool)
    requires p == PathTo(root, a) && TypeName(p.node) == "IfStatement"
    requires IsStatement(Field(p.node, "consequent"))
    requires NodeTruthy(Field(p.node, "alternate")) ==> IsStatement(Field(p.node, "alternate"))
    requires ShortcutStep(root, p, nc, true).Ok?
    ensures IsStatement(At(ShortcutStep(root, p, nc, true).value.root, a))
  {
    PathToAt(root, a);
    var n := p.node;
    var test, cons, alt := Field(n, "test"), Field(n, "consequent"), Field(n, "alternate");
    if TypeName(cons) == "ExpressionStatement" && NodeTruthy(alt) && TypeName(alt) == "ExpressionStatement" {
      BuiltStatement(ConditionalOf(test, Field(cons, "expression"), Field(alt, "expression")));
      ReplacedStatement(root, a, p, Joined(test, cons, alt, true));
    } else if TypeName(cons) == "ExpressionStatement" && !NodeTruthy(alt) && nc {
      BuiltStatement(Guard(test, Field(cons, "expression")));
      ReplacedStatement(root, a, p, ExpressionStatement(Guard(test, Field(cons, "expression"))));
    } else {
      ConstKeepsStatement(root, a, p);
    }
  }

  lemma ConstKeepsStatement(root: Node, a: seq<Key>, p: NodePath)
    requires p == PathTo(root, a) && TypeName(p.node) == "IfStatement"
    requires IsStatement(Field(p.node, "consequent"))
    requires NodeTruthy(Field(p.node, "alternate")) ==> IsStatement(Field(p.node, "alternate"))
    requires ConstStep(root, p).Ok?
    ensures IsStatement(At(ConstStep(root, p).value.root, a))
  {
    PathToAt(root, a);
    var n := p.node;
    var test := Field(n, "test");
    if IsConstExpr(test) {
      var x := Chosen(ConstValue(test).value, Field(n, "consequent"), Field(n, "alternate"));
      ChosenStatement(ConstValue(test).value, Field(n, "consequent"), Field(n, "alternate"));
      ReplacedStatement(root, a, p, x);
    } else {
      BranchesTree(root, a, p);
      BranchKeepsType(n);
    }
  }

  lemma BuiltStatement(e: Node)
    ensures IsStatement(ExpressionStatement(e))
  {
    assert TypeName(ExpressionStatement(e)) == "ExpressionStatement";
  }

  lemma ChosenStatement(v: Value, cons: Node, alt: Node)
    requires IsStatement(cons) && (NodeTruthy(alt) ==> IsStatement(alt))
    ensures IsStatement(Chosen(v, cons, alt))
  {
    assert TypeName(EMPTY) == "EmptyStatement";
  }

  lemma BranchKeepsType(n: Node)
    requires n.Obj?
    ensures TypeName(BranchRewrite(n)) == TypeName(n)
  {
    BranchFields(n);
    assert Field(BranchRewrite(n), "type") == Field(n, "type");
  }

  /** A statement written in place of a live node by REPLACE is what is left there. */
  lemma ReplacedStatement(root: Node, a: seq<Key>, p: NodePath, x: Node)
    requires p == PathTo(root, a) && p.node != Leaf(Undefined)
    requires Replaced(root, p, x).Ok? && IsStatement(x)
    ensures IsStatement(At(Replaced(root, p, x).value.root, a))
  {
    PathToAt(root, a);
    ReplaceLands(root, a, p, x, a);
  }

  // ---- two expression branches -------------------------------------------------------

  /**
   * `if (test) c; else a;` with expression statements `c` and `a`, anywhere:
   * the rule as written leaves the bare conditional expression, which is not
   * a statement, where the `if` was; the corrected rule leaves it wrapped in
   * an expression statement.
   */
  lemma JoinedAsWritten(root: Node, a: seq<Key>, p: NodePath)
    requires p == PathTo(root, a) && p.parent.Some? && TypeName(p.node) == "IfStatement"
    requires TypeName(Field(p.node, "consequent")) == "ExpressionStatement"
    requires TypeName(Field(p.node, "alternate")) == "ExpressionStatement"
    requires NotCompletion(p).Ok?
    ensures var n := p.node;
      var x := ConditionalOf(Field(n, "test"), Field(Field(n, "consequent"), "expression"), Field(Field(n, "alternate"), "expression"));
      && IfStepAsWritten(root, p).Ok? && At(IfStepAsWritten(root, p).value.root, a) == x && !IsStatement(x)
      && IfStep(root, p).Ok? && At(IfStep(root, p).value.root, a) == ExpressionStatement(x)
      && IsStatement(ExpressionStatement(x))
  {
    PathToAt(root, a);
    var n := p.node;
    var test, cons, alt := Field(n, "test"), Field(n, "consequent"), Field(n, "alternate");
    var x := ConditionalOf(test, Field(cons, "expression"), Field(alt, "expression"));
    assert alt.Obj?;
    var nc := NotCompletion(p).value;
    IfToShortcut(root, p, false, nc);
    IfToShortcut(root, p, true, nc);
    ShortcutJoined(root, p, nc, false);
    ShortcutJoined(root, p, nc, true);
    ReplaceLands(root, a, p, x, a);
    ReplaceLands(root, a, p, ExpressionStatement(x), a);
    ConditionalIsNoStatement(test, Field(cons, "expression"), Field(alt, "expression"));
    BuiltStatement(x);
  }

  lemma ShortcutJoined(root: Node, p: NodePath, nc: bool, wrap: bool)
    requires TypeName(Field(p.node, "consequent")) == "ExpressionStatement"
    requires TypeName(Field(p.node, "alternate")) == "ExpressionStatement"
    ensures var n := p.node;
      ShortcutStep(root, p, nc, wrap) == Replaced(root, p, Joined(Field(n, "test"), Field(n, "consequent"), Field(n, "alternate"), wrap))
  {
    assert Field(p.node, "alternate").Obj?;
  }

  lemma ConditionalIsNoStatement(test: Node, c: Node, a: Node)
    ensures !IsStatement(ConditionalOf(test, c, a))
  {
    assert TypeName(ConditionalOf(test, c, a)) == "ConditionalExpression";
  }

  /** `a` as parsed. */
  function Ident(name: string): Node {
    Record(map["type" := StrLeaf("Identifier"), "name" := StrLeaf(name)])
  }

  /** `name();` as parsed. */
  function CallStatement(name: string): Node {
    ExpressionStatement(Record(map["type" := StrLeaf("CallExpression"), "callee" := Ident(name), "arguments" := Arr([])]))
  }

  /** `if (a) b(); else c();` as parsed. */
  const IfElse := Record(map["type" := StrLeaf("IfStatement"), "test" := Ident("a"),
                             "consequent" := CallStatement("b"), "alternate" := CallStatement("c")])

  /** `if (a) b(); else c(); d();` as parsed. */
  const IfElseProgram := Record(map["type" := StrLeaf("Program"), "body" := Arr([IfElse, CallStatement("d")])])

  /**
   * In `if (a) b(); else c(); d();` the rule as written puts the expression
   * `a ? b() : c()` itself into the program's statement list; the corrected
   * rule puts the statement `a ? b() : c();` there.
   */
  lemma BareConditional(root: Node)
    requires root == IfElseProgram
    ensures var p := PathTo(root, [Name("body"), Index(0)]);
      var x := ConditionalOf(Ident("a"), Field(CallStatement("b"), "expression"), Field(CallStatement("c"), "expression"));
      && p.node == IfElse
      && IfStepAsWritten(root, p).Ok? && At(IfStepAsWritten(root, p).value.root, [Name("body"), Index(0)]) == x && !IsStatement(x)
      && IfStep(root, p).Ok? && At(IfStep(root, p).value.root, [Name("body"), Index(0)]) == ExpressionStatement(x)
  {
    FoldStatements.FirstOfBody(root, IfElse, CallStatement("d"));
    var p := PathTo(root, [Name("body"), Index(0)]);
    NotLastIsNotCompletion(p);
    IfElseShape(p.node);
    JoinedAsWritten(root, [Name("body"), Index(0)], p);
  }

  lemma IfElseShape(n: Node)
    requires n == IfElse
    ensures TypeName(n) == "IfStatement" && Field(n, "test") == Ident("a")
    ensures Field(n, "consequent") == CallStatement("b") && Field(n, "alternate") == CallStatement("c")
    ensures TypeName(Field(n, "consequent")) == "ExpressionStatement" && TypeName(Field(n, "alternate")) == "ExpressionStatement"
  {
  }
}
