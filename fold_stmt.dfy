/**
 * Two statement folds of the folder: FOLD_EMPTY drops empty statements from
 * statement lists, and FOLD_EXPR_STMT merges runs of expression statements
 * into one comma expression and drops constant ones.
 */
module FoldStatements {
  import opened Values
  import opened Tree
  import opened ConstModel
  import opened NodePaths
  import opened Shapes
  import opened Edits
  import opened Semantics
  import ConstLemmas

  // ---- FOLD_EMPTY ---------------------------------------------------------------

  /** An empty statement in a list is cut out, and the list is handed back. */
  function EmptyStep(root: Node, p: NodePath): Result<Step> {
    if NodeTruthy(p.node) && p.parent.Some? && p.parent.value.node.Arr? then
      var e :- EmptyCheck(p.node);
      if e then
        var t :- RemoveTree(root, p);
        Ok(Step(Fire(Some(p.parent.value)), t))
      else Ok(Step(Pass, root))
    else Ok(Step(Pass, root))
  }

  method FoldEmpty(f: Folder, p: NodePath) returns (r: Result<Stage>)
    modifies f`root
    ensures Agrees(r, f.root, EmptyStep(old(f.root), p))
  {
    if NodeTruthy(p.node) && p.parent.Some? && p.parent.value.node.Arr? {
      var e :- EmptyCheck(p.node);
      if e {
        var removed :- f.Remove(p);
        return Ok(Fire(Some(p.parent.value)));
      }
    }
    return Ok(Pass);
  }

  /**
   * In a statement list, FOLD_EMPTY fails only where IS_EMPTY does; it fires
   * exactly on an empty statement, which it cuts out of the list, and
   * otherwise leaves the tree as it is.
   */
  lemma EmptyRemoved(root: Node, a: seq<Key>, p: NodePath, b: seq<Key>)
    requires p == PathTo(root, a) && p.parent.Some? && p.parent.value.node.Arr? && NodeTruthy(p.node)
    ensures EmptyStep(root, p).Ok? <==> EmptyCheck(p.node).Ok?
    ensures EmptyStep(root, p).Ok? ==> (EmptyStep(root, p).value.stage.Fire? <==> IsEmpty(p.node))
    ensures EmptyStep(root, p).Ok? && !IsEmpty(p.node) ==> EmptyStep(root, p).value.root == root
    ensures p.key.Some? && p.key.value.Index?
    ensures EmptyStep(root, p).Ok? && IsEmpty(p.node) ==>
      var pa := Address(p.parent.value);
      At(EmptyStep(root, p).value.root, pa) == Arr(Splice1(p.parent.value.node.elems, p.key.value.i))
      && (Diverge(pa, b) ==> At(EmptyStep(root, p).value.root, b) == At(root, b))
  {
    PathToAt(root, a);
    RemoveFromArray(root, a, p);
    var pa := Address(p.parent.value);
    if Diverge(pa, b) {
      SetAtDiverge(root, pa, b, Arr(Splice1(p.parent.value.node.elems, p.key.value.i)));
    }
  }

  // ---- FOLD_EXPR_STMT -----------------------------------------------------------

  /**
   * How many expression statements follow each other from index `j` on.
   * Reading `.type` of a null or undefined element throws.
   */
  function RunFrom(sibs: seq<Node>, j: nat): (r: Result<nat>)
    ensures r.Ok? ==> j + r.value <= |sibs| || r.value == 0
    decreases |sibs| - j
  {
    if j >= |sibs| then Ok(0)
    else if sibs[j] == Leaf(Undefined) || sibs[j] == Leaf(Null) then Err(TypeError)
    else if TypeName(sibs[j]) != "ExpressionStatement" then Ok(0)
    else Shift(RunFrom(sibs, j + 1), 1)
  }

  /** A count that is one or more further along, or the failure that stopped it. */
  function Shift(r: Result<nat>, d: nat): Result<nat> {
    if r.Ok? then Ok(r.value + d) else r
  }

  /**
   * What one statement contributes to the merged comma expression: the
   * operands of a comma expression, or the expression itself. Reading the
   * type of a missing expression, or spreading operands that are not an
   * array, throws.
   */
  function Operands(stmt: Node): Result<seq<Node>> {
    var e := Field(stmt, "expression");
    if e == Leaf(Undefined) || e == Leaf(Null) then Err(TypeError)
    else if TypeName(e) == "SequenceExpression" then
      var xs := Field(e, "expressions");
      if xs.Arr? then Ok(xs.elems) else Err(TypeError)
    else Ok([e])
  }

  /** The `reduce` over the merged statements, from the first to the last. */
  function Flatten(stmts: seq<Node>): Result<seq<Node>>
    decreases |stmts|
  {
    if stmts == [] then Ok([])
    else
      var acc :- Flatten(stmts[..|stmts| - 1]);
      var more :- Operands(stmts[|stmts| - 1]);
      Ok(acc + more)
  }

  /** The statement the merge puts in place of the run. */
  function MergedStatement(ops: seq<Node>): Node {
    Record(map["type" := StrLeaf("ExpressionStatement"),
               "expression" := Record(map["type" := StrLeaf("SequenceExpression"), "expressions" := Arr(ops)])])
  }

  /** `path.key` as the loop and `splice` use it: null counts as 0, a name key compares false. */
  function MergeStart(key: Option<Key>): Option<nat> {
    match key
    case None => Some(0)
    case Some(Index(i)) => Some(i)
    case Some(Name(_)) => None
  }

  /**
   * The statement list after the run of expression statements starting with
   * `first` at `key` is merged, or None when no other statement follows it.
   */
  function Merge(sibs: seq<Node>, key: Option<Key>, first: Node): Result<Option<seq<Node>>> {
    var k := MergeStart(key);
    if k.None? || k.value + 1 >= |sibs| then Ok(None)
    else match Collected(sibs, k.value, first)
      case Err(e) => Err(e)
      case Ok(ms) => MergeOf(sibs, k.value, ms)
  }

  /** `mergeable`: `first` and the expression statements that follow index `k`. */
  function Collected(sibs: seq<Node>, k: nat, first: Node): (r: Result<seq<Node>>)
    requires k + 1 < |sibs|
    ensures r.Ok? ==> 1 <= |r.value| && (|r.value| > 1 ==> k + |r.value| <= |sibs|)
  {
    match RunFrom(sibs, k + 1)
    case Err(e) => Err(e)
    case Ok(run) => Ok([first] + sibs[k + 1..k + 1 + run])
  }

  /** The splice that puts the merge of `ms` in place of the run, when there is more than one statement. */
  function MergeOf(sibs: seq<Node>, k: nat, ms: seq<Node>): Result<Option<seq<Node>>>
    requires |ms| > 1 ==> k + |ms| <= |sibs|
  {
    if |ms| <= 1 then Ok(None)
    else match Flatten(ms)
      case Err(e) => Err(e)
      case Ok(ops) => Ok(Some(sibs[..k] + [MergedStatement(ops)] + sibs[k + |ms|..]))
  }

  /**
   * FOLD_EXPR_STMT: outside the directive prologue a run of expression
   * statements is merged and the path handed back; otherwise a constant
   * expression statement that is not the completion value is replaced by
   * EMPTY. With `keepDirectives` the replacement also spares directives.
   */
  function ExprStmtStepWith(root: Node, p: NodePath, keepDirectives: bool): Result<Step> {
    var n := p.node;
    if TypeName(n) != "ExpressionStatement" then Ok(Step(Pass, root))
    else if p.parent.None? then Err(TypeError)
    else
      var parent := p.parent.value.node;
      var pragma :- if parent.Arr? then Pragma(p, 1) else Ok(false);
      var merged :- if parent.Arr? && !pragma then Merge(parent.elems, p.key, n) else Ok(None);
      if merged.Some? then Ok(Step(Fire(Some(p)), SetAt(root, Address(p.parent.value), Arr(merged.value))))
      else
        var notCompletion :- NotCompletion(p);
        if notCompletion && IsConstExpr(Field(n, "expression")) && !(keepDirectives && pragma) then Replaced(root, p, EMPTY)
        else Ok(Step(Pass, root))
  }

  /** The rule as written: a directive that is not the completion value is dropped. */
  function ExprStmtStepAsWritten(root: Node, p: NodePath): Result<Step> {
    ExprStmtStepWith(root, p, false)
  }

  /** The rule with directives kept. */
  function ExprStmtStep(root: Node, p: NodePath): Result<Step> {
    ExprStmtStepWith(root, p, true)
  }

  method FoldExprStmt(f: Folder, p: NodePath) returns (r: Result<Stage>)
    modifies f`root
    ensures Agrees(r, f.root, ExprStmtStep(old(f.root), p))
  {
    var n := p.node;
    if TypeName(n) != "ExpressionStatement" {
      return Ok(Pass);
    }
    if p.parent.None? {
      return Err(TypeError);
    }
    var parent := p.parent.value.node;
    var pragma := false;
    if parent.Arr? {
      pragma :- IsPragma(p);
      if !pragma {
        var merged :- MergeStatements(parent.elems, p.key, n);
        if merged.Some? {
          f.root := SetAt(f.root, Address(p.parent.value), Arr(merged.value));
          return Ok(Fire(Some(p)));
        }
      }
    }
    var notCompletion :- IsNotCompletion(p);
    if notCompletion && IsConstExpr(Field(n, "expression")) && !pragma {
      var q :- f.Replace(p, EMPTY);
      return Ok(Fire(Some(q)));
    }
    return Ok(Pass);
  }

  /** The merging code: collect the expression statements that follow, then splice in their merge. */
  method MergeStatements(sibs: seq<Node>, key: Option<Key>, first: Node) returns (r: Result<Option<seq<Node>>>)
    ensures r == Merge(sibs, key, first)
  {
    var k := MergeStart(key);
    if k.None? || k.value + 1 >= |sibs| {
      return Ok(None);
    }
    var start := k.value;
    var collected := CollectRun(sibs, start, first);
    if collected.Err? {
      return Err(collected.error);
    }
    var mergeable := collected.value;
    if |mergeable| > 1 {
      var ops := Flatten(mergeable);
      if ops.Err? {
        return Err(ops.error);
      }
      return Ok(Some(sibs[..start] + [MergedStatement(ops.value)] + sibs[start + |mergeable|..]));
    }
    return Ok(None);
  }

  /** The loop that collects `first` and the expression statements after index `start`. */
  method CollectRun(sibs: seq<Node>, start: nat, first: Node) returns (r: Result<seq<Node>>)
    requires start + 1 < |sibs|
    ensures r == Collected(sibs, start, first)
  {
    var mergeable := [first];
    var needle := start + 1;
    while needle < |sibs|
      invariant start + 1 <= needle <= |sibs|
      invariant mergeable == [first] + sibs[start + 1..needle]
      invariant forall j :: start + 1 <= j < needle ==> Mergeable(sibs[j])
    {
      if sibs[needle] == Leaf(Undefined) || sibs[needle] == Leaf(Null) {
        CollectEnd(sibs, start, first, needle);
        return Err(TypeError);
      }
      if TypeName(sibs[needle]) != "ExpressionStatement" {
        CollectEnd(sibs, start, first, needle);
        return Ok(mergeable);
      }
      mergeable := mergeable + [sibs[needle]];
      needle := needle + 1;
      assert mergeable == [first] + sibs[start + 1..needle];
    }
    CollectEnd(sibs, start, first, needle);
    return Ok(mergeable);
  }

  /** Where the loop stops after the expression statements before `needle`: what it has collected, or the exception. */
  lemma CollectEnd(sibs: seq<Node>, start: nat, first: Node, needle: nat)
    requires start + 1 <= needle <= |sibs| && start + 1 < |sibs|
    requires forall j :: start + 1 <= j < needle ==> Mergeable(sibs[j])
    ensures needle == |sibs| ==> Collected(sibs, start, first) == Ok([first] + sibs[start + 1..needle])
    ensures needle < |sibs| && (sibs[needle] == Leaf(Undefined) || sibs[needle] == Leaf(Null)) ==>
      Collected(sibs, start, first) == Err(TypeError)
    ensures (needle < |sibs| && sibs[needle] != Leaf(Undefined) && sibs[needle] != Leaf(Null)
             && TypeName(sibs[needle]) != "ExpressionStatement") ==>
      Collected(sibs, start, first) == Ok([first] + sibs[start + 1..needle])
  {
    RunSpan(sibs, start + 1, needle);
    CollectedAt(sibs, start, first, needle);
  }

  /** Where the loop stops, the statements it has collected are `mergeable`, or it throws. */
  lemma CollectedAt(sibs: seq<Node>, start: nat, first: Node, needle: nat)
    requires start + 1 <= needle <= |sibs| && start + 1 < |sibs|
    requires RunFrom(sibs, start + 1) == Shift(RunFrom(sibs, needle), needle - start - 1)
    ensures RunFrom(sibs, needle).Err? ==> Collected(sibs, start, first) == Err(RunFrom(sibs, needle).error)
    ensures RunFrom(sibs, needle) == Ok(0) ==> Collected(sibs, start, first) == Ok([first] + sibs[start + 1..needle])
  {
  }

  /** A statement the merging loop takes in: an expression statement. */
  predicate Mergeable(n: Node) {
    n != Leaf(Undefined) && n != Leaf(Null) && TypeName(n) == "ExpressionStatement"
  }

  /** Over a stretch of expression statements the count goes up by the stretch's length. */
  lemma {:induction false} RunSpan(sibs: seq<Node>, lo: nat, hi: nat)
    requires lo <= hi <= |sibs| && forall j :: lo <= j < hi ==> Mergeable(sibs[j])
    ensures RunFrom(sibs, lo) == Shift(RunFrom(sibs, hi), hi - lo)
    decreases hi - lo
  {
    if lo < hi {
      RunSpan(sibs, lo + 1, hi);
    }
  }

  // ---- what FOLD_EXPR_STMT keeps ----------------------------------------------

  /**
   * The run counted from `j` is exactly the expression statements from `j`
   * on: each of them is one, and the element after the run (if any) is a
   * statement of another kind.
   */
  lemma RunMeaning(sibs: seq<Node>, j: nat)
    requires RunFrom(sibs, j).Ok?
    ensures var run := RunFrom(sibs, j).value;
      (forall i :: j <= i < j + run ==> i < |sibs| && TypeName(sibs[i]) == "ExpressionStatement")
      && (j + run < |sibs| ==> sibs[j + run] != Leaf(Undefined) && sibs[j + run] != Leaf(Null)
                               && TypeName(sibs[j + run]) != "ExpressionStatement")
  {
    RunStatements(sibs, j);
    RunStops(sibs, j);
  }

  /** Every element the run counted from `j` covers is an expression statement. */
  lemma {:induction false} RunStatements(sibs: seq<Node>, j: nat)
    requires RunFrom(sibs, j).Ok?
    ensures forall i :: j <= i < j + RunFrom(sibs, j).value ==> i < |sibs| && TypeName(sibs[i]) == "ExpressionStatement"
    decreases |sibs| - j
  {
    if j < |sibs| && sibs[j] != Leaf(Undefined) && sibs[j] != Leaf(Null) && TypeName(sibs[j]) == "ExpressionStatement" {
      RunStatements(sibs, j + 1);
    }
  }

  /** The element just after the run counted from `j`, if any, is a statement of another kind. */
  lemma {:induction false} RunStops(sibs: seq<Node>, j: nat)
    requires RunFrom(sibs, j).Ok?
    ensures var e := j + RunFrom(sibs, j).value;
      e < |sibs| ==> sibs[e] != Leaf(Undefined) && sibs[e] != Leaf(Null) && TypeName(sibs[e]) != "ExpressionStatement"
    decreases |sibs| - j
  {
    if j < |sibs| && sibs[j] != Leaf(Undefined) && sibs[j] != Leaf(Null) && TypeName(sibs[j]) == "ExpressionStatement" {
      RunStops(sibs, j + 1);
    }
  }

  /** The statement's expression has a value, and a comma expression among them is not a folded constant. */
  ghost predicate Evaluates(host: Host, stmt: Node) {
    var e := Field(stmt, "expression");
    Eval(host, e).Some? && (TypeName(e) == "SequenceExpression" ==> !IsConstExpr(e))
  }

  /** The value of a comma expression that is not a constant: the value of its last operand, once all have one. */
  lemma EvalSequence(host: Host, e: Node)
    requires TypeName(e) == "SequenceExpression" && !IsConstExpr(e) && Eval(host, e).Some?
    ensures Field(e, "expressions").Arr?
    ensures var es := Field(e, "expressions").elems;
      |es| > 0 && (forall i :: 0 <= i < |es| ==> Eval(host, es[i]).Some?) && Eval(host, e) == Eval(host, es[|es| - 1])
  {
  }

  /** A statement's operands all have values, the last one the value of the statement's expression. */
  lemma OperandsValue(host: Host, stmt: Node)
    requires Evaluates(host, stmt)
    ensures Operands(stmt).Ok? && Operands(stmt).value != []
    ensures var ops := Operands(stmt).value;
      (forall i :: 0 <= i < |ops| ==> Eval(host, ops[i]).Some?)
      && Eval(host, ops[|ops| - 1]) == Eval(host, Field(stmt, "expression"))
  {
    var e := Field(stmt, "expression");
    if TypeName(e) == "SequenceExpression" {
      EvalSequence(host, e);
    }
  }

  /**
   * Flattening statements whose expressions have values gives operands that
   * all have values, the last one that of the last statement's expression.
   */
  lemma {:induction false} FlattenValue(host: Host, stmts: seq<Node>)
    requires stmts != [] && forall i :: 0 <= i < |stmts| ==> Evaluates(host, stmts[i])
    ensures Flatten(stmts).Ok? && Flatten(stmts).value != []
    ensures var ops := Flatten(stmts).value;
      (forall i :: 0 <= i < |ops| ==> Eval(host, ops[i]).Some?)
      && Eval(host, ops[|ops| - 1]) == Eval(host, Field(stmts[|stmts| - 1], "expression"))
    decreases |stmts|
  {
    var pre, last := stmts[..|stmts| - 1], stmts[|stmts| - 1];
    OperandsValue(host, last);
    if pre != [] {
      FlattenValue(host, pre);
    }
    var acc, more := Flatten(pre).value, Operands(last).value;
    var ops := acc + more;
    assert Flatten(stmts) == Ok(ops);
    forall i | 0 <= i < |ops|
      ensures Eval(host, ops[i]).Some?
    {
      if i >= |acc| {
        assert ops[i] == more[i - |acc|];
      }
    }
  }

  /** A merge that happens replaces `first` and a run of at least one following expression statement by the merge of their operands. */
  lemma MergeParts(sibs: seq<Node>, i: nat, first: Node) returns (run: nat, ops: seq<Node>)
    requires Merge(sibs, Some(Index(i)), first).Ok? && Merge(sibs, Some(Index(i)), first).value.Some?
    ensures i + 1 < |sibs| && RunFrom(sibs, i + 1) == Ok(run) && 1 <= run && i + 1 + run <= |sibs|
    ensures Flatten([first] + sibs[i + 1..i + 1 + run]) == Ok(ops)
    ensures Merge(sibs, Some(Index(i)), first) == Ok(Some(sibs[..i] + [MergedStatement(ops)] + sibs[i + 1 + run..]))
  {
    assert MergeStart(Some(Index(i))) == Some(i);
    assert i + 1 < |sibs|;
    var c := Collected(sibs, i, first);
    assert c.Ok? && Merge(sibs, Some(Index(i)), first) == MergeOf(sibs, i, c.value);
    run := RunFrom(sibs, i + 1).value;
    var ms := c.value;
    assert ms == [first] + sibs[i + 1..i + 1 + run];
    assert |ms| == 1 + run;
    ops := Flatten(ms).value;
    assert MergeOf(sibs, i, ms) == Ok(Some(sibs[..i] + [MergedStatement(ops)] + sibs[i + |ms|..]));
  }

  /**
   * The merge puts in place of a run of expression statements after `first`
   * one expression statement, and keeps the statements before and after the
   * run as they were.
   */
  lemma MergeShape(sibs: seq<Node>, i: nat, first: Node)
    requires Merge(sibs, Some(Index(i)), first).Ok? && Merge(sibs, Some(Index(i)), first).value.Some?
    ensures var out := Merge(sibs, Some(Index(i)), first).value.value;
      var run := |sibs| - |out|;
      1 <= run && i + run < |sibs| && |out| == |sibs| - run
      && out[..i] == sibs[..i] && out[i + 1..] == sibs[i + 1 + run..]
      && (forall j :: i < j <= i + run ==> TypeName(sibs[j]) == "ExpressionStatement")
      && TypeName(out[i]) == "ExpressionStatement"
  {
    var run, ops := MergeParts(sibs, i, first);
    RunStatements(sibs, i + 1);
    MergedType(ops);
    Splice(sibs, i, run, MergedStatement(ops), Merge(sibs, Some(Index(i)), first).value.value);
  }

  lemma MergedType(ops: seq<Node>)
    ensures TypeName(MergedStatement(ops)) == "ExpressionStatement"
  {
  }

  /** The list `out` with `x` in place of `run + 1` elements from index `i`, the ones after `i` expression statements. */
  lemma Splice(sibs: seq<Node>, i: nat, run: nat, x: Node, out: seq<Node>)
    requires 1 <= run && i + 1 + run <= |sibs| && out == sibs[..i] + [x] + sibs[i + 1 + run..]
    requires TypeName(x) == "ExpressionStatement"
    requires forall j :: i + 1 <= j < i + 1 + run ==> TypeName(sibs[j]) == "ExpressionStatement"
    ensures var run' := |sibs| - |out|;
      1 <= run' && i + run' < |sibs| && |out| == |sibs| - run'
      && out[..i] == sibs[..i] && out[i + 1..] == sibs[i + 1 + run'..]
      && (forall j :: i < j <= i + run' ==> TypeName(sibs[j]) == "ExpressionStatement")
      && TypeName(out[i]) == "ExpressionStatement"
  {
    assert |out| == |sibs| - run;
    assert out[i + 1..] == sibs[i + 1 + run..];
  }

  /**
   * The statement that replaces the collected statements `ms` has as its
   * expression a comma expression with the value of the last expression of
   * `ms`, when every expression of `ms` has a value.
   */
  lemma MergedStatementValue(host: Host, ms: seq<Node>)
    requires ms != [] && forall j {:trigger Evaluates(host, ms[j])} :: 0 <= j < |ms| ==> Evaluates(host, ms[j])
    ensures Flatten(ms).Ok?
    ensures Eval(host, Field(MergedStatement(Flatten(ms).value), "expression")) == Eval(host, Field(ms[|ms| - 1], "expression"))
  {
    FlattenValue(host, ms);
    MergedValue(host, Flatten(ms).value);
  }

  /** Every statement the merge collects has a value. */
  lemma RunEvaluates(host: Host, sibs: seq<Node>, i: nat, first: Node)
    requires i + 1 < |sibs| && RunFrom(sibs, i + 1).Ok? && i + 1 + RunFrom(sibs, i + 1).value <= |sibs|
    requires Evaluates(host, first)
    requires forall j {:trigger Evaluates(host, sibs[j])} :: i < j < |sibs| && TypeName(sibs[j]) == "ExpressionStatement" ==> Evaluates(host, sibs[j])
    ensures var ms := [first] + sibs[i + 1..i + 1 + RunFrom(sibs, i + 1).value];
      forall j {:trigger Evaluates(host, ms[j])} :: 0 <= j < |ms| ==> Evaluates(host, ms[j])
  {
    RunStatements(sibs, i + 1);
    var run := RunFrom(sibs, i + 1).value;
    RunElements(sibs, i, first, run);
  }

  /** The statements a merge collects: `first`, then the expression statements of the run. */
  lemma RunElements(sibs: seq<Node>, i: nat, first: Node, run: nat)
    requires i + 1 + run <= |sibs| && forall j :: i + 1 <= j < i + 1 + run ==> TypeName(sibs[j]) == "ExpressionStatement"
    ensures var ms := [first] + sibs[i + 1..i + 1 + run];
      |ms| == run + 1 && ms[0] == first
      && forall j :: 1 <= j < |ms| ==> i < i + j < |sibs| && ms[j] == sibs[i + j] && TypeName(sibs[i + j]) == "ExpressionStatement"
  {
  }

  /** The merged statement's comma expression has the value of its last operand. */
  lemma MergedValue(host: Host, ops: seq<Node>)
    requires ops != [] && forall i :: 0 <= i < |ops| ==> Eval(host, ops[i]).Some?
    ensures Eval(host, Field(MergedStatement(ops), "expression")) == Eval(host, ops[|ops| - 1])
  {
    var e := Field(MergedStatement(ops), "expression");
    assert e == Record(map["type" := StrLeaf("SequenceExpression"), "expressions" := Arr(ops)]);
    ConstLemmas.PlainConstExpr(e);
    EvalSequenceNode(host, e);
  }

  /** After a merge, the merged statement is followed by no expression statement, so a second visit merges nothing. */
  lemma MergeMaximal(sibs: seq<Node>, i: nat, first: Node)
    requires Merge(sibs, Some(Index(i)), first).Ok? && Merge(sibs, Some(Index(i)), first).value.Some?
    ensures var out := Merge(sibs, Some(Index(i)), first).value.value;
      i < |out| && Merge(out, Some(Index(i)), out[i]) == Ok(None)
  {
    var run, ops := MergeParts(sibs, i, first);
    RunMeaning(sibs, i + 1);
    var out := Merge(sibs, Some(Index(i)), first).value.value;
    if i + 1 < |out| {
      assert out[i + 1] == sibs[i + 1 + run];
      assert RunFrom(out, i + 1) == Ok(0);
    }
  }

  // ---- directives -----------------------------------------------------------------

  /**
   * On a directive of a statement list (an expression statement whose
   * expression is a constant string, preceded only by directives) both
   * versions of the rule merge nothing and throw alike. Where the directive is
   * not the completion value, the rule as written drops it; the corrected rule
   * leaves the tree as it is.
   */
  lemma DirectiveKept(root: Node, a: seq<Key>, p: NodePath)
    requires p == PathTo(root, a) && p.parent.Some? && p.parent.value.node.Arr?
    requires TypeName(p.node) == "ExpressionStatement" && Pragma(p, 1) == Ok(true)
    ensures NotCompletion(p).Err? ==>
      ExprStmtStep(root, p) == Err(NotCompletion(p).error) && ExprStmtStepAsWritten(root, p) == Err(NotCompletion(p).error)
    ensures NotCompletion(p) == Ok(false) ==>
      ExprStmtStep(root, p) == Ok(Step(Pass, root)) && ExprStmtStepAsWritten(root, p) == Ok(Step(Pass, root))
    ensures NotCompletion(p) == Ok(true) ==>
      ExprStmtStep(root, p) == Ok(Step(Pass, root)) && ExprStmtStepAsWritten(root, p) == Replaced(root, p, EMPTY)
  {
    PathToAt(root, a);
    DirectiveIsConstant(root, a, p);
    PragmaStep(root, p, true);
    PragmaStep(root, p, false);
  }

  /** On a statement the directive check accepts, the rule reduces to the completion test. */
  lemma PragmaStep(root: Node, p: NodePath, keepDirectives: bool)
    requires p.parent.Some? && p.parent.value.node.Arr?
    requires TypeName(p.node) == "ExpressionStatement" && Pragma(p, 1) == Ok(true)
    ensures ExprStmtStepWith(root, p, keepDirectives) ==
      match NotCompletion(p)
      case Err(e) => Err(e)
      case Ok(nc) =>
        if nc && IsConstExpr(Field(p.node, "expression")) && !keepDirectives then Replaced(root, p, EMPTY)
        else Ok(Step(Pass, root))
  {
  }

  /** A live statement the directive check accepts has a constant expression. */
  lemma DirectiveIsConstant(root: Node, a: seq<Key>, p: NodePath)
    requires p == PathTo(root, a) && p.parent.Some? && p.parent.value.node.Arr?
    requires TypeName(p.node) == "ExpressionStatement" && Pragma(p, 1) == Ok(true)
    ensures IsConstExpr(Field(p.node, "expression"))
  {
    PathToAt(root, a);
    LiveParent(root, a, p);
    assert HasChild(p.parent.value.node, p.key.value);
    PragmaIsPosAndDirective(p);
    assert p.parent.value.node.elems[p.key.value.i] == p.node;
  }

  /** `"use strict";` as parsed. */
  const UseStrict := Record(map["type" := StrLeaf("ExpressionStatement"), "expression" := Lit(Str("use strict"), Unmarked)])

  /** `f();` as parsed. */
  const CallF := Record(map["type" := StrLeaf("ExpressionStatement"),
                            "expression" := Record(map["type" := StrLeaf("CallExpression"), "arguments" := Arr([]),
                                                       "callee" := Record(map["type" := StrLeaf("Identifier"), "name" := StrLeaf("f")])])])

  /** `"use strict"; f();` as parsed. */
  const DirectiveProgram := Record(map["type" := StrLeaf("Program"), "body" := Arr([UseStrict, CallF])])

  /**
   * In `"use strict"; f();` the rule as written puts an empty statement in
   * place of the directive, so the program loses strict mode; the corrected
   * rule leaves the program as it is.
   */
  lemma DirectiveDroppedAsWritten(root: Node)
    requires root == DirectiveProgram
    ensures var p := PathTo(root, [Name("body"), Index(0)]);
      && p.node == UseStrict
      && ExprStmtStepAsWritten(root, p).Ok?
      && At(ExprStmtStepAsWritten(root, p).value.root, [Name("body"), Index(0)]) == EMPTY
      && ExprStmtStep(root, p) == Ok(Step(Pass, root))
  {
    FirstOfBody(root, UseStrict, CallF);
    UseStrictDropped(root, [Name("body"), Index(0)], PathTo(root, [Name("body"), Index(0)]));
  }

  /** `"use strict"` in front of `f();`, wherever that list is. */
  lemma UseStrictDropped(root: Node, a: seq<Key>, p: NodePath)
    requires p == PathTo(root, a) && p.node == UseStrict
    requires p.parent.Some? && p.parent.value.node == Arr([UseStrict, CallF]) && p.key == Some(Index(0))
    ensures ExprStmtStepAsWritten(root, p).Ok? && At(ExprStmtStepAsWritten(root, p).value.root, a) == EMPTY
    ensures ExprStmtStep(root, p) == Ok(Step(Pass, root))
  {
    PathToAt(root, a);
    UseStrictIsDirective(p.parent.value.node.elems);
    assert Pragma(p, 1) == Scan(p.parent.value.node.elems, 1);
    DirectiveDropped(root, a, p);
  }

  /** `"use strict"` opening a statement list is a directive. */
  lemma UseStrictIsDirective(sibs: seq<Node>)
    requires |sibs| > 0 && sibs[0] == UseStrict
    ensures DirectiveCheck(sibs, 0) == Ok(true)
  {
    var e := Field(sibs[0], "expression");
    assert e == Lit(Str("use strict"), Unmarked);
    ConstLemmas.LiteralValue(Str("use strict"));
  }

  /**
   * A directive followed by another statement is not the completion value:
   * the rule as written replaces it by an empty statement, the corrected rule
   * keeps it.
   */
  lemma DirectiveDropped(root: Node, a: seq<Key>, p: NodePath)
    requires p == PathTo(root, a) && p.parent.Some? && p.parent.value.node.Arr?
    requires TypeName(p.node) == "ExpressionStatement" && Pragma(p, 1) == Ok(true)
    requires !IsLastKey(p.key, |p.parent.value.node.elems|)
    ensures ExprStmtStepAsWritten(root, p).Ok? && At(ExprStmtStepAsWritten(root, p).value.root, a) == EMPTY
    ensures ExprStmtStep(root, p) == Ok(Step(Pass, root))
  {
    PathToAt(root, a);
    NotLastIsNotCompletion(p);
    DirectiveKept(root, a, p);
    ReplaceLands(root, a, p, EMPTY, a);
  }

  /** The path to the first of two statements of a program's body. */
  lemma FirstOfBody(root: Node, s0: Node, s1: Node)
    requires root == Record(map["type" := StrLeaf("Program"), "body" := Arr([s0, s1])])
    ensures var p := PathTo(root, [Name("body"), Index(0)]);
      && Address(p) == [Name("body"), Index(0)] && p.node == s0
      && p.parent.Some? && p.parent.value.node == Arr([s0, s1]) && p.key == Some(Index(0))
  {
    var a := [Name("body"), Index(0)];
    PathToAt(root, a);
    PathToAt(root, a[..1]);
    assert a[..1] == [Name("body")];
  }
}
