/**
 * FOLD_WHILE: the loop folds of the second pass. Every loop's empty body
 * becomes the EMPTY statement; a `while` whose test is a falsy constant is
 * dropped; a `for` loses a constant `init` and `update` and has a constant
 * `test` turned into no test (always true) or into `false`.
 */
module FoldLoops {
  import opened Values
  import opened Tree
  import opened ConstModel
  import opened NodePaths
  import opened Shapes
  import opened Edits
  import ConstLemmas

  /** `REPLACE_IF_EMPTY(path.get(['body']), EMPTY)`, then `return yield path`. */
  function BodyStep(root: Node, p: NodePath): Result<Step> {
    var t :- ReplaceIfEmptyTree(root, Sub(p, "body"), EMPTY);
    Ok(Step(Pass, t))
  }

  /** `IS_CONSTEXPR(test) && !CONSTVALUE(test)`: the loop never runs. */
  function NeverTrue(test: Node): Result<bool> {
    if !IsConstExpr(test) then Ok(false)
    else
      var v :- ConstValue(test);
      Ok(!Truthy(v))
  }

  /**
   * What a `for` test becomes: nothing (None) when it is not a constant or is
   * the constant `false`; no test (null) when it is a truthy constant;
   * `false` when it is any other falsy constant.
   */
  function ForTest(test: Node): Result<Option<Node>> {
    if !(NodeTruthy(test) && IsConstExpr(test)) then Ok(None)
    else
      var current :- ConstValue(test);
      if Truthy(current) then Ok(Some(Leaf(Null)))
      else if current != Primitive(Bool(false)) then
        var c :- ConstModel.ToConstExpr(Primitive(Bool(false)));
        Ok(Some(c))
      else Ok(None)
  }

  /** `init && IS_CONSTEXPR(init)`, and the same for `update`. */
  predicate Droppable(n: Node) {
    NodeTruthy(n) && IsConstExpr(n)
  }

  /** `REPLACE(path.get([name]), null)` when `clear` holds. */
  function ClearSlot(root: Node, p: NodePath, name: string, clear: bool): Result<Node> {
    if clear then ReplaceTree(root, Sub(p, name), Leaf(Null)) else Ok(root)
  }

  /** The rewrite of the test, if there is one. */
  function WriteTest(root: Node, p: NodePath, newTest: Option<Node>): Result<Node> {
    if newTest.Some? then ReplaceTree(root, Sub(p, "test"), newTest.value) else Ok(root)
  }

  /** The four rewrites of a `for`, one after the other on the live tree; the path comes back when one was made. */
  function ForStep(root: Node, p: NodePath): Result<Step> {
    var t0 :- ReplaceIfEmptyTree(root, Sub(p, "body"), EMPTY);
    ForRest(t0, p)
  }

  /** The rewrites after the body's. */
  function ForRest(t0: Node, p: NodePath): Result<Step> {
    var n := p.node;
    var clearInit := Droppable(Field(n, "init"));
    var t1 :- ClearSlot(t0, p, "init", clearInit);
    var newTest :- ForTest(Field(n, "test"));
    var t2 :- WriteTest(t1, p, newTest);
    var clearUpdate := Droppable(Field(n, "update"));
    var t3 :- ClearSlot(t2, p, "update", clearUpdate);
    Ok(Step(if clearInit || newTest.Some? || clearUpdate then Fire(Some(p)) else Pass, t3))
  }

  /** FOLD_WHILE, on `do`-`while`, `while` and `for` loops. */
  function WhileStep(root: Node, p: NodePath): Result<Step> {
    var n := p.node;
    if !NodeTruthy(n) then Ok(Step(Pass, root))
    else if TypeName(n) == "DoWhileStatement" then BodyStep(root, p)
    else if TypeName(n) == "WhileStatement" then
      var never :- NeverTrue(Field(n, "test"));
      if never then Replaced(root, p, EMPTY) else BodyStep(root, p)
    else if TypeName(n) == "ForStatement" then ForStep(root, p)
    else Ok(Step(Pass, root))
  }

  method FoldWhile(f: Folder, p: NodePath) returns (r: Result<Stage>)
    requires f.Valid()
    modifies f
    ensures f.Valid()
    ensures Agrees(r, f.root, WhileStep(old(f.root), p))
  {
    var n := p.node;
    if NodeTruthy(n) {
      if TypeName(n) == "DoWhileStatement" {
        var body :- f.ReplaceIfEmpty(Sub(p, "body"), EMPTY);
      } else if TypeName(n) == "WhileStatement" {
        var never :- NeverTrue(Field(n, "test"));
        if never {
          var q :- f.Replace(p, EMPTY);
          return Ok(Fire(Some(q)));
        }
        var body :- f.ReplaceIfEmpty(Sub(p, "body"), EMPTY);
      } else if TypeName(n) == "ForStatement" {
        r := FoldFor(f, p);
        return;
      }
    }
    return Ok(Pass);
  }

  method FoldFor(f: Folder, p: NodePath) returns (r: Result<Stage>)
    requires f.Valid()
    modifies f
    ensures f.Valid()
    ensures Agrees(r, f.root, ForStep(old(f.root), p))
  {
    var n := p.node;
    var body :- f.ReplaceIfEmpty(Sub(p, "body"), EMPTY);
    var clearInit := Droppable(Field(n, "init"));
    var u1 :- Clear(f, p, "init", clearInit);
    var testUpdated :- FoldForTest(f, p, Field(n, "test"));
    var clearUpdate := Droppable(Field(n, "update"));
    var u3 :- Clear(f, p, "update", clearUpdate);
    if clearInit || testUpdated || clearUpdate {
      return Ok(Fire(Some(p)));
    }
    return Ok(Pass);
  }

  method Clear(f: Folder, p: NodePath, name: string, clear: bool) returns (r: Result<()>)
    modifies f`root
    ensures ClearSlot(old(f.root), p, name, clear).Err? ==> r == Err(ClearSlot(old(f.root), p, name, clear).error)
    ensures ClearSlot(old(f.root), p, name, clear).Ok? ==> r.Ok? && f.root == ClearSlot(old(f.root), p, name, clear).value
  {
    if clear {
      var q :- f.Replace(Sub(p, name), Leaf(Null));
    }
    return Ok(());
  }

  /** The test of a `for`: removed when always true, turned into `false` when falsy. */
  method FoldForTest(f: Folder, p: NodePath, test: Node) returns (r: Result<bool>)
    requires f.Valid()
    modifies f
    ensures f.Valid()
    ensures ForTest(test).Err? ==> r == Err(ForTest(test).error)
    ensures ForTest(test).Ok? ==>
      var w := WriteTest(old(f.root), p, ForTest(test).value);
      (w.Err? ==> r == Err(w.error)) && (w.Ok? ==> r == Ok(ForTest(test).value.Some?) && f.root == w.value)
  {
    if NodeTruthy(test) && IsConstExpr(test) {
      var current :- ConstValue(test);
      if Truthy(current) {
        var q :- f.Replace(Sub(p, "test"), Leaf(Null));
        return Ok(true);
      } else if current != Primitive(Bool(false)) {
        var c := f.ToConstExpr(Primitive(Bool(false)));
        var q :- f.Replace(Sub(p, "test"), c.value);
        return Ok(true);
      }
    }
    return Ok(false);
  }

  // ---- what a loop test means ------------------------------------------------------

  /**
   * What a loop test says about whether the loop goes on, as far as it is
   * known without running it: a missing test means always; a constant test
   * means its truthiness; anything else is not known (None).
   */
  function Condition(t: Node): Option<bool> {
    if t == Leaf(Null) || t == Leaf(Undefined) then Some(true)
    else if IsConstExpr(t) && ConstValue(t).Ok? then Some(Truthy(ConstValue(t).value))
    else None
  }

  /**
   * A `while` is dropped exactly when its test is known to be false, and the
   * check throws exactly when the test is constant but has no value.
   */
  lemma NeverTrueMeaning(test: Node)
    ensures NeverTrue(test) == Ok(true) <==> Condition(test) == Some(false)
    ensures NeverTrue(test).Err? <==> IsConstExpr(test) && ConstValue(test).Err?
  {
  }

  /**
   * The rewrite of a `for` test keeps what the test means: the new test is no
   * test or the constant `false`, and a second rewrite changes nothing. A
   * constant test that is left alone is `false` itself; the rewrite throws
   * exactly when a constant test has no value.
   */
  lemma ForTestMeaning(test: Node)
    ensures ForTest(test).Err? <==> Droppable(test) && ConstValue(test).Err?
    ensures ForTest(test).Ok? && ForTest(test).value.Some? ==>
      var t := ForTest(test).value.value;
      Condition(t) == Condition(test)
      && (t == Leaf(Null) || ConstValue(t) == Ok(Primitive(Bool(false))))
      && ForTest(t) == Ok(None)
    ensures ForTest(test) == Ok(None) && Droppable(test) ==> ConstValue(test) == Ok(Primitive(Bool(false)))
  {
    ConstLemmas.InternedValue(Bool(false));
    var f := Interned(Bool(false));
    assert f.Obj? && IsConstExpr(f);
    assert test.Obj? ==> test != Leaf(Null) && test != Leaf(Undefined);
  }

  // ---- the `for` loop left behind ---------------------------------------------------

  /** `REPLACE(path.get([name]), null)` when `clear` holds, on the record at `p`. */
  lemma ClearThrough(root: Node, t: Node, p: NodePath, m: Node, name: string, clear: bool)
    requires WrittenAt(t, root, Address(p), m)
    ensures var m' := if clear then Put(m, Name(name), Leaf(Null)) else m;
      ClearSlot(t, p, name, clear) == Ok(SetAt(root, Address(p), m')) && WrittenAt(SetAt(root, Address(p), m'), root, Address(p), m')
  {
    if clear {
      WriteThrough(root, t, p, m, name, Leaf(Null));
    }
  }

  /** The rewrite of the test on the record at `p`. */
  lemma TestThrough(root: Node, t: Node, p: NodePath, m: Node, newTest: Option<Node>)
    requires WrittenAt(t, root, Address(p), m)
    ensures var m' := if newTest.Some? then Put(m, Name("test"), newTest.value) else m;
      WriteTest(t, p, newTest) == Ok(SetAt(root, Address(p), m')) && WrittenAt(SetAt(root, Address(p), m'), root, Address(p), m')
  {
    if newTest.Some? {
      WriteThrough(root, t, p, m, "test", newTest.value);
    }
  }

  /** The `for` loop the rewrites leave, given which of them are made. */
  function ForNode(n: Node, emptyBody: bool, clearInit: bool, newTest: Option<Node>, clearUpdate: bool): Node {
    var m0 := if emptyBody then Put(n, Name("body"), EMPTY) else n;
    var m1 := if clearInit then Put(m0, Name("init"), Leaf(Null)) else m0;
    var m2 := if newTest.Some? then Put(m1, Name("test"), newTest.value) else m1;
    if clearUpdate then Put(m2, Name("update"), Leaf(Null)) else m2
  }

  /** The rewrites FOLD_WHILE makes of the `for` loop `n`. */
  function ForRewrite(n: Node): Node {
    var newTest := if ForTest(Field(n, "test")).Ok? then ForTest(Field(n, "test")).value else None;
    ForNode(n, EmptyCheck(Field(n, "body")) == Ok(true), Droppable(Field(n, "init")), newTest, Droppable(Field(n, "update")))
  }

  /**
   * On a live `for`, the four rewrites through the live tree amount to one
   * write of the rewritten loop at the loop's address; they throw only where
   * IS_EMPTY of the body or CONSTVALUE of the test does.
   */
  lemma ForTree(root: Node, a: seq<Key>, p: NodePath)
    requires p == PathTo(root, a) && p.node.Obj?
    ensures ForStep(root, p).Err? <==> EmptyCheck(Field(p.node, "body")).Err? || ForTest(Field(p.node, "test")).Err?
    ensures ForStep(root, p).Ok? ==>
      ForStep(root, p).value.root == SetAt(root, a, ForRewrite(p.node))
      && At(ForStep(root, p).value.root, a) == ForRewrite(p.node)
      && (ForStep(root, p).value.stage.Fire? <==>
            Droppable(Field(p.node, "init")) || ForTest(Field(p.node, "test")).value.Some? || Droppable(Field(p.node, "update")))
  {
    PathToAt(root, a);
    var n := p.node;
    SetAtOwn(root, a);
    assert WrittenAt(root, root, a, n);
    var e := EmptyCheck(Field(n, "body"));
    if e.Ok? {
      var m0 := if e == Ok(true) then Put(n, Name("body"), EMPTY) else n;
      if e == Ok(true) {
        WriteThrough(root, root, p, n, "body", EMPTY);
      }
      var t0 := SetAt(root, a, m0);
      assert ReplaceIfEmptyTree(root, Sub(p, "body"), EMPTY) == Ok(t0);
      ForRestTree(root, t0, a, p, e.value);
    }
  }

  /** The rewrites after the body's, on the record written at the loop's address. */
  lemma ForRestTree(root: Node, t0: Node, a: seq<Key>, p: NodePath, emptyBody: bool)
    requires Address(p) == a && p.node.Obj?
    requires WrittenAt(t0, root, a, if emptyBody then Put(p.node, Name("body"), EMPTY) else p.node)
    ensures ForRest(t0, p).Err? <==> ForTest(Field(p.node, "test")).Err?
    ensures var n := p.node;
      ForRest(t0, p).Ok? ==>
      ForRest(t0, p).value.root == SetAt(root, a, ForNode(n, emptyBody, Droppable(Field(n, "init")), ForTest(Field(n, "test")).value, Droppable(Field(n, "update"))))
      && At(ForRest(t0, p).value.root, a) == ForNode(n, emptyBody, Droppable(Field(n, "init")), ForTest(Field(n, "test")).value, Droppable(Field(n, "update")))
      && (ForRest(t0, p).value.stage.Fire? <==>
            Droppable(Field(n, "init")) || ForTest(Field(n, "test")).value.Some? || Droppable(Field(n, "update")))
  {
    var n := p.node;
    var m0 := if emptyBody then Put(n, Name("body"), EMPTY) else n;
    ClearThrough(root, t0, p, m0, "init", Droppable(Field(n, "init")));
    var m1 := if Droppable(Field(n, "init")) then Put(m0, Name("init"), Leaf(Null)) else m0;
    var nt := ForTest(Field(n, "test"));
    if nt.Ok? {
      TestThrough(root, SetAt(root, a, m1), p, m1, nt.value);
      var m2 := if nt.value.Some? then Put(m1, Name("test"), nt.value.value) else m1;
      ClearThrough(root, SetAt(root, a, m2), p, m2, "update", Droppable(Field(n, "update")));
    }
  }

  /** A part of a `for` loop the fold may rewrite. */
  predicate LoopPart(k: string) {
    k == "body" || k == "init" || k == "test" || k == "update"
  }

  /**
   * The rewritten loop is the loop with an empty body replaced by EMPTY, a
   * constant `init` and `update` cleared to null and the test rewritten; it
   * has the same fields and markers, and every other field is as it was.
   */
  lemma ForFields(n: Node, emptyBody: bool, clearInit: bool, newTest: Option<Node>, clearUpdate: bool)
    requires n.Obj?
    requires (emptyBody ==> "body" in n.fields) && (clearInit ==> "init" in n.fields)
    requires (newTest.Some? ==> "test" in n.fields) && (clearUpdate ==> "update" in n.fields)
    ensures var m := ForNode(n, emptyBody, clearInit, newTest, clearUpdate);
      m.Obj? && m.marks == n.marks && m.fields.Keys == n.fields.Keys
      && (forall k :: k in n.fields && !LoopPart(k) ==> m.fields[k] == n.fields[k])
      && Field(m, "body") == (if emptyBody then EMPTY else Field(n, "body"))
      && Field(m, "init") == (if clearInit then Leaf(Null) else Field(n, "init"))
      && Field(m, "test") == (if newTest.Some? then newTest.value else Field(n, "test"))
      && Field(m, "update") == (if clearUpdate then Leaf(Null) else Field(n, "update"))
  {
  }

  /**
   * FOLD_WHILE on a live `for`: the loop left at its address is the loop with
   * its empty body replaced by EMPTY, constant `init` and `update` cleared, and
   * its test rewritten as ForTest says; its other fields are kept, nothing
   * outside it changes, and the path comes back exactly when `init`, `test`
   * or `update` was rewritten.
   */
  lemma ForResult(root: Node, a: seq<Key>, p: NodePath, b: seq<Key>)
    requires p == PathTo(root, a) && TypeName(p.node) == "ForStatement"
    requires WhileStep(root, p).Ok?
    ensures var n, s := p.node, WhileStep(root, p).value;
      var m, newTest := At(s.root, a), ForTest(Field(n, "test")).value;
      m.Obj? && m.marks == n.marks && m.fields.Keys == n.fields.Keys
      && (forall k :: k in n.fields && !LoopPart(k) ==> m.fields[k] == n.fields[k])
      && Field(m, "body") == (if IsEmpty(Field(n, "body")) then EMPTY else Field(n, "body"))
      && Field(m, "init") == (if Droppable(Field(n, "init")) then Leaf(Null) else Field(n, "init"))
      && Field(m, "test") == (if newTest.Some? then newTest.value else Field(n, "test"))
      && Field(m, "update") == (if Droppable(Field(n, "update")) then Leaf(Null) else Field(n, "update"))
      && (s.stage.Fire? <==> Droppable(Field(n, "init")) || newTest.Some? || Droppable(Field(n, "update")))
      && (Diverge(a, b) ==> At(s.root, b) == At(root, b))
  {
    PathToAt(root, a);
    var n := p.node;
    WhileIsFor(root, p);
    ForTree(root, a, p);
    var emptyBody := EmptyCheck(Field(n, "body")) == Ok(true);
    assert emptyBody ==> Field(n, "body") != Leaf(Undefined);
    ForFields(n, emptyBody, Droppable(Field(n, "init")), ForTest(Field(n, "test")).value, Droppable(Field(n, "update")));
    if Diverge(a, b) {
      SetAtDiverge(root, a, b, ForRewrite(n));
    }
  }

  /** A body IS_EMPTY accepts becomes EMPTY, which IS_EMPTY accepts again; any other body stays. */
  lemma BodyFixed(body: Node)
    requires EmptyCheck(body).Ok?
    ensures var b := if EmptyCheck(body) == Ok(true) then EMPTY else body;
      EmptyCheck(b).Ok? && (EmptyCheck(b) == Ok(true) <==> b == EMPTY || EmptyCheck(body) == Ok(true)) && (EmptyCheck(b) == Ok(true) ==> b == EMPTY || b == body)
  {
    assert TypeName(EMPTY) == "EmptyStatement";
  }

  /** The parts of the rewritten loop need no further rewrite. */
  lemma RewrittenParts(n: Node)
    requires n.Obj? && EmptyCheck(Field(n, "body")).Ok? && ForTest(Field(n, "test")).Ok?
    ensures var m := ForRewrite(n);
      m.Obj? && TypeName(m) == TypeName(n) && EmptyCheck(Field(m, "body")).Ok?
      && (EmptyCheck(Field(m, "body")) == Ok(true) ==> Field(m, "body") == EMPTY)
      && !Droppable(Field(m, "init")) && !Droppable(Field(m, "update")) && ForTest(Field(m, "test")) == Ok(None)
  {
    var emptyBody := EmptyCheck(Field(n, "body")) == Ok(true);
    assert emptyBody ==> Field(n, "body") != Leaf(Undefined);
    ForFields(n, emptyBody, Droppable(Field(n, "init")), ForTest(Field(n, "test")).value, Droppable(Field(n, "update")));
    ForTestMeaning(Field(n, "test"));
    BodyFixed(Field(n, "body"));
    var m := ForRewrite(n);
    assert Field(m, "type") == Field(n, "type") by { assert !LoopPart("type"); }
  }

  /** The rewritten loop is a fixed point of the rewrites. */
  lemma ForRewriteFixed(n: Node)
    requires n.Obj? && EmptyCheck(Field(n, "body")).Ok? && ForTest(Field(n, "test")).Ok?
    ensures ForRewrite(ForRewrite(n)) == ForRewrite(n)
  {
    RewrittenParts(n);
    NoRewrite(ForRewrite(n));
  }

  /** A second visit of FOLD_WHILE to the `for` it left lets the path through and changes nothing. */
  lemma ForIdempotent(root: Node, a: seq<Key>, p: NodePath)
    requires p == PathTo(root, a) && TypeName(p.node) == "ForStatement"
    requires WhileStep(root, p).Ok?
    ensures var t := WhileStep(root, p).value.root;
      WhileStep(t, PathTo(t, a)) == Ok(Step(Pass, t))
  {
    PathToAt(root, a);
    var n := p.node;
    WhileIsFor(root, p);
    ForTree(root, a, p);
    var t := WhileStep(root, p).value.root;
    PathToAt(t, a);
    RewrittenParts(n);
    ForRewriteFixed(n);
    FixedStep(t, a, PathTo(t, a));
    WhileIsFor(t, PathTo(t, a));
  }

  /** On a `for`, FOLD_WHILE is the `for` rewrite. */
  lemma WhileIsFor(t: Node, q: NodePath)
    requires TypeName(q.node) == "ForStatement"
    ensures WhileStep(t, q) == ForStep(t, q)
  {
  }

  /** FOLD_WHILE at a live `for` that needs no rewrite lets the path through and changes nothing. */
  lemma FixedStep(t: Node, a: seq<Key>, q: NodePath)
    requires q == PathTo(t, a) && q.node.Obj? && TypeName(q.node) == "ForStatement"
    requires EmptyCheck(Field(q.node, "body")).Ok? && (EmptyCheck(Field(q.node, "body")) == Ok(true) ==> Field(q.node, "body") == EMPTY)
    requires !Droppable(Field(q.node, "init")) && !Droppable(Field(q.node, "update")) && ForTest(Field(q.node, "test")) == Ok(None)
    ensures ForStep(t, q) == Ok(Step(Pass, t))
  {
    PathToAt(t, a);
    NoRewrite(q.node);
    ForTree(t, a, q);
    SetAtOwn(t, a);
    var s := ForStep(t, q);
    assert s.Ok? && s.value.root == t;
    assert s.value.stage == Pass;
  }

  /** A loop whose parts need no rewrite is its own rewrite. */
  lemma NoRewrite(m: Node)
    requires m.Obj?
    requires EmptyCheck(Field(m, "body")).Ok? && (EmptyCheck(Field(m, "body")) == Ok(true) ==> Field(m, "body") == EMPTY)
    requires !Droppable(Field(m, "init")) && !Droppable(Field(m, "update")) && ForTest(Field(m, "test")) == Ok(None)
    ensures ForRewrite(m) == m
  {
    var eb := EmptyCheck(Field(m, "body")) == Ok(true);
    assert ForRewrite(m) == ForNode(m, eb, false, None, false);
    if eb {
      assert Put(m, Name("body"), EMPTY) == m;
    }
  }

  // ---- `while` and `do`-`while` ----------------------------------------------------

  /** The loop with an empty body replaced by EMPTY. */
  function BodyRewrite(n: Node): Node {
    if EmptyCheck(Field(n, "body")) == Ok(true) then Put(n, Name("body"), EMPTY) else n
  }

  /**
   * REPLACE_IF_EMPTY of the body of a live loop throws only where IS_EMPTY
   * does, and otherwise writes the loop with its empty body replaced at the
   * loop's address.
   */
  lemma BodyTree(root: Node, a: seq<Key>, p: NodePath)
    requires p == PathTo(root, a) && p.node.Obj?
    ensures BodyStep(root, p).Err? <==> EmptyCheck(Field(p.node, "body")).Err?
    ensures BodyStep(root, p).Ok? ==>
      BodyStep(root, p).value == Step(Pass, SetAt(root, a, BodyRewrite(p.node)))
      && At(BodyStep(root, p).value.root, a) == BodyRewrite(p.node)
  {
    PathToAt(root, a);
    var n := p.node;
    SetAtOwn(root, a);
    if EmptyCheck(Field(n, "body")) == Ok(true) {
      WriteThrough(root, root, p, n, "body", EMPTY);
    }
  }

  /**
   * FOLD_WHILE on a live `while` or `do`-`while`: a `while` whose test is
   * known to be false is replaced by EMPTY; any other loop has its empty body
   * replaced by EMPTY, keeps everything else and lets the path through.
   * Nothing outside the loop changes.
   */
  lemma WhileResult(root: Node, a: seq<Key>, p: NodePath, b: seq<Key>)
    requires p == PathTo(root, a)
    requires TypeName(p.node) == "WhileStatement" || TypeName(p.node) == "DoWhileStatement"
    requires WhileStep(root, p).Ok?
    ensures var n, s := p.node, WhileStep(root, p).value;
      if TypeName(n) == "WhileStatement" && Condition(Field(n, "test")) == Some(false) then
        s.stage == Fire(Some(Replacement(p, EMPTY))) && At(s.root, a) == EMPTY
      else
        s.stage == Pass && At(s.root, a) == BodyRewrite(n)
        && Field(BodyRewrite(n), "body") == (if IsEmpty(Field(n, "body")) then EMPTY else Field(n, "body"))
        && (forall k :: k in n.fields && k != "body" ==> BodyRewrite(n).fields[k] == n.fields[k])
    ensures Diverge(a, b) ==> At(WhileStep(root, p).value.root, b) == At(root, b)
  {
    PathToAt(root, a);
    var n := p.node;
    NeverTrueMeaning(Field(n, "test"));
    if TypeName(n) == "WhileStatement" && Condition(Field(n, "test")) == Some(false) {
      ReplaceLands(root, a, p, EMPTY, b);
    } else {
      BodyTree(root, a, p);
      if Diverge(a, b) {
        SetAtDiverge(root, a, b, BodyRewrite(n));
      }
    }
  }

  /**
   * A second visit of FOLD_WHILE to what it left of a `while` or `do`-`while`
   * lets the path through and changes nothing.
   */
  lemma WhileIdempotent(root: Node, a: seq<Key>, p: NodePath)
    requires p == PathTo(root, a)
    requires TypeName(p.node) == "WhileStatement" || TypeName(p.node) == "DoWhileStatement"
    requires WhileStep(root, p).Ok?
    ensures var t := WhileStep(root, p).value.root;
      WhileStep(t, PathTo(t, a)) == Ok(Step(Pass, t))
  {
    PathToAt(root, a);
    if TypeName(p.node) == "WhileStatement" && NeverTrue(Field(p.node, "test")) == Ok(true) {
      assert WhileStep(root, p) == Replaced(root, p, EMPTY);
      RemovedIdempotent(root, a, p);
    } else {
      KeepsRunning(root, p);
      WhileIsBody(root, p);
      BodyIdempotent(root, a, p, WhileStep(root, p).value);
    }
  }

  /** A loop FOLD_WHILE does not drop, when the fold does not throw, has a test not known to be false. */
  lemma KeepsRunning(root: Node, p: NodePath)
    requires TypeName(p.node) == "WhileStatement" || TypeName(p.node) == "DoWhileStatement"
    requires !(TypeName(p.node) == "WhileStatement" && NeverTrue(Field(p.node, "test")) == Ok(true))
    requires WhileStep(root, p).Ok?
    ensures p.node.Obj? && (TypeName(p.node) == "WhileStatement" ==> NeverTrue(Field(p.node, "test")) == Ok(false))
  {
  }

  /** What is left of a removed loop is let through. */
  lemma RemovedIdempotent(root: Node, a: seq<Key>, p: NodePath)
    requires p == PathTo(root, a) && p.node != Leaf(Undefined) && Replaced(root, p, EMPTY).Ok?
    ensures var t := Replaced(root, p, EMPTY).value.root;
      WhileStep(t, PathTo(t, a)) == Ok(Step(Pass, t))
  {
    PathToAt(root, a);
    var t := Replaced(root, p, EMPTY).value.root;
    ReplaceLands(root, a, p, EMPTY, a);
    PathToAt(t, a);
    RemovedPasses(t, PathTo(t, a));
  }

  /** A second body rewrite of a loop that keeps running changes nothing. */
  lemma BodyIdempotent(root: Node, a: seq<Key>, p: NodePath, s: Step)
    requires p == PathTo(root, a) && p.node.Obj?
    requires TypeName(p.node) == "DoWhileStatement" || (TypeName(p.node) == "WhileStatement" && NeverTrue(Field(p.node, "test")) == Ok(false))
    requires BodyStep(root, p) == Ok(s)
    ensures WhileStep(s.root, PathTo(s.root, a)) == Ok(Step(Pass, s.root))
  {
    PathToAt(root, a);
    var n := p.node;
    BodyTree(root, a, p);
    PathToAt(s.root, a);
    BodyFixed(Field(n, "body"));
    BodyFixedStep(s.root, a, PathTo(s.root, a));
    WhileOnRewrite(s.root, PathTo(s.root, a), n);
  }

  /** The body rewrite keeps a loop's type and test, so FOLD_WHILE on it is again the body rewrite. */
  lemma WhileOnRewrite(t: Node, q: NodePath, n: Node)
    requires n.Obj? && q.node == BodyRewrite(n)
    requires TypeName(n) == "DoWhileStatement" || (TypeName(n) == "WhileStatement" && NeverTrue(Field(n, "test")) == Ok(false))
    ensures WhileStep(t, q) == BodyStep(t, q)
  {
    var m := BodyRewrite(n);
    assert Field(m, "type") == Field(n, "type") && Field(m, "test") == Field(n, "test");
    WhileIsBody(t, q);
  }

  /** FOLD_WHILE lets an empty statement through. */
  lemma RemovedPasses(t: Node, q: NodePath)
    requires q.node == EMPTY
    ensures WhileStep(t, q) == Ok(Step(Pass, t))
  {
    assert TypeName(EMPTY) == "EmptyStatement";
  }

  /** A live loop whose body needs no rewrite is left as it is by the body rewrite. */
  lemma BodyFixedStep(t: Node, a: seq<Key>, q: NodePath)
    requires q == PathTo(t, a) && q.node.Obj?
    requires EmptyCheck(Field(q.node, "body")).Ok? && (EmptyCheck(Field(q.node, "body")) == Ok(true) ==> Field(q.node, "body") == EMPTY)
    ensures BodyStep(t, q) == Ok(Step(Pass, t))
  {
    PathToAt(t, a);
    BodyNoRewrite(q.node);
    BodyTree(t, a, q);
    SetAtOwn(t, a);
    var s := BodyStep(t, q);
    assert s.Ok? && s.value.root == t && s.value.stage == Pass;
  }

  /** A loop whose body is not empty or already EMPTY is its own body rewrite. */
  lemma BodyNoRewrite(m: Node)
    requires m.Obj?
    requires EmptyCheck(Field(m, "body")).Ok? && (EmptyCheck(Field(m, "body")) == Ok(true) ==> Field(m, "body") == EMPTY)
    ensures BodyRewrite(m) == m
  {
    if EmptyCheck(Field(m, "body")) == Ok(true) {
      assert Put(m, Name("body"), EMPTY) == m;
    }
  }

  /** On a loop that keeps running, FOLD_WHILE is the body rewrite. */
  lemma WhileIsBody(t: Node, q: NodePath)
    requires q.node.Obj?
    requires TypeName(q.node) == "DoWhileStatement" || (TypeName(q.node) == "WhileStatement" && NeverTrue(Field(q.node, "test")) == Ok(false))
    ensures WhileStep(t, q) == BodyStep(t, q)
  {
  }
}
