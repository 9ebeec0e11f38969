/**
 * The two folds of the first pass that splice arrays in place:
 * FOLD_SEQUENCE drops the constant operands of a comma expression but its
 * last, and FOLD_UNREACHABLE cuts the statements that follow a jump.
 */
module FoldLists {
  import opened Values
  import opened Tree
  import opened ConstModel
  import opened NodePaths
  import opened Edits
  import opened Semantics
  import ConstLemmas

  // ---- FOLD_SEQUENCE ------------------------------------------------------------

  /** The elements of `es` that are not constant, in order. */
  function NonConstant(es: seq<Node>): seq<Node>
    decreases |es|
  {
    if es == [] then []
    else NonConstant(es[..|es| - 1]) + (if IsConstExpr(es[|es| - 1]) then [] else [es[|es| - 1]])
  }

  /** The operands a sequence keeps: its non-constant operands and, always, its last one. */
  function Stripped(es: seq<Node>): seq<Node> {
    if es == [] then [] else NonConstant(es[..|es| - 1]) + [es[|es| - 1]]
  }

  /**
   * The operands are stripped in place; a single remaining operand then
   * replaces the sequence. A missing operand list throws.
   */
  function SequenceStep(root: Node, p: NodePath): Result<Step> {
    var n := p.node;
    var xs := Field(n, "expressions");
    if TypeName(n) != "SequenceExpression" then Ok(Step(Pass, root))
    else if xs == Leaf(Undefined) || xs == Leaf(Null) then Err(TypeError)
    else if !xs.Arr? then Ok(Step(Pass, root))
    else
      var es := Stripped(xs.elems);
      var t := SetAt(root, Address(p) + [Name("expressions")], Arr(es));
      if |es| == 1 then Replaced(t, p, es[0]) else Ok(Step(Pass, t))
  }

  method FoldSequence(f: Folder, p: NodePath) returns (r: Result<Stage>)
    modifies f`root
    ensures Agrees(r, f.root, SequenceStep(old(f.root), p))
  {
    var n := p.node;
    if TypeName(n) != "SequenceExpression" {
      return Ok(Pass);
    }
    var xs := Field(n, "expressions");
    if xs == Leaf(Undefined) || xs == Leaf(Null) {
      return Err(TypeError);
    }
    if !xs.Arr? {
      return Ok(Pass);
    }
    var es := StripOperands(xs.elems);
    f.root := SetAt(f.root, Address(p) + [Name("expressions")], Arr(es));
    if |es| == 1 {
      var q :- f.Replace(p, es[0]);
      return Ok(Fire(Some(q)));
    }
    return Ok(Pass);
  }

  /**
   * The loop of FOLD_SEQUENCE: walking up to the last operand, a constant
   * operand is spliced out (and the index stays), any other is stepped over.
   */
  method StripOperands(xs: seq<Node>) returns (es: seq<Node>)
    ensures es == Stripped(xs)
  {
    es := xs;
    var i := 0;
    ghost var j := 0;
    while i < |es| - 1
      invariant j <= |xs| && (xs != [] ==> j < |xs|)
      invariant es == NonConstant(xs[..j]) + xs[j..]
      invariant i == |NonConstant(xs[..j])|
      decreases |es| - i
    {
      var c := IsConstExpr(es[i]);
      StripTurn(xs, j, es, c);
      if c {
        es := Splice1(es, i);
      } else {
        i := i + 1;
      }
      j := j + 1;
    }
    assert xs != [] ==> xs[..|xs| - 1] == xs[..j] && xs[j..] == [xs[|xs| - 1]];
  }

  /** One turn of that loop, on operand `xs[j]`, which sits at index `|NonConstant(xs[..j])|`. */
  lemma StripTurn(xs: seq<Node>, j: nat, es: seq<Node>, c: bool)
    requires j < |xs|
    requires es == NonConstant(xs[..j]) + xs[j..]
    requires c == IsConstExpr(es[|NonConstant(xs[..j])|])
    ensures
      var i := |NonConstant(xs[..j])|;
      i < |es| && es[i] == xs[j]
      && (if c then Splice1(es, i) else es) == NonConstant(xs[..j + 1]) + xs[j + 1..]
      && |NonConstant(xs[..j + 1])| == (if c then i else i + 1)
  {
    NonConstantSnoc(xs, j);
    var kept := NonConstant(xs[..j]);
    var i := |kept|;
    assert es[i] == xs[j] && es[..i] == kept && es[i + 1..] == xs[j + 1..];
    if !IsConstExpr(xs[j]) {
      assert es == (kept + [xs[j]]) + xs[j + 1..];
    }
  }

  lemma NonConstantSnoc(xs: seq<Node>, j: nat)
    requires j < |xs|
    ensures NonConstant(xs[..j + 1]) == NonConstant(xs[..j]) + (if IsConstExpr(xs[j]) then [] else [xs[j]])
  {
    assert xs[..j + 1][..j] == xs[..j];
  }

  /** The operands NonConstant keeps are operands of `es`, and none of them is constant. */
  lemma {:induction false} NonConstantMeaning(es: seq<Node>)
    ensures forall x :: x in NonConstant(es) <==> x in es && !IsConstExpr(x)
    decreases |es|
  {
    if es != [] {
      NonConstantMeaning(es[..|es| - 1]);
      assert es == es[..|es| - 1] + [es[|es| - 1]];
    }
  }

  /** Stripping again changes nothing: only the last operand can still be constant. */
  lemma StrippedIdempotent(es: seq<Node>)
    ensures Stripped(Stripped(es)) == Stripped(es)
  {
    if es != [] {
      var k := NonConstant(es[..|es| - 1]);
      NonConstantMeaning(es[..|es| - 1]);
      NonConstantFixed(k);
      assert (k + [es[|es| - 1]])[..|k|] == k;
    }
  }

  /** A list with no constant left in it is its own non-constant part. */
  lemma {:induction false} NonConstantFixed(es: seq<Node>)
    requires forall x :: x in es ==> !IsConstExpr(x)
    ensures NonConstant(es) == es
    decreases |es|
  {
    if es != [] {
      assert es[|es| - 1] in es;
      NonConstantFixed(es[..|es| - 1]);
    }
  }

  /**
   * Stripping keeps the value of a sequence: when every operand has a value,
   * so does every kept operand, and the last operand is kept.
   */
  lemma StrippedValue(host: Host, es: seq<Node>)
    requires es != [] && forall i :: 0 <= i < |es| ==> Eval(host, es[i]).Some?
    ensures Stripped(es) != [] && Stripped(es)[|Stripped(es)| - 1] == es[|es| - 1]
    ensures forall i :: 0 <= i < |Stripped(es)| ==> Eval(host, Stripped(es)[i]).Some?
  {
    var s := Stripped(es);
    NonConstantMeaning(es[..|es| - 1]);
    var k, pre := NonConstant(es[..|es| - 1]), es[..|es| - 1];
    forall i | 0 <= i < |s|
      ensures Eval(host, s[i]).Some?
    {
      if i < |k| {
        assert s[i] == k[i] && s[i] in pre;
        var j :| 0 <= j < |pre| && pre[j] == s[i];
        assert es[j] == s[i];
      }
    }
  }

  /** What FOLD_SEQUENCE makes of a comma expression `n`: the stripped copy, or its one remaining operand. */
  function SequenceResult(n: Node): Node
    requires Field(n, "expressions").Arr?
  {
    var es := Stripped(Field(n, "expressions").elems);
    if |es| == 1 then es[0] else Put(n, Name("expressions"), Arr(es))
  }

  /**
   * FOLD_SEQUENCE keeps the value of a sequence that has one, in place or by
   * the single operand left, and writes nowhere outside the sequence.
   */
  lemma SequenceKeepsValue(host: Host, root: Node, a: seq<Key>, p: NodePath, b: seq<Key>)
    requires p == PathTo(root, a) && !IsConstExpr(p.node) && Eval(host, p.node).Some?
    requires SequenceStep(root, p).Ok?
    ensures Eval(host, At(SequenceStep(root, p).value.root, a)) == Eval(host, p.node)
    ensures Diverge(a, b) ==> At(SequenceStep(root, p).value.root, b) == At(root, b)
  {
    PathToAt(root, a);
    var n := p.node;
    if TypeName(n) == "SequenceExpression" && Field(n, "expressions").Arr? {
      SequenceTree(root, a, p);
      var x := SequenceResult(n);
      WriteContainer(root, a, x);
      if Diverge(a, b) {
        SetAtDiverge(root, a, b, x);
      }
      SequenceValue(host, n);
    }
  }

  /** Where FOLD_SEQUENCE proceeds on a live path, the tree afterwards holds the result at the path. */
  lemma SequenceTree(root: Node, a: seq<Key>, p: NodePath)
    requires p == PathTo(root, a) && TypeName(p.node) == "SequenceExpression" && Field(p.node, "expressions").Arr?
    requires SequenceStep(root, p).Ok?
    ensures !At(root, a).Leaf?
    ensures SequenceStep(root, p).value.root == SetAt(root, a, SequenceResult(p.node))
  {
    PathToAt(root, a);
    var es := Stripped(Field(p.node, "expressions").elems);
    if |es| == 1 {
      SingleTree(root, a, p, es);
    } else {
      WriteSlot(root, a, Name("expressions"), Arr(es));
    }
  }

  /** A comma expression left with one operand is replaced by it, and the write before the replacement is lost. */
  lemma SingleTree(root: Node, a: seq<Key>, p: NodePath, es: seq<Node>)
    requires p == PathTo(root, a) && TypeName(p.node) == "SequenceExpression" && |es| == 1
    requires Replaced(SetAt(root, a + [Name("expressions")], Arr(es)), p, es[0]).Ok?
    ensures Replaced(SetAt(root, a + [Name("expressions")], Arr(es)), p, es[0]).value.root == SetAt(root, a, es[0])
  {
    PathToAt(root, a);
    assert !p.node.Leaf?;
    WriteSlot(root, a, Name("expressions"), Arr(es));
    ReplaceAfterWrite(root, a, p, Put(p.node, Name("expressions"), Arr(es)), es[0]);
    ReplaceLands(root, a, p, es[0], []);
  }

  /** The result has the value the comma expression had. */
  lemma SequenceValue(host: Host, n: Node)
    requires !IsConstExpr(n) && TypeName(n) == "SequenceExpression" && Field(n, "expressions").Arr?
    requires Eval(host, n).Some?
    ensures Eval(host, SequenceResult(n)) == Eval(host, n)
  {
    var xs := Field(n, "expressions");
    ConstLemmas.PlainConstExpr(n);
    EvalSequenceNode(host, n);
    StrippedValue(host, xs.elems);
    var es := Stripped(xs.elems);
    if |es| != 1 {
      var w := Put(n, Name("expressions"), Arr(es));
      ConstLemmas.PlainConstExpr(w);
      EvalSequenceNode(host, w);
    }
  }

  // ---- FOLD_UNREACHABLE ---------------------------------------------------------

  /** The statements after which nothing in the same list runs. */
  predicate IsJump(t: string) {
    t == "ReturnStatement" || t == "ContinueStatement" || t == "BreakStatement" || t == "ThrowStatement"
  }

  /**
   * `siblings.splice(key + 1, siblings.length - (key + 1))`: everything after
   * the key goes. A null key adds up to 1; a name key makes the count NaN, so
   * nothing is removed.
   */
  function Truncated(es: seq<Node>, key: Option<Key>): (r: seq<Node>)
    ensures |r| <= |es| && r == es[..|r|]
  {
    var next := if key.None? then 1 else if key.value.Index? then key.value.i + 1 else |es|;
    if next < |es| then es[..next] else es
  }

  /** A jump in a statement list cuts the statements after it, then the path goes on. */
  function UnreachableStep(root: Node, p: NodePath): Result<Step> {
    if p.parent.Some? && p.parent.value.node.Arr? && IsJump(TypeName(p.node)) then
      var siblings := p.parent.value.node.elems;
      Ok(Step(Pass, SetAt(root, Address(p.parent.value), Arr(Truncated(siblings, p.key)))))
    else Ok(Step(Pass, root))
  }

  method FoldUnreachable(f: Folder, p: NodePath) returns (r: Result<Stage>)
    modifies f`root
    ensures Agrees(r, f.root, UnreachableStep(old(f.root), p))
  {
    if p.parent.Some? && p.parent.value.node.Arr? && IsJump(TypeName(p.node)) {
      var siblings := p.parent.value.node.elems;
      f.root := SetAt(f.root, Address(p.parent.value), Arr(Truncated(siblings, p.key)));
    }
    return Ok(Pass);
  }

  /**
   * FOLD_UNREACHABLE always passes the path on. On a live path inside a list
   * a statement that is not a jump leaves the tree alone; a jump ends up last
   * in its list: the statements before it and the jump itself stay, the ones
   * after it are gone, and nothing outside the list changes.
   */
  lemma UnreachableCuts(root: Node, a: seq<Key>, p: NodePath, b: seq<Key>)
    requires p == PathTo(root, a) && p.parent.Some? && p.parent.value.node.Arr?
    ensures UnreachableStep(root, p).Ok? && UnreachableStep(root, p).value.stage == Pass
    ensures !IsJump(TypeName(p.node)) ==> UnreachableStep(root, p).value.root == root
    ensures IsJump(TypeName(p.node)) ==>
      p.key.Some? && p.key.value.Index? &&
      var t, pa := UnreachableStep(root, p).value.root, Address(p.parent.value);
      At(t, pa) == Arr(p.parent.value.node.elems[..p.key.value.i + 1])
      && (Diverge(pa, b) ==> At(t, b) == At(root, b))
  {
    if IsJump(TypeName(p.node)) {
      JumpCut(root, a, p, b);
    }
  }

  /** The jump case of UnreachableCuts. */
  lemma JumpCut(root: Node, a: seq<Key>, p: NodePath, b: seq<Key>)
    requires p == PathTo(root, a) && p.parent.Some? && p.parent.value.node.Arr?
    requires IsJump(TypeName(p.node))
    ensures p.key.Some? && p.key.value.Index?
    ensures var t, pa := UnreachableStep(root, p).value.root, Address(p.parent.value);
      At(t, pa) == Arr(p.parent.value.node.elems[..p.key.value.i + 1])
      && (Diverge(pa, b) ==> At(t, b) == At(root, b))
  {
    PathToAt(root, a);
    LiveParent(root, a, p);
    var pa := Address(p.parent.value);
    var siblings := p.parent.value.node.elems;
    assert p.node != Leaf(Undefined) by {
      assert TypeName(Leaf(Undefined)) == "";
    }
    assert HasChild(p.parent.value.node, p.key.value);
    var i := p.key.value.i;
    assert Truncated(siblings, p.key) == siblings[..i + 1];
    WriteContainer(root, pa, Arr(siblings[..i + 1]));
    if Diverge(pa, b) {
      SetAtDiverge(root, pa, b, Arr(siblings[..i + 1]));
    }
  }

  /** After the cut the jump is the last statement, so a second visit cuts nothing. */
  lemma UnreachableIdempotent(root: Node, a: seq<Key>, p: NodePath)
    requires p == PathTo(root, a) && p.parent.Some? && p.parent.value.node.Arr?
    requires IsJump(TypeName(p.node))
    ensures var t := UnreachableStep(root, p).value.root;
      UnreachableStep(t, PathTo(t, a)).value.root == t
  {
    PathToAt(root, a);
    JumpCut(root, a, p, []);
    LiveParent(root, a, p);
    var t := UnreachableStep(root, p).value.root;
    var pa, i := Address(p.parent.value), p.key.value.i;
    var cut := p.parent.value.node.elems[..i + 1];
    assert At(t, pa) == Arr(cut);
    var q := PathTo(t, a);
    RevisitedJump(t, pa, i, cut);
    assert q.parent == Some(PathTo(t, pa)) && q.key == Some(Index(i)) && q.node == cut[i];
    assert cut[i] == p.node;
    SetAtOwn(t, pa);
  }

  /** The path at `pa + [i]` of a tree whose list at `pa` has `i` as its last index. */
  lemma RevisitedJump(t: Node, pa: seq<Key>, i: nat, cut: seq<Node>)
    requires At(t, pa) == Arr(cut) && |cut| == i + 1
    ensures PathTo(t, pa + [Index(i)]).parent == Some(PathTo(t, pa))
    ensures PathTo(t, pa + [Index(i)]).key == Some(Index(i))
    ensures PathTo(t, pa + [Index(i)]).node == cut[i]
    ensures PathTo(t, pa).node == Arr(cut)
    ensures Address(PathTo(t, pa)) == pa
  {
    var a := pa + [Index(i)];
    PathToAt(t, a);
    PathToAt(t, pa);
    assert a[..|a| - 1] == pa;
    AtSnoc(t, pa, Index(i));
  }
}
