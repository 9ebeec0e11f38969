/**
 * The shape predicates of the folder that look at a path's surroundings:
 * empty statements, the directive prologue (IN_PRAGMA_POS / IS_PRAGMA) and
 * the completion-value position (IS_NOT_COMPLETION).
 */
module Shapes {
  import opened Values
  import opened Tree
  import opened ConstModel
  import opened NodePaths

  /** `IS_EMPTY`: an empty block or an empty statement. */
  predicate IsEmpty(n: Node) {
    (TypeName(n) == "BlockStatement" && Field(n, "body").Arr? && |Field(n, "body").elems| == 0)
    || TypeName(n) == "EmptyStatement"
  }

  // ---- directive prologue --------------------------------------------------

  /**
   * One step of the sibling loop: sibling `i` is a directive (an expression
   * statement whose expression is a constant string). Reading a sibling that
   * does not exist, or the fields of undefined or null, throws.
   */
  function DirectiveCheck(sibs: seq<Node>, i: nat): Result<bool> {
    if i >= |sibs| || sibs[i] == Leaf(Undefined) || sibs[i] == Leaf(Null) then Err(TypeError)
    else if TypeName(sibs[i]) != "ExpressionStatement" then Ok(false)
    else
      var e := Field(sibs[i], "expression");
      if !IsConstExpr(e) then Ok(false)
      else match ConstValue(e)
        case Err(err) => Err(err)
        case Ok(v) => Ok(v.Primitive? && v.p.Str?)
  }

  /** The sibling loop over the first `n` siblings, in order, stopping at the first non-directive. */
  function Scan(sibs: seq<Node>, n: nat): Result<bool>
    decreases n
  {
    if n == 0 then Ok(true)
    else match Scan(sibs, n - 1)
      case Ok(true) => DirectiveCheck(sibs, n - 1)
      case other => other
  }

  /**
   * How many siblings the loop looks at: `i < key + extra`. A null key counts
   * as 0; a field name makes the comparison false at once.
   */
  function Bound(key: Option<Key>, extra: nat): nat {
    match key
    case Some(Index(k)) => k + extra
    case Some(Name(_)) => 0
    case None => extra
  }

  /** `IN_PRAGMA_POS` (extra = 0) and `IS_PRAGMA` (extra = 1); true off an array parent. */
  function Pragma(p: NodePath, extra: nat): Result<bool> {
    if p.parent.Some? && p.parent.value.node.Arr? then Scan(p.parent.value.node.elems, Bound(p.key, extra))
    else Ok(true)
  }

  /** The loop shared by IN_PRAGMA_POS and IS_PRAGMA. */
  method ScanSiblings(sibs: seq<Node>, n: nat) returns (r: Result<bool>)
    ensures r == Scan(sibs, n)
  {
    for i := 0 to n
      invariant Scan(sibs, i) == Ok(true)
    {
      var c := DirectiveCheck(sibs, i);
      if c != Ok(true) {
        ScanStops(sibs, i, n);
        return c;
      }
    }
    return Ok(true);
  }

  /** `IN_PRAGMA_POS(path)` */
  method InPragmaPos(p: NodePath) returns (r: Result<bool>)
    ensures r == Pragma(p, 0)
  {
    r := Ok(true);
    if p.parent.Some? && p.parent.value.node.Arr? {
      r := ScanSiblings(p.parent.value.node.elems, Bound(p.key, 0));
    }
  }

  /** `IS_PRAGMA(path)` */
  method IsPragma(p: NodePath) returns (r: Result<bool>)
    ensures r == Pragma(p, 1)
  {
    r := Ok(true);
    if p.parent.Some? && p.parent.value.node.Arr? {
      r := ScanSiblings(p.parent.value.node.elems, Bound(p.key, 1));
    }
  }

  /** Once a check fails, the loop's result is that failure however far it was meant to go. */
  lemma {:induction false} ScanStops(sibs: seq<Node>, i: nat, n: nat)
    requires i < n && Scan(sibs, i) == Ok(true) && DirectiveCheck(sibs, i) != Ok(true)
    ensures Scan(sibs, n) == DirectiveCheck(sibs, i)
    decreases n
  {
    if n > i + 1 {
      ScanStops(sibs, i, n - 1);
    }
  }

  /**
   * The loop succeeds exactly when the first `n` siblings are all directives;
   * otherwise it reports the outcome of the first sibling that is not.
   */
  lemma ScanMeaning(sibs: seq<Node>, n: nat)
    ensures Scan(sibs, n) == Ok(true) <==> forall i :: 0 <= i < n ==> DirectiveCheck(sibs, i) == Ok(true)
    ensures Scan(sibs, n) != Ok(true) ==>
      exists j :: 0 <= j < n && DirectiveCheck(sibs, j) == Scan(sibs, n)
                  && forall i :: 0 <= i < j ==> DirectiveCheck(sibs, i) == Ok(true)
  {
    ScanAll(sibs, n);
    ScanFirst(sibs, n);
  }

  lemma {:induction false} ScanAll(sibs: seq<Node>, n: nat)
    ensures Scan(sibs, n) == Ok(true) <==> forall i :: 0 <= i < n ==> DirectiveCheck(sibs, i) == Ok(true)
    decreases n
  {
    if n > 0 {
      ScanAll(sibs, n - 1);
    }
  }

  lemma {:induction false} ScanFirst(sibs: seq<Node>, n: nat)
    ensures Scan(sibs, n) != Ok(true) ==>
      exists j :: 0 <= j < n && DirectiveCheck(sibs, j) == Scan(sibs, n)
                  && forall i :: 0 <= i < j ==> DirectiveCheck(sibs, i) == Ok(true)
    decreases n
  {
    if n > 0 && Scan(sibs, n) != Ok(true) {
      if Scan(sibs, n - 1) == Ok(true) {
        ScanAll(sibs, n - 1);
        assert DirectiveCheck(sibs, n - 1) == Scan(sibs, n);
      } else {
        ScanFirst(sibs, n - 1);
      }
    }
  }

  /** A statement is a directive exactly when it sits in directive position and is itself a directive. */
  lemma PragmaIsPosAndDirective(p: NodePath)
    requires p.parent.Some? && p.parent.value.node.Arr? && p.key.Some? && p.key.value.Index?
    ensures Pragma(p, 1) == Ok(true) <==>
      Pragma(p, 0) == Ok(true) && DirectiveCheck(p.parent.value.node.elems, p.key.value.i) == Ok(true)
  {
    var sibs, k := p.parent.value.node.elems, p.key.value.i;
    ScanMeaning(sibs, k);
    ScanMeaning(sibs, k + 1);
  }

  /** Off an array (a lone expression, a record field, the root) every position is a directive position. */
  lemma PragmaOffArray(p: NodePath, extra: nat)
    requires !(p.parent.Some? && p.parent.value.node.Arr?)
    ensures Pragma(p, extra) == Ok(true)
  {
  }

  /** At index 0 of an array the sibling loop of IN_PRAGMA_POS looks at no sibling, so the position counts as a directive position. */
  lemma PragmaAtFirst(p: NodePath)
    requires p.key == Some(Index(0))
    ensures Pragma(p, 0) == Ok(true)
  {
  }

  // ---- completion position -----------------------------------------------

  /** `path.key === path.parent.node.length - 1` */
  predicate IsLastKey(key: Option<Key>, len: nat) {
    len >= 1 && key == Some(Index(len - 1))
  }

  /** One round of the outer loop of IS_NOT_COMPLETION, entered with `path = p`. */
  function NotCompletion(p: NodePath): Result<bool>
    decreases p, 0
  {
    match p.parent
    case None => Ok(true)
    case Some(q) =>
      if q.node.Arr? && !IsLastKey(p.key, |q.node.elems|) then Ok(true)
      else Climb(q)
  }

  /** The inner loop (skip array nodes upward) followed by the type tests, with `path = q`. */
  function Climb(q: NodePath): Result<bool>
    decreases q, 1
  {
    if q.node.Arr? then
      if q.parent.None? then Err(TypeError) else Climb(q.parent.value)
    else if q.node == Leaf(Undefined) || q.node == Leaf(Null) then Err(TypeError)
    else if ContainsFunction(TypeName(q.node)) then Ok(true)
    else if TypeName(q.node) == "Program" then Ok(false)
    else NotCompletion(q)
  }

  /** `IS_NOT_COMPLETION(path)` */
  method IsNotCompletion(p0: NodePath) returns (r: Result<bool>)
    ensures r == NotCompletion(p0)
  {
    var p := p0;
    while true
      invariant NotCompletion(p) == NotCompletion(p0)
      decreases Depth(p)
    {
      if p.parent.None? {
        return Ok(true);
      }
      var q := p.parent.value;
      if q.node.Arr? && !IsLastKey(p.key, |q.node.elems|) {
        return Ok(true);
      }
      ghost var d := Depth(p);
      p := q;
      while p.node.Arr?
        invariant Climb(p) == NotCompletion(p0)
        invariant Depth(p) < d
        decreases Depth(p)
      {
        if p.parent.None? {
          return Err(TypeError);
        }
        p := p.parent.value;
      }
      if p.node == Leaf(Undefined) || p.node == Leaf(Null) {
        return Err(TypeError);
      }
      if ContainsFunction(TypeName(p.node)) {
        return Ok(true);
      } else if TypeName(p.node) == "Program" {
        return Ok(false);
      }
    }
  }

  /** A statement followed by another one in its list is never in completion position. */
  lemma NotLastIsNotCompletion(p: NodePath)
    requires p.parent.Some? && p.parent.value.node.Arr? && !IsLastKey(p.key, |p.parent.value.node.elems|)
    ensures NotCompletion(p) == Ok(true)
  {
  }

  /** The `j`-th ancestor of `p` exists and is a Program. */
  predicate ProgramAt(p: NodePath, j: nat) {
    Up(p, j).Some? && TypeName(Up(p, j).value.node) == "Program"
  }

  /** A node the climb of IS_NOT_COMPLETION goes past: an array, or a node with a type that names no function. */
  predicate Passable(n: Node) {
    n.Arr? || (n != Leaf(Undefined) && n != Leaf(Null) && !ContainsFunction(TypeName(n)))
  }

  /** The ancestors `lo..j` of `p` exist and the climb goes past each of them. */
  predicate ClimbsThrough(p: NodePath, lo: nat, j: nat) {
    forall m :: lo <= m <= j ==> Up(p, m).Some? && Passable(Up(p, m).value.node)
  }

  /** If the climb tests the key of `u`, which it does when `tested` or when `u` is not an array, `u` is the last element of an array parent. */
  predicate LastInParent(u: NodePath, tested: bool) {
    (tested || !u.node.Arr?) && u.parent.Some? && u.parent.value.node.Arr? ==>
      IsLastKey(u.key, |u.parent.value.node.elems|)
  }

  /** Every ancestor of `p` below the `j`-th whose key the climb tests is last in its array; `p` itself is tested when `first`. */
  predicate LeavesLast(p: NodePath, j: nat, first: bool) {
    forall m :: 0 <= m < j && Up(p, m).Some? ==> LastInParent(Up(p, m).value, m == 0 && first)
  }

  /**
   * `p` is in completion position: its `j`-th ancestor is a Program, the climb
   * goes past every ancestor up to it, and leaves every array it climbs out of
   * from the array's last index.
   */
  predicate CompletionAt(p: NodePath, j: nat) {
    1 <= j && ProgramAt(p, j) && ClimbsThrough(p, 1, j) && LeavesLast(p, j, true)
  }

  /** The same for the inner climb, entered with `path = q`; the key of an array `q` is not tested. */
  predicate ClimbAt(q: NodePath, j: nat) {
    ProgramAt(q, j) && ClimbsThrough(q, 0, j) && LeavesLast(q, j, false)
  }

  /** IS_NOT_COMPLETION answers false exactly in completion position. */
  lemma CompletionExactly(p: NodePath)
    ensures NotCompletion(p) == Ok(false) <==> exists j: nat :: CompletionAt(p, j)
  {
    if NotCompletion(p) == Ok(false) {
      CompletionReachesProgram(p);
    }
    if exists j: nat :: CompletionAt(p, j) {
      var j: nat :| CompletionAt(p, j);
      ProgramIsCompletion(p, j);
    }
  }

  /** When IS_NOT_COMPLETION answers false, `p` is in completion position. */
  lemma {:induction false} CompletionReachesProgram(p: NodePath)
    requires NotCompletion(p) == Ok(false)
    ensures exists j: nat :: CompletionAt(p, j)
    decreases p, 0
  {
    var q := p.parent.value;
    ClimbReachesProgram(q);
    var j: nat :| ClimbAt(q, j);
    assert Up(p, j + 1) == Up(q, j);
    forall m | 1 <= m <= j + 1
      ensures Up(p, m).Some? && Passable(Up(p, m).value.node)
    {
      assert Up(p, m) == Up(q, m - 1);
    }
    forall m | 0 <= m < j + 1 && Up(p, m).Some?
      ensures LastInParent(Up(p, m).value, m == 0)
    {
      if m > 0 {
        assert Up(p, m) == Up(q, m - 1);
      }
    }
    assert CompletionAt(p, j + 1);
  }

  lemma {:induction false} ClimbReachesProgram(q: NodePath)
    requires Climb(q) == Ok(false)
    ensures exists j: nat :: ClimbAt(q, j)
    decreases q, 1
  {
    if q.node.Arr? {
      var u := q.parent.value;
      ClimbReachesProgram(u);
      var j: nat :| ClimbAt(u, j);
      assert Up(q, j + 1) == Up(u, j);
      forall m | 0 <= m <= j + 1
        ensures Up(q, m).Some? && Passable(Up(q, m).value.node)
      {
        if m > 0 {
          assert Up(q, m) == Up(u, m - 1);
        }
      }
      forall m | 0 <= m < j + 1 && Up(q, m).Some?
        ensures LastInParent(Up(q, m).value, false)
      {
        if m > 0 {
          assert Up(q, m) == Up(u, m - 1);
        }
      }
      assert ClimbAt(q, j + 1);
    } else if TypeName(q.node) == "Program" {
      assert ClimbAt(q, 0);
    } else {
      CompletionReachesProgram(q);
      var j: nat :| CompletionAt(q, j);
      assert Up(q, 0) == Some(q);
      assert ClimbAt(q, j);
    }
  }

  /** In completion position IS_NOT_COMPLETION answers false. */
  lemma {:induction false} ProgramIsCompletion(p: NodePath, j: nat)
    requires CompletionAt(p, j)
    ensures NotCompletion(p) == Ok(false)
    decreases p, 0
  {
    assert Up(p, 0) == Some(p);
    var q := p.parent.value;
    assert LastInParent(p, true);
    forall m | 0 <= m <= j - 1
      ensures Up(q, m).Some? && Passable(Up(q, m).value.node)
    {
      assert Up(p, m + 1) == Up(q, m);
    }
    forall m | 0 <= m < j - 1 && Up(q, m).Some?
      ensures LastInParent(Up(q, m).value, false)
    {
      assert Up(p, m + 1) == Up(q, m);
    }
    assert Up(p, j) == Up(q, j - 1);
    ClimbIsCompletion(q, j - 1);
  }

  lemma {:induction false} ClimbIsCompletion(q: NodePath, j: nat)
    requires ClimbAt(q, j)
    ensures Climb(q) == Ok(false)
    decreases q, 1
  {
    assert Up(q, 0) == Some(q);
    if q.node.Arr? {
      assert TypeName(q.node) == "";
      var u := q.parent.value;
      forall m | 0 <= m <= j - 1
        ensures Up(u, m).Some? && Passable(Up(u, m).value.node)
      {
        assert Up(q, m + 1) == Up(u, m);
      }
      forall m | 0 <= m < j - 1 && Up(u, m).Some?
        ensures LastInParent(Up(u, m).value, false)
      {
        assert Up(q, m + 1) == Up(u, m);
      }
      assert Up(q, j) == Up(u, j - 1);
      ClimbIsCompletion(u, j - 1);
    } else if TypeName(q.node) != "Program" {
      forall m | 0 <= m < j && Up(q, m).Some?
        ensures LastInParent(Up(q, m).value, m == 0)
      {
      }
      ProgramIsCompletion(q, j);
    }
  }

  /** The last statement of a list held by a Program is in completion position. */
  lemma LastUnderProgram(p: NodePath)
    requires p.parent.Some? && p.parent.value.node.Arr? && IsLastKey(p.key, |p.parent.value.node.elems|)
    requires p.parent.value.parent.Some? && TypeName(p.parent.value.parent.value.node) == "Program"
    ensures NotCompletion(p) == Ok(false)
  {
    var q := p.parent.value;
    assert !ContainsFunction("Program");
    assert Climb(q.parent.value) == Ok(false);
    assert Climb(q) == Climb(q.parent.value);
  }

  /** The last statement of a program body is in completion position. */
  lemma LastOfProgramIsCompletion(root: Node)
    requires TypeName(root) == "Program" && Field(root, "body").Arr? && |Field(root, "body").elems| > 0
    ensures NotCompletion(PathTo(root, [Name("body"), Index(|Field(root, "body").elems| - 1)])) == Ok(false)
  {
    var body := Field(root, "body");
    var a := [Name("body"), Index(|body.elems| - 1)];
    PathToAt(root, a);
    PathToAt(root, a[..1]);
    assert a[..1] == [Name("body")] && [Name("body")][..0] == [];
    LastUnderProgram(PathTo(root, a));
  }
}
