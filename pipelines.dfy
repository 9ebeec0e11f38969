/**
 * The three walks of the constant folder: expressions, then statements, then
 * the minifier. Each is `pipe(DEPTH_FIRST, <never arrays>, ...stages)` walked
 * from the root path, with every item the walk yields thrown away.
 */
module Pipelines {
  import opened Values
  import opened Tree
  import opened NodePaths
  import opened Edits
  import opened Walk
  import opened Engine
  import opened PostOrders
  import opened Traversal
  import opened Rules
  import opened Runner

  /** `WalkCombinator.DEPTH_FIRST` as a combinator. */
  const DEPTH_FIRST: Visitor := Object(Function(DepthFirst), Function(Passthrough))

  /** The folder's "We never work on Arrays" combinator: only `inputs`. */
  const NEVER_ARRAYS: Visitor := Object(Function(NeverArrays), NotFunction)

  /** `{ inputs: RULE }` */
  function Folding(r: RuleName): Visitor {
    Object(Function(Rule(r)), NotFunction)
  }

  /** The stages of the first walk, the ones that can affect completion values. */
  const EXPRESSION_RULES: seq<RuleName> :=
    [FoldUnreachable, FoldExprStmt, FoldConditional, FoldLogical, FoldBinary, FoldUnary, FoldSequence, FoldMember]

  /** The stages of the second walk. */
  const STATEMENT_RULES: seq<RuleName> := [FoldEmpty, FoldIf, FoldWhile]

  /** The stage of the third walk. */
  const MINIFY_RULES: seq<RuleName> := [MinValues]

  /** The combinators handed to `pipe` for a walk with the given stages. */
  function Combinators(rules: seq<RuleName>): (cs: seq<Visitor>)
    ensures |cs| == |rules| + 2
    ensures forall i :: 0 <= i < |cs| ==> !cs[i].Nullish?
  {
    [DEPTH_FIRST, NEVER_ARRAYS] + seq(|rules|, i requires 0 <= i < |rules| => Folding(rules[i]))
  }

  /**
   * The chain such a walk runs: the empty walker's pass-through, DEPTH_FIRST,
   * the array guard and the stages in order, then one pass-through per
   * output of every combinator and of the empty walker.
   */
  function Stages(rules: seq<RuleName>): (s: seq<Gen>)
    ensures |s| == 2 * |rules| + 6
  {
    [Passthrough, DepthFirst, NeverArrays] + seq(|rules|, i requires 0 <= i < |rules| => Rule(rules[i]))
      + seq(|rules| + 3, _ => Passthrough)
  }

  /** What `pipe` builds from the combinators is that chain. */
  lemma PipedStages(rules: seq<RuleName>)
    ensures
      var cs := Combinators(rules);
      Chain(Walker([Passthrough] + InputsOf(cs), OutputsOf(cs) + [Passthrough])) == Stages(rules)
  {
    var cs := Combinators(rules);
    var c := Chain(Walker([Passthrough] + InputsOf(cs), OutputsOf(cs) + [Passthrough]));
    var s := Stages(rules);
    assert |c| == |s|;
    forall k | 0 <= k < |c|
      ensures c[k] == s[k]
    {
      if k == 0 {
      } else if k <= |cs| {
        assert c[k] == InputsOf(cs)[k - 1] == ToIter(Destructure(cs[k - 1]).value.0);
        if 3 <= k {
          assert cs[k - 1] == Folding(rules[k - 3]);
        }
      } else if k < 2 * |cs| + 1 {
        var i := k - 1 - |cs|;
        assert c[k] == OutputsOf(cs)[i] == ToIter(Destructure(cs[|cs| - 1 - i]).value.1);
        assert s[k] == Passthrough;
      } else {
        assert s[k] == Passthrough;
      }
    }
  }

  /** A walk with the given stages, from the root path of `root`. */
  function WalkOnce(host: Host, rules: seq<RuleName>, root: Node, fuel: nat): Fueled<Run> {
    Feed(Pipeline(FolderStep(host), Stages(rules)), 0, root, [], fuel)
  }

  /** The three walks one after the other; each gets the same fuel. */
  function ConstantFolding(host: Host, root: Node, fuel: nat): Fueled<Node> {
    var e :- WalkOnce(host, EXPRESSION_RULES, root, fuel);
    var s :- WalkOnce(host, STATEMENT_RULES, e.root, fuel);
    var m :- WalkOnce(host, MINIFY_RULES, s.root, fuel);
    Value(m.root)
  }

  /** `WalkCombinator.pipe(...combinators).walk(ROOT)`, read to the end. */
  method WalkPipeline(f: Folder, rules: seq<RuleName>, fuel: nat) returns (r: Fueled<Stage>)
    requires f.Valid()
    modifies f
    ensures f.Valid()
    ensures Matches(r, f.root, WalkOnce(f.host, rules, old(f.root), fuel))
  {
    var walker := Pipe(Combinators(rules));
    PipedStages(rules);
    r := FeedAt(f, Chain(walker.value), 0, [], fuel);
  }

  /** The folder's three walks over its tree; an exception of a stage ends the program. */
  method ConstantFold(f: Folder, fuel: nat) returns (r: Fueled<Node>)
    requires f.Valid()
    modifies f
    ensures f.Valid()
    ensures r == ConstantFolding(f.host, old(f.root), fuel)
    ensures r.Value? ==> f.root == r.value
  {
    var e := WalkPipeline(f, EXPRESSION_RULES, fuel);
    if e.IsFailure() {
      return e.PropagateFailure();
    }
    var s := WalkPipeline(f, STATEMENT_RULES, fuel);
    if s.IsFailure() {
      return s.PropagateFailure();
    }
    var m := WalkPipeline(f, MINIFY_RULES, fuel);
    if m.IsFailure() {
      return m.PropagateFailure();
    }
    return Value(f.root);
  }

  /**
   * A tree on which none of the stages changes anything is walked as it is:
   * the root path first, then every object and array of it, children before
   * their parent, through the array guard and every stage and pass-through.
   */
  lemma SettledWalk(host: Host, rules: seq<RuleName>, root: Node, fuel: nat)
    requires forall r, b :: r in rules ==> Apply(host, r, root, PathTo(root, b)) == Ok(Step(Pass, root))
    ensures
      var t := WalkOnce(host, rules, root, fuel);
      t.OutOfFuel? || t == Value(Run(Pass, root, [Visit(0, []), Visit(1, [])] + Hand(2, |Stages(rules)|, PostOrder(root, []))))
    ensures fuel >= 2 * Cost(root) + |Stages(rules)| + 2 ==>
      WalkOnce(host, rules, root, fuel) == Value(Run(Pass, root, [Visit(0, []), Visit(1, [])] + Hand(2, |Stages(rules)|, PostOrder(root, []))))
  {
    var w := Pipeline(FolderStep(host), Stages(rules));
    forall m | 2 <= m < |w.stages|
      ensures !w.stages[m].DepthFirst?
      ensures w.stages[m].Rule? ==> w.stages[m].rule in rules
    {
      if m < |rules| + 3 && 3 <= m {
        assert w.stages[m] == Rule(rules[m - 3]);
      }
    }
    assert QuietFrom(w, 2, root);
    QuietWalk(w, root, fuel);
  }
}
