/**
 * The folding stages of the constant folder by name: what each does to a path
 * of a tree, and the method that does it to a folder's tree.
 */
module Rules {
  import opened Values
  import opened Tree
  import opened NodePaths
  import opened Edits
  import opened Walk
  import FoldStatements
  import FoldIf
  import FoldLoops
  import FoldLists
  import FoldExpressions
  import FoldMembers
  import Minify

  /** The step function of a folding stage. */
  function Apply(host: Host, r: RuleName, root: Node, p: NodePath): Result<Step> {
    match r
    case FoldEmpty => FoldStatements.EmptyStep(root, p)
    case FoldExprStmt => FoldStatements.ExprStmtStep(root, p)
    case FoldWhile => FoldLoops.WhileStep(root, p)
    case FoldIf => FoldIf.IfStep(root, p)
    case FoldSequence => FoldLists.SequenceStep(root, p)
    case FoldLogical => FoldExpressions.LogicalStep(root, p)
    case FoldUnreachable => FoldLists.UnreachableStep(root, p)
    case FoldConditional => FoldExpressions.ConditionalStep(root, p)
    case FoldBinary => FoldExpressions.BinaryStep(host, root, p)
    case FoldUnary => FoldExpressions.UnaryStep(host, root, p)
    case FoldMember => FoldMembers.MemberStep(host, root, p)
    case MinValues => Minify.MinStep(root, p)
  }

  /** The folding stages of a folder whose operators follow `host`. */
  function FolderStep(host: Host): (RuleName, Node, NodePath) -> Result<Step> {
    (n, root, p) => Apply(host, n, root, p)
  }

  /** The stage `n` on path `p`. */
  method RunRule(f: Folder, n: RuleName, p: NodePath) returns (r: Result<Stage>)
    requires f.Valid()
    modifies f
    ensures f.Valid()
    ensures Agrees(r, f.root, Apply(f.host, n, old(f.root), p))
  {
    match n
    case FoldEmpty => r := FoldStatements.FoldEmpty(f, p);
    case FoldExprStmt => r := FoldStatements.FoldExprStmt(f, p);
    case FoldWhile => r := FoldLoops.FoldWhile(f, p);
    case FoldIf => r := FoldIf.FoldIf(f, p);
    case FoldSequence => r := FoldLists.FoldSequence(f, p);
    case FoldLogical => r := FoldExpressions.FoldLogical(f, p);
    case FoldUnreachable => r := FoldLists.FoldUnreachable(f, p);
    case FoldConditional => r := FoldExpressions.FoldConditional(f, p);
    case FoldBinary => r := FoldExpressions.FoldBinary(f, p);
    case FoldUnary => r := FoldExpressions.FoldUnary(f, p);
    case FoldMember => r := FoldMembers.FoldMember(f, p);
    case MinValues => r := Minify.MinValues(f, p);
  }
}
