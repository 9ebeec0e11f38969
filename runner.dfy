/**
 * A walk over the folder's tree: the stages of a chain, DEPTH_FIRST's loops
 * with their retries, and `walk` itself, each doing what module Engine says
 * of it.
 */
module Runner {
  import opened Values
  import opened Tree
  import opened NodePaths
  import opened Edits
  import opened Walk
  import opened Engine
  import opened Rules

  /** Hand the path at address `a` to stage `i` of `stages`. */
  method FeedAt(f: Folder, stages: seq<Gen>, i: nat, a: seq<Key>, fuel: nat) returns (r: Fueled<Stage>)
    requires f.Valid()
    modifies f
    ensures f.Valid()
    ensures Matches(r, f.root, Feed(Pipeline(FolderStep(f.host), stages), i, old(f.root), a, fuel))
    decreases fuel, 1
  {
    if |stages| <= i {
      return Value(Pass);
    }
    if fuel == 0 {
      return OutOfFuel;
    }
    match stages[i]
    case Passthrough =>
      r := FeedAt(f, stages, i + 1, a, fuel - 1);
    case NeverArrays =>
      // `if (Array.isArray(path)) return;` never holds: the item is a path
      r := FeedAt(f, stages, i + 1, a, fuel - 1);
    case DepthFirst =>
      r := WalkAt(f, stages, i, a, fuel - 1);
    case Rule(n) =>
      var s := RunRule(f, n, PathTo(f.root, a));
      if s.Err? {
        return Thrown(s.error);
      }
      if s.value.Pass? {
        r := FeedAt(f, stages, i + 1, a, fuel - 1);
      } else {
        r := Value(s.value);
      }
  }

  /** `DEFAULT_WALKER` of stage `i` on the path at address `a`. */
  method WalkAt(f: Folder, stages: seq<Gen>, i: nat, a: seq<Key>, fuel: nat) returns (r: Fueled<Stage>)
    requires f.Valid()
    modifies f
    ensures f.Valid()
    ensures Matches(r, f.root, DefaultWalker(Pipeline(FolderStep(f.host), stages), i, old(f.root), a, fuel))
    decreases fuel, 0
  {
    var node := At(f.root, a);
    if node.Leaf? {
      return Value(Pass);
    }
    if fuel == 0 {
      return OutOfFuel;
    }
    var kids: Fueled<Stage>;
    if node.Arr? {
      kids := ElementsAt(f, stages, i, a, fuel - 1);
    } else {
      kids := FieldsAt(f, stages, i, a, SortedKeys(node.fields.Keys), fuel - 1);
    }
    if kids.IsFailure() {
      return kids;
    }
    r := FeedAt(f, stages, i + 1, a, fuel - 1);
  }

  /** The loop of DEFAULT_WALKER over the indices of the array at `a`. */
  method ElementsAt(f: Folder, stages: seq<Gen>, i: nat, a: seq<Key>, fuel: nat) returns (r: Fueled<Stage>)
    requires f.Valid()
    modifies f
    ensures f.Valid()
    ensures Toured(r, f.root, Elements(Pipeline(FolderStep(f.host), stages), i, old(f.root), a, 0, fuel))
    decreases fuel, 0
  {
    ghost var w := Pipeline(FolderStep(f.host), stages);
    ghost var total := Elements(w, i, f.root, a, 0, fuel);
    ghost var tr: seq<Visit> := [];
    var budget: nat := fuel;
    var j := 0;
    AfterNothing(total);
    while j < Length(At(f.root, a))
      invariant f.Valid()
      invariant budget <= fuel
      invariant total == After(tr, Elements(w, i, f.root, a, j, budget))
      decreases budget
    {
      if budget == 0 {
        return OutOfFuel;
      }
      budget := budget - 1;
      ghost var start := budget;
      var retry := true;
      while retry
        invariant f.Valid()
        invariant budget <= start
        invariant retry ==> total == After(tr, ElementRetry(w, i, f.root, a, j, budget))
        invariant !retry ==> budget < start && total == After(tr, Elements(w, i, f.root, a, j + 1, budget))
        decreases budget + (if retry then 1 else 0)
      {
        if budget == 0 {
          return OutOfFuel;
        }
        ElementTurn(w, i, f.root, a, j, budget, tr);
        budget := budget - 1;
        ghost var before := f.root;
        var s := WalkAt(f, stages, i, a + [Index(j)], budget);
        if s.IsFailure() {
          return s;
        }
        tr := tr + DefaultWalker(w, i, before, a + [Index(j)], budget).value.trace;
        retry := s.value.Fire?;
      }
      j := j + 1;
    }
    return Value(Pass);
  }

  /** The loop of DEFAULT_WALKER over the sorted keys `ks` of the record at `a`. */
  method FieldsAt(f: Folder, stages: seq<Gen>, i: nat, a: seq<Key>, ks: seq<string>, fuel: nat) returns (r: Fueled<Stage>)
    requires f.Valid()
    modifies f
    ensures f.Valid()
    ensures Toured(r, f.root, Fields(Pipeline(FolderStep(f.host), stages), i, old(f.root), a, ks, 0, fuel))
    decreases fuel, 0
  {
    ghost var w := Pipeline(FolderStep(f.host), stages);
    ghost var total := Fields(w, i, f.root, a, ks, 0, fuel);
    ghost var tr: seq<Visit> := [];
    var budget: nat := fuel;
    var j := 0;
    AfterNothing(total);
    while j < |ks|
      invariant f.Valid()
      invariant budget <= fuel
      invariant total == After(tr, Fields(w, i, f.root, a, ks, j, budget))
      decreases budget
    {
      if budget == 0 {
        return OutOfFuel;
      }
      budget := budget - 1;
      ghost var start := budget;
      var retry := true;
      while retry
        invariant f.Valid()
        invariant budget <= start
        invariant retry ==> total == After(tr, FieldRetry(w, i, f.root, a, ks, j, budget))
        invariant !retry ==> budget < start && total == After(tr, Fields(w, i, f.root, a, ks, j + 1, budget))
        decreases budget + (if retry then 1 else 0)
      {
        if budget == 0 {
          return OutOfFuel;
        }
        FieldTurn(w, i, f.root, a, ks, j, budget, tr);
        budget := budget - 1;
        ghost var before := f.root;
        var s := WalkAt(f, stages, i, a + [Name(ks[j])], budget);
        if s.IsFailure() {
          return s;
        }
        tr := tr + DefaultWalker(w, i, before, a + [Name(ks[j])], budget).value.trace;
        retry := s.value.Fire?;
      }
      j := j + 1;
    }
    return Value(Pass);
  }
}
