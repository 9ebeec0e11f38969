/**
 * How a walker runs: `walk(input)` hands the input to the first stage of the
 * walker's chain (its inputs, then its outputs); each stage is a generator
 * that, for the item it is handed, yields items to the next stage, reads the
 * next stage's reply to each, and finally returns a reply of its own. The
 * consumer of the walk replies `undefined` to everything. DEPTH_FIRST turns
 * the one item it is handed into every object and array below it, children
 * first, and walks a slot again for as long as the reply to it is not
 * `undefined`.
 *
 * An item is a path into the live tree. Paths are kept as addresses and the
 * path a stage is handed is the one the live tree gives at that address, as a
 * JavaScript path reads its nodes through live objects. The walk has no bound
 * of its own: the model carries a fuel bound and reports when it runs out.
 */
module Engine {
  import opened Values
  import opened Tree
  import opened NodePaths
  import opened Edits
  import opened Walk

  /** A bounded run: a value, an exception of the program, or the bound ran out. */
  datatype Fueled<+T> = Value(value: T) | Thrown(error: Error) | OutOfFuel {
    predicate IsFailure() { !Value? }
    function PropagateFailure<U>(): Fueled<U>
      requires IsFailure()
    {
      if Thrown? then Thrown(error) else OutOfFuel
    }
    function Extract(): T
      requires Value?
    {
      value
    }
  }

  function Lift<T>(r: Result<T>): (f: Fueled<T>)
    ensures r.Ok? <==> f.Value?
    ensures r.Ok? ==> f.value == r.value
    ensures r.Err? ==> f == Thrown(r.error)
  {
    match r
    case Ok(v) => Value(v)
    case Err(e) => Thrown(e)
  }

  /** The stages of a walk, and what a folding stage does to a path of a tree. */
  datatype Pipeline = Pipeline(step: (RuleName, Node, NodePath) -> Result<Step>, stages: seq<Gen>)

  /** Stage `stage` was handed the path at `address`. */
  datatype Visit = Visit(stage: nat, address: seq<Key>)

  /** What handing an item to a stage comes to: the reply, the tree afterwards, and every item a stage was handed meanwhile. */
  datatype Run = Run(reply: Stage, root: Node, trace: seq<Visit>)

  /** What a loop of DEPTH_FIRST over the children comes to. */
  datatype Tour = Tour(root: Node, trace: seq<Visit>)

  /** `node.length`, read afresh on every turn of the loop. */
  function Length(n: Node): nat {
    if n.Arr? then |n.elems| else 0
  }

  /** Stage `i` is handed the path at address `a`. */
  function Feed(w: Pipeline, i: nat, root: Node, a: seq<Key>, fuel: nat): Fueled<Run>
    decreases fuel
  {
    if |w.stages| <= i then Value(Run(Pass, root, []))
    else if fuel == 0 then OutOfFuel
    else
      var r :- match w.stages[i]
        case Passthrough => Feed(w, i + 1, root, a, fuel - 1)
        case NeverArrays => Feed(w, i + 1, root, a, fuel - 1)
        case DepthFirst => DefaultWalker(w, i, root, a, fuel - 1)
        case Rule(n) =>
          var s :- Lift(w.step(n, root, PathTo(root, a)));
          if s.stage.Pass? then Feed(w, i + 1, s.root, a, fuel - 1)
          else Value(Run(s.stage, s.root, []));
      Value(Run(r.reply, r.root, [Visit(i, a)] + r.trace))
  }

  /** `DEFAULT_WALKER` of stage `i` on the path at address `a`. */
  function DefaultWalker(w: Pipeline, i: nat, root: Node, a: seq<Key>, fuel: nat): Fueled<Run>
    decreases fuel
  {
    var node := At(root, a);
    if node.Leaf? then Value(Run(Pass, root, []))
    else if fuel == 0 then OutOfFuel
    else
      var kids :- if node.Arr? then Elements(w, i, root, a, 0, fuel - 1)
                  else Fields(w, i, root, a, SortedKeys(node.fields.Keys), 0, fuel - 1);
      var r :- Feed(w, i + 1, kids.root, a, fuel - 1);
      Value(Run(r.reply, r.root, kids.trace + r.trace))
  }

  /** The loop over the indices of an array, from index `j` on. */
  function Elements(w: Pipeline, i: nat, root: Node, a: seq<Key>, j: nat, fuel: nat): Fueled<Tour>
    decreases fuel
  {
    if Length(At(root, a)) <= j then Value(Tour(root, []))
    else if fuel == 0 then OutOfFuel
    else ElementRetry(w, i, root, a, j, fuel - 1)
  }

  /** The `do … while (retry !== undefined)` on index `j`. */
  function ElementRetry(w: Pipeline, i: nat, root: Node, a: seq<Key>, j: nat, fuel: nat): Fueled<Tour>
    decreases fuel
  {
    if fuel == 0 then OutOfFuel
    else
      var r :- DefaultWalker(w, i, root, a + [Index(j)], fuel - 1);
      var rest :- if r.reply.Pass? then Elements(w, i, r.root, a, j + 1, fuel - 1)
                  else ElementRetry(w, i, r.root, a, j, fuel - 1);
      Value(Tour(rest.root, r.trace + rest.trace))
  }

  /** The loop over the sorted keys `ks` of a record, taken when the walk reached it, from key `j` on. */
  function Fields(w: Pipeline, i: nat, root: Node, a: seq<Key>, ks: seq<string>, j: nat, fuel: nat): Fueled<Tour>
    decreases fuel
  {
    if |ks| <= j then Value(Tour(root, []))
    else if fuel == 0 then OutOfFuel
    else FieldRetry(w, i, root, a, ks, j, fuel - 1)
  }

  /** The `do … while (retry !== undefined)` on key `ks[j]`. */
  function FieldRetry(w: Pipeline, i: nat, root: Node, a: seq<Key>, ks: seq<string>, j: nat, fuel: nat): Fueled<Tour>
    requires j < |ks|
    decreases fuel
  {
    if fuel == 0 then OutOfFuel
    else
      var r :- DefaultWalker(w, i, root, a + [Name(ks[j])], fuel - 1);
      var rest :- if r.reply.Pass? then Fields(w, i, r.root, a, ks, j + 1, fuel - 1)
                  else FieldRetry(w, i, r.root, a, ks, j, fuel - 1);
      Value(Tour(rest.root, r.trace + rest.trace))
  }

  /** A method's reply and tree agree with a run. (The tree a thrown exception leaves is not specified.) */
  predicate Matches(r: Fueled<Stage>, root: Node, s: Fueled<Run>) {
    match s
    case Value(run) => r == Value(run.reply) && root == run.root
    case Thrown(e) => r == Thrown(e)
    case OutOfFuel => r.OutOfFuel?
  }

  /** A loop's tree agrees with a tour. */
  predicate Toured(r: Fueled<Stage>, root: Node, s: Fueled<Tour>) {
    match s
    case Value(t) => r == Value(Pass) && root == t.root
    case Thrown(e) => r == Thrown(e)
    case OutOfFuel => r.OutOfFuel?
  }

  /** Items `tr` come before the rest of a tour. */
  function After(tr: seq<Visit>, s: Fueled<Tour>): Fueled<Tour> {
    match s
    case Value(t) => Value(Tour(t.root, tr + t.trace))
    case Thrown(e) => Thrown(e)
    case OutOfFuel => OutOfFuel
  }

  lemma AfterNothing(s: Fueled<Tour>)
    ensures After([], s) == s
  {
    if s.Value? {
      assert [] + s.value.trace == s.value.trace;
    }
  }

  /** One turn of the retry loop on index `j`: walk the slot, then go on from the reply. */
  lemma ElementTurn(w: Pipeline, i: nat, root: Node, a: seq<Key>, j: nat, fuel: nat, tr: seq<Visit>)
    requires fuel > 0
    ensures
      var s := DefaultWalker(w, i, root, a + [Index(j)], fuel - 1);
      After(tr, ElementRetry(w, i, root, a, j, fuel)) ==
        if s.Thrown? then Thrown(s.error)
        else if s.OutOfFuel? then OutOfFuel
        else if s.value.reply.Pass? then After(tr + s.value.trace, Elements(w, i, s.value.root, a, j + 1, fuel - 1))
        else After(tr + s.value.trace, ElementRetry(w, i, s.value.root, a, j, fuel - 1))
  {
    var s := DefaultWalker(w, i, root, a + [Index(j)], fuel - 1);
    if s.Value? {
      var rest := if s.value.reply.Pass? then Elements(w, i, s.value.root, a, j + 1, fuel - 1)
                  else ElementRetry(w, i, s.value.root, a, j, fuel - 1);
      if rest.Value? {
        assert tr + (s.value.trace + rest.value.trace) == (tr + s.value.trace) + rest.value.trace;
      }
    }
  }

  /** One turn of the retry loop on key `ks[j]`. */
  lemma FieldTurn(w: Pipeline, i: nat, root: Node, a: seq<Key>, ks: seq<string>, j: nat, fuel: nat, tr: seq<Visit>)
    requires fuel > 0 && j < |ks|
    ensures
      var s := DefaultWalker(w, i, root, a + [Name(ks[j])], fuel - 1);
      After(tr, FieldRetry(w, i, root, a, ks, j, fuel)) ==
        if s.Thrown? then Thrown(s.error)
        else if s.OutOfFuel? then OutOfFuel
        else if s.value.reply.Pass? then After(tr + s.value.trace, Fields(w, i, s.value.root, a, ks, j + 1, fuel - 1))
        else After(tr + s.value.trace, FieldRetry(w, i, s.value.root, a, ks, j, fuel - 1))
  {
    var s := DefaultWalker(w, i, root, a + [Name(ks[j])], fuel - 1);
    if s.Value? {
      var rest := if s.value.reply.Pass? then Fields(w, i, s.value.root, a, ks, j + 1, fuel - 1)
                  else FieldRetry(w, i, s.value.root, a, ks, j, fuel - 1);
      if rest.Value? {
        assert tr + (s.value.trace + rest.value.trace) == (tr + s.value.trace) + rest.value.trace;
      }
    }
  }
}
