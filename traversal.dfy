/**
 * What a walk does, proved on the functions of module Engine: the fuel bound
 * only cuts a walk short and never changes its outcome, and a walk on which no
 * folding stage fires leaves the tree as it was and hands the stages after
 * DEPTH_FIRST every object and array of the tree once, children before their
 * parent, array elements by index and record fields by sorted key.
 */
module Traversal {
  import opened Values
  import opened Tree
  import opened NodePaths
  import opened Edits
  import opened Walk
  import opened Engine
  import opened PostOrders

  // ---- the fuel bound -------------------------------------------------------------

  /** A run that did not run out of fuel has the same outcome with more fuel. */
  lemma {:induction false} FeedFuel(w: Pipeline, i: nat, root: Node, a: seq<Key>, fuel: nat, more: nat)
    requires !Feed(w, i, root, a, fuel).OutOfFuel?
    ensures Feed(w, i, root, a, fuel + more) == Feed(w, i, root, a, fuel)
    decreases fuel
  {
    if i < |w.stages| {
      match w.stages[i]
      case Passthrough => FeedFuel(w, i + 1, root, a, fuel - 1, more);
      case NeverArrays => FeedFuel(w, i + 1, root, a, fuel - 1, more);
      case DepthFirst => WalkerFuel(w, i, root, a, fuel - 1, more);
      case Rule(n) =>
        var s := w.step(n, root, PathTo(root, a));
        if s.Ok? && s.value.stage.Pass? {
          FeedFuel(w, i + 1, s.value.root, a, fuel - 1, more);
        }
    }
  }

  lemma {:induction false} WalkerFuel(w: Pipeline, i: nat, root: Node, a: seq<Key>, fuel: nat, more: nat)
    requires !DefaultWalker(w, i, root, a, fuel).OutOfFuel?
    ensures DefaultWalker(w, i, root, a, fuel + more) == DefaultWalker(w, i, root, a, fuel)
    decreases fuel
  {
    var node := At(root, a);
    if !node.Leaf? {
      var kids := if node.Arr? then Elements(w, i, root, a, 0, fuel - 1)
                  else Fields(w, i, root, a, SortedKeys(node.fields.Keys), 0, fuel - 1);
      if node.Arr? {
        ElementsFuel(w, i, root, a, 0, fuel - 1, more);
      } else {
        FieldsFuel(w, i, root, a, SortedKeys(node.fields.Keys), 0, fuel - 1, more);
      }
      if kids.Value? {
        FeedFuel(w, i + 1, kids.value.root, a, fuel - 1, more);
      }
    }
  }

  lemma {:induction false} ElementsFuel(w: Pipeline, i: nat, root: Node, a: seq<Key>, j: nat, fuel: nat, more: nat)
    requires !Elements(w, i, root, a, j, fuel).OutOfFuel?
    ensures Elements(w, i, root, a, j, fuel + more) == Elements(w, i, root, a, j, fuel)
    decreases fuel
  {
    if j < Length(At(root, a)) {
      ElementRetryFuel(w, i, root, a, j, fuel - 1, more);
    }
  }

  lemma {:induction false} ElementRetryFuel(w: Pipeline, i: nat, root: Node, a: seq<Key>, j: nat, fuel: nat, more: nat)
    requires !ElementRetry(w, i, root, a, j, fuel).OutOfFuel?
    ensures ElementRetry(w, i, root, a, j, fuel + more) == ElementRetry(w, i, root, a, j, fuel)
    decreases fuel
  {
    var r := DefaultWalker(w, i, root, a + [Index(j)], fuel - 1);
    WalkerFuel(w, i, root, a + [Index(j)], fuel - 1, more);
    if r.Value? {
      if r.value.reply.Pass? {
        ElementsFuel(w, i, r.value.root, a, j + 1, fuel - 1, more);
      } else {
        ElementRetryFuel(w, i, r.value.root, a, j, fuel - 1, more);
      }
    }
  }

  lemma {:induction false} FieldsFuel(w: Pipeline, i: nat, root: Node, a: seq<Key>, ks: seq<string>, j: nat, fuel: nat, more: nat)
    requires !Fields(w, i, root, a, ks, j, fuel).OutOfFuel?
    ensures Fields(w, i, root, a, ks, j, fuel + more) == Fields(w, i, root, a, ks, j, fuel)
    decreases fuel
  {
    if j < |ks| {
      FieldRetryFuel(w, i, root, a, ks, j, fuel - 1, more);
    }
  }

  lemma {:induction false} FieldRetryFuel(w: Pipeline, i: nat, root: Node, a: seq<Key>, ks: seq<string>, j: nat, fuel: nat, more: nat)
    requires j < |ks|
    requires !FieldRetry(w, i, root, a, ks, j, fuel).OutOfFuel?
    ensures FieldRetry(w, i, root, a, ks, j, fuel + more) == FieldRetry(w, i, root, a, ks, j, fuel)
    decreases fuel
  {
    var r := DefaultWalker(w, i, root, a + [Name(ks[j])], fuel - 1);
    WalkerFuel(w, i, root, a + [Name(ks[j])], fuel - 1, more);
    if r.Value? {
      if r.value.reply.Pass? {
        FieldsFuel(w, i, r.value.root, a, ks, j + 1, fuel - 1, more);
      } else {
        FieldRetryFuel(w, i, r.value.root, a, ks, j, fuel - 1, more);
      }
    }
  }

  // ---- the retry loop -----------------------------------------------------------

  /** The walk of slot `s` on tree `t0` replies `fired`-ly (anything but `undefined` when `fired`) and leaves `t1`. */
  predicate WalkLeaves(w: Pipeline, i: nat, s: seq<Key>, t0: Node, t1: Node, fired: bool, fuel: nat) {
    var r := DefaultWalker(w, i, t0, s, fuel);
    r.Value? && r.value.root == t1 && (r.value.reply.Pass? <==> !fired)
  }

  /**
   * The retries of slot `s`: the slot is walked on `ts[0]`; every walk but the
   * last is answered and is followed by a walk of the same slot on the tree it
   * left; the last is answered `undefined` and leaves `ts[|ts| - 1]`.
   */
  predicate Retried(w: Pipeline, i: nat, s: seq<Key>, ts: seq<Node>, fuel: nat) {
    2 <= |ts| && forall k :: 0 <= k < |ts| - 1 ==> WalkLeaves(w, i, s, ts[k], ts[k + 1], k < |ts| - 2, fuel)
  }

  lemma RetriedFuel(w: Pipeline, i: nat, s: seq<Key>, ts: seq<Node>, fuel: nat, more: nat)
    requires Retried(w, i, s, ts, fuel)
    ensures Retried(w, i, s, ts, fuel + more)
  {
    forall k | 0 <= k < |ts| - 1
      ensures WalkLeaves(w, i, s, ts[k], ts[k + 1], k < |ts| - 2, fuel + more)
    {
      assert WalkLeaves(w, i, s, ts[k], ts[k + 1], k < |ts| - 2, fuel);
      WalkerFuel(w, i, ts[k], s, fuel, more);
    }
  }

  /** Retries of index `j` from `ts[0]`, after which the loop from index `j + 1` leaves `out`. */
  predicate ElementSettles(w: Pipeline, i: nat, a: seq<Key>, j: nat, ts: seq<Node>, fuel: nat, out: Node) {
    Retried(w, i, a + [Index(j)], ts, fuel)
    && Elements(w, i, ts[|ts| - 1], a, j + 1, fuel).Value?
    && Elements(w, i, ts[|ts| - 1], a, j + 1, fuel).value.root == out
  }

  /** One turn of the loop on index `j` that finished: the walk of the slot finished, and so did what came after it. */
  lemma ElementRetryTurn(w: Pipeline, i: nat, root: Node, a: seq<Key>, j: nat, fuel: nat)
    requires ElementRetry(w, i, root, a, j, fuel).Value?
    ensures fuel > 0 && DefaultWalker(w, i, root, a + [Index(j)], fuel - 1).Value?
    ensures var r, out := DefaultWalker(w, i, root, a + [Index(j)], fuel - 1).value, ElementRetry(w, i, root, a, j, fuel).value.root;
      if r.reply.Pass? then Elements(w, i, r.root, a, j + 1, fuel - 1).Value? && Elements(w, i, r.root, a, j + 1, fuel - 1).value.root == out
      else ElementRetry(w, i, r.root, a, j, fuel - 1).Value? && ElementRetry(w, i, r.root, a, j, fuel - 1).value.root == out
  {
  }

  /**
   * The `do … while` on index `j` that finishes has walked the slot on the
   * trees of its retries, each walk after an answered one on the tree that one
   * left, until a walk answered `undefined`; the loop then went on from index
   * `j + 1` on the tree that walk left.
   */
  lemma {:induction false} ElementRetrySettles(w: Pipeline, i: nat, root: Node, a: seq<Key>, j: nat, fuel: nat)
    requires ElementRetry(w, i, root, a, j, fuel).Value?
    ensures exists ts: seq<Node> ::
      ElementSettles(w, i, a, j, ts, fuel, ElementRetry(w, i, root, a, j, fuel).value.root) && ts[0] == root
    decreases fuel
  {
    var s := a + [Index(j)];
    var out := ElementRetry(w, i, root, a, j, fuel).value.root;
    ElementRetryTurn(w, i, root, a, j, fuel);
    var r := DefaultWalker(w, i, root, s, fuel - 1).value;
    WalkerFuel(w, i, root, s, fuel - 1, 1);
    if r.reply.Pass? {
      ElementsFuel(w, i, r.root, a, j + 1, fuel - 1, 1);
      ElementSettlesOnce(w, i, a, j, root, r.root, fuel, out);
      assert ElementSettles(w, i, a, j, [root, r.root], fuel, out);
    } else {
      ElementRetrySettles(w, i, r.root, a, j, fuel - 1);
      var us: seq<Node> :| ElementSettles(w, i, a, j, us, fuel - 1, out) && us[0] == r.root;
      ElementSettlesLater(w, i, a, j, root, us, fuel, out);
      assert ElementSettles(w, i, a, j, [root] + us, fuel, out);
    }
  }

  /** A first walk answered `undefined` ends the retries. */
  lemma ElementSettlesOnce(w: Pipeline, i: nat, a: seq<Key>, j: nat, t0: Node, t1: Node, fuel: nat, out: Node)
    requires WalkLeaves(w, i, a + [Index(j)], t0, t1, false, fuel)
    requires Elements(w, i, t1, a, j + 1, fuel).Value? && Elements(w, i, t1, a, j + 1, fuel).value.root == out
    ensures ElementSettles(w, i, a, j, [t0, t1], fuel, out)
  {
    assert WalkLeaves(w, i, a + [Index(j)], [t0, t1][0], [t0, t1][1], false, fuel);
  }

  /** An answered walk with one more unit of fuel, followed by retries that settle. */
  lemma ElementSettlesLater(w: Pipeline, i: nat, a: seq<Key>, j: nat, t: Node, us: seq<Node>, fuel: nat, out: Node)
    requires fuel > 0
    requires ElementSettles(w, i, a, j, us, fuel - 1, out)
    requires WalkLeaves(w, i, a + [Index(j)], t, us[0], true, fuel)
    ensures ElementSettles(w, i, a, j, [t] + us, fuel, out)
  {
    RetriedFuel(w, i, a + [Index(j)], us, fuel - 1, 1);
    ElementsFuel(w, i, us[|us| - 1], a, j + 1, fuel - 1, 1);
    RetriedCons(w, i, a + [Index(j)], t, us, fuel);
    assert ([t] + us)[|[t] + us| - 1] == us[|us| - 1];
  }

  /** A walk that was answered, followed by the retries from the tree it left. */
  lemma RetriedCons(w: Pipeline, i: nat, s: seq<Key>, t: Node, us: seq<Node>, fuel: nat)
    requires Retried(w, i, s, us, fuel) && WalkLeaves(w, i, s, t, us[0], true, fuel)
    ensures Retried(w, i, s, [t] + us, fuel)
  {
    var ts := [t] + us;
    forall k | 0 <= k < |ts| - 1
      ensures WalkLeaves(w, i, s, ts[k], ts[k + 1], k < |ts| - 2, fuel)
    {
      if k > 0 {
        assert ts[k] == us[k - 1] && ts[k + 1] == us[k];
        assert WalkLeaves(w, i, s, us[k - 1], us[k], k - 1 < |us| - 2, fuel);
      }
    }
  }

  /** Conversely, retries that end with a walk answered `undefined` finish the loop on index `j`, given fuel for each turn. */
  lemma {:induction false} ElementRetryFromRetries(w: Pipeline, i: nat, a: seq<Key>, j: nat, ts: seq<Node>, fuel: nat)
    requires Retried(w, i, a + [Index(j)], ts, fuel)
    requires Elements(w, i, ts[|ts| - 1], a, j + 1, fuel).Value?
    ensures ElementRetry(w, i, ts[0], a, j, fuel + |ts|).Value?
    ensures ElementRetry(w, i, ts[0], a, j, fuel + |ts|).value.root == Elements(w, i, ts[|ts| - 1], a, j + 1, fuel).value.root
    decreases |ts|
  {
    var s := a + [Index(j)];
    assert WalkLeaves(w, i, s, ts[0], ts[1], 0 < |ts| - 2, fuel);
    WalkerFuel(w, i, ts[0], s, fuel, |ts| - 1);
    if |ts| == 2 {
      ElementsFuel(w, i, ts[1], a, j + 1, fuel, 1);
    } else {
      var us := ts[1..];
      forall k | 0 <= k < |us| - 1
        ensures WalkLeaves(w, i, s, us[k], us[k + 1], k < |us| - 2, fuel)
      {
        assert WalkLeaves(w, i, s, ts[k + 1], ts[k + 2], k + 1 < |ts| - 2, fuel);
      }
      assert us[|us| - 1] == ts[|ts| - 1];
      ElementRetryFromRetries(w, i, a, j, us, fuel);
    }
  }

  /** Retries of key `ks[j]` from `ts[0]`, after which the loop from key `j + 1` leaves `out`. */
  predicate FieldSettles(w: Pipeline, i: nat, a: seq<Key>, ks: seq<string>, j: nat, ts: seq<Node>, fuel: nat, out: Node)
    requires j < |ks|
  {
    Retried(w, i, a + [Name(ks[j])], ts, fuel)
    && Fields(w, i, ts[|ts| - 1], a, ks, j + 1, fuel).Value?
    && Fields(w, i, ts[|ts| - 1], a, ks, j + 1, fuel).value.root == out
  }

  /** One turn of the loop on key `ks[j]` that finished. */
  lemma FieldRetryTurn(w: Pipeline, i: nat, root: Node, a: seq<Key>, ks: seq<string>, j: nat, fuel: nat)
    requires j < |ks| && FieldRetry(w, i, root, a, ks, j, fuel).Value?
    ensures fuel > 0 && DefaultWalker(w, i, root, a + [Name(ks[j])], fuel - 1).Value?
    ensures var r, out := DefaultWalker(w, i, root, a + [Name(ks[j])], fuel - 1).value, FieldRetry(w, i, root, a, ks, j, fuel).value.root;
      if r.reply.Pass? then Fields(w, i, r.root, a, ks, j + 1, fuel - 1).Value? && Fields(w, i, r.root, a, ks, j + 1, fuel - 1).value.root == out
      else FieldRetry(w, i, r.root, a, ks, j, fuel - 1).Value? && FieldRetry(w, i, r.root, a, ks, j, fuel - 1).value.root == out
  {
  }

  /** The `do … while` on key `ks[j]` that finishes has walked the slot on the trees of its retries until a walk answered `undefined`. */
  lemma {:induction false} FieldRetrySettles(w: Pipeline, i: nat, root: Node, a: seq<Key>, ks: seq<string>, j: nat, fuel: nat)
    requires j < |ks| && FieldRetry(w, i, root, a, ks, j, fuel).Value?
    ensures exists ts: seq<Node> ::
      FieldSettles(w, i, a, ks, j, ts, fuel, FieldRetry(w, i, root, a, ks, j, fuel).value.root) && ts[0] == root
    decreases fuel
  {
    var s := a + [Name(ks[j])];
    var out := FieldRetry(w, i, root, a, ks, j, fuel).value.root;
    FieldRetryTurn(w, i, root, a, ks, j, fuel);
    var r := DefaultWalker(w, i, root, s, fuel - 1).value;
    WalkerFuel(w, i, root, s, fuel - 1, 1);
    if r.reply.Pass? {
      FieldsFuel(w, i, r.root, a, ks, j + 1, fuel - 1, 1);
      FieldSettlesOnce(w, i, a, ks, j, root, r.root, fuel, out);
      assert FieldSettles(w, i, a, ks, j, [root, r.root], fuel, out);
    } else {
      FieldRetrySettles(w, i, r.root, a, ks, j, fuel - 1);
      var us: seq<Node> :| FieldSettles(w, i, a, ks, j, us, fuel - 1, out) && us[0] == r.root;
      FieldSettlesLater(w, i, a, ks, j, root, us, fuel, out);
      assert FieldSettles(w, i, a, ks, j, [root] + us, fuel, out);
    }
  }

  /** A first walk answered `undefined` ends the retries. */
  lemma FieldSettlesOnce(w: Pipeline, i: nat, a: seq<Key>, ks: seq<string>, j: nat, t0: Node, t1: Node, fuel: nat, out: Node)
    requires j < |ks|
    requires WalkLeaves(w, i, a + [Name(ks[j])], t0, t1, false, fuel)
    requires Fields(w, i, t1, a, ks, j + 1, fuel).Value? && Fields(w, i, t1, a, ks, j + 1, fuel).value.root == out
    ensures FieldSettles(w, i, a, ks, j, [t0, t1], fuel, out)
  {
    assert WalkLeaves(w, i, a + [Name(ks[j])], [t0, t1][0], [t0, t1][1], false, fuel);
  }

  /** An answered walk with one more unit of fuel, followed by retries that settle. */
  lemma FieldSettlesLater(w: Pipeline, i: nat, a: seq<Key>, ks: seq<string>, j: nat, t: Node, us: seq<Node>, fuel: nat, out: Node)
    requires j < |ks| && fuel > 0
    requires FieldSettles(w, i, a, ks, j, us, fuel - 1, out)
    requires WalkLeaves(w, i, a + [Name(ks[j])], t, us[0], true, fuel)
    ensures FieldSettles(w, i, a, ks, j, [t] + us, fuel, out)
  {
    RetriedFuel(w, i, a + [Name(ks[j])], us, fuel - 1, 1);
    FieldsFuel(w, i, us[|us| - 1], a, ks, j + 1, fuel - 1, 1);
    RetriedCons(w, i, a + [Name(ks[j])], t, us, fuel);
    assert ([t] + us)[|[t] + us| - 1] == us[|us| - 1];
  }

  /** Conversely, retries of key `ks[j]` that end with a walk answered `undefined` finish its loop. */
  lemma {:induction false} FieldRetryFromRetries(w: Pipeline, i: nat, a: seq<Key>, ks: seq<string>, j: nat, ts: seq<Node>, fuel: nat)
    requires j < |ks| && Retried(w, i, a + [Name(ks[j])], ts, fuel)
    requires Fields(w, i, ts[|ts| - 1], a, ks, j + 1, fuel).Value?
    ensures FieldRetry(w, i, ts[0], a, ks, j, fuel + |ts|).Value?
    ensures FieldRetry(w, i, ts[0], a, ks, j, fuel + |ts|).value.root == Fields(w, i, ts[|ts| - 1], a, ks, j + 1, fuel).value.root
    decreases |ts|
  {
    var s := a + [Name(ks[j])];
    assert WalkLeaves(w, i, s, ts[0], ts[1], 0 < |ts| - 2, fuel);
    WalkerFuel(w, i, ts[0], s, fuel, |ts| - 1);
    if |ts| == 2 {
      FieldsFuel(w, i, ts[1], a, ks, j + 1, fuel, 1);
    } else {
      var us := ts[1..];
      forall k | 0 <= k < |us| - 1
        ensures WalkLeaves(w, i, s, us[k], us[k + 1], k < |us| - 2, fuel)
      {
        assert WalkLeaves(w, i, s, ts[k + 1], ts[k + 2], k + 1 < |ts| - 2, fuel);
      }
      assert us[|us| - 1] == ts[|ts| - 1];
      FieldRetryFromRetries(w, i, a, ks, j, us, fuel);
    }
  }

  // ---- the order of a walk ----------------------------------------------------------

  /** Stages `from` up to `to` are each handed address `b`, in order. */
  function Sweep(from: nat, to: nat, b: seq<Key>): seq<Visit>
    decreases to - from
  {
    if to <= from then [] else [Visit(from, b)] + Sweep(from + 1, to, b)
  }

  /** Each address of `bs` in turn is swept through stages `from` up to `to`. */
  function Hand(from: nat, to: nat, bs: seq<seq<Key>>): seq<Visit> {
    if bs == [] then [] else Sweep(from, to, bs[0]) + Hand(from, to, bs[1..])
  }

  lemma {:induction false} HandAppend(from: nat, to: nat, x: seq<seq<Key>>, y: seq<seq<Key>>)
    ensures Hand(from, to, x + y) == Hand(from, to, x) + Hand(from, to, y)
    decreases |x|
  {
    if x == [] {
      assert x + y == y;
    } else {
      assert (x + y)[1..] == x[1..] + y;
      HandAppend(from, to, x[1..], y);
    }
  }

  /** How much fuel a walk of `n` with no folding needs, beyond the stages after DEPTH_FIRST. */
  function Cost(n: Node): nat
    decreases n, 1
  {
    match n
    case Leaf(_) => 1
    case Arr(_) => 1 + ElementsCost(n, 0)
    case Obj(fs, _) => 1 + FieldsCost(n, SortedKeys(fs.Keys), 0)
  }

  function ElementsCost(n: Node, j: nat): nat
    requires n.Arr?
    decreases n, 0, |n.elems| - j
  {
    if |n.elems| <= j then 0 else Cost(n.elems[j]) + 1 + ElementsCost(n, j + 1)
  }

  function FieldsCost(n: Node, ks: seq<string>, j: nat): nat
    requires n.Obj?
    decreases n, 0, |ks| - j
  {
    if |ks| <= j then 0
    else (if ks[j] in n.fields then Cost(n.fields[ks[j]]) else 1) + 1 + FieldsCost(n, ks, j + 1)
  }

  /** From stage `k` on, no stage is DEPTH_FIRST and no folding stage fires on any path of `root`. */
  ghost predicate QuietFrom(w: Pipeline, k: nat, root: Node) {
    (forall m :: k <= m < |w.stages| ==> !w.stages[m].DepthFirst?)
    && (forall m, b :: k <= m < |w.stages| && w.stages[m].Rule? ==>
          w.step(w.stages[m].rule, root, PathTo(root, b)) == Ok(Step(Pass, root)))
  }

  /** With every stage from `k` on passing, the item goes through all of them and the walk's consumer replies `undefined`. */
  lemma {:induction false} FeedQuiet(w: Pipeline, k: nat, root: Node, b: seq<Key>, fuel: nat)
    requires QuietFrom(w, k, root)
    ensures Feed(w, k, root, b, fuel).OutOfFuel? || Feed(w, k, root, b, fuel) == Value(Run(Pass, root, Sweep(k, |w.stages|, b)))
    ensures fuel + k >= |w.stages| ==> Feed(w, k, root, b, fuel) == Value(Run(Pass, root, Sweep(k, |w.stages|, b)))
    decreases |w.stages| - k
  {
    if k < |w.stages| && fuel > 0 {
      FeedQuiet(w, k + 1, root, b, fuel - 1);
      if w.stages[k].Rule? {
        assert w.step(w.stages[k].rule, root, PathTo(root, b)) == Ok(Step(Pass, root));
      }
    }
  }

  /**
   * A walk with no folding: DEPTH_FIRST at stage `d` leaves the tree as it is,
   * replies `undefined`, and hands every object and array below `a` to the
   * later stages once, in post-order.
   */
  lemma {:induction false} WalkerQuiet(w: Pipeline, d: nat, root: Node, a: seq<Key>, fuel: nat)
    requires QuietFrom(w, d + 1, root)
    ensures
      var r := DefaultWalker(w, d, root, a, fuel);
      r.OutOfFuel? || r == Value(Run(Pass, root, Hand(d + 1, |w.stages|, PostOrder(At(root, a), a))))
    ensures fuel >= 2 * Cost(At(root, a)) + |w.stages| ==>
      DefaultWalker(w, d, root, a, fuel) == Value(Run(Pass, root, Hand(d + 1, |w.stages|, PostOrder(At(root, a), a))))
    decreases fuel, 1
  {
    var node := At(root, a);
    if node.Arr? && fuel > 0 {
      ArrayQuiet(w, d, root, a, fuel);
    } else if node.Obj? && fuel > 0 {
      RecordQuiet(w, d, root, a, fuel);
    }
  }

  lemma {:induction false} ArrayQuiet(w: Pipeline, d: nat, root: Node, a: seq<Key>, fuel: nat)
    requires QuietFrom(w, d + 1, root) && At(root, a).Arr? && fuel > 0
    ensures
      var r := DefaultWalker(w, d, root, a, fuel);
      r.OutOfFuel? || r == Value(Run(Pass, root, Hand(d + 1, |w.stages|, PostOrder(At(root, a), a))))
    ensures fuel >= 2 * Cost(At(root, a)) + |w.stages| ==>
      DefaultWalker(w, d, root, a, fuel) == Value(Run(Pass, root, Hand(d + 1, |w.stages|, PostOrder(At(root, a), a))))
    decreases fuel, 0
  {
    var order := ElementsOrder(At(root, a), a, 0);
    ElementsQuiet(w, d, root, a, 0, fuel - 1);
    FeedQuiet(w, d + 1, root, a, fuel - 1);
    HandLast(d + 1, |w.stages|, order, a);
  }

  lemma {:induction false} RecordQuiet(w: Pipeline, d: nat, root: Node, a: seq<Key>, fuel: nat)
    requires QuietFrom(w, d + 1, root) && At(root, a).Obj? && fuel > 0
    ensures
      var r := DefaultWalker(w, d, root, a, fuel);
      r.OutOfFuel? || r == Value(Run(Pass, root, Hand(d + 1, |w.stages|, PostOrder(At(root, a), a))))
    ensures fuel >= 2 * Cost(At(root, a)) + |w.stages| ==>
      DefaultWalker(w, d, root, a, fuel) == Value(Run(Pass, root, Hand(d + 1, |w.stages|, PostOrder(At(root, a), a))))
    decreases fuel, 0
  {
    var ks := SortedKeys(At(root, a).fields.Keys);
    var order := FieldsOrder(At(root, a), a, ks, 0);
    FieldsQuiet(w, d, root, a, ks, 0, fuel - 1);
    FeedQuiet(w, d + 1, root, a, fuel - 1);
    HandLast(d + 1, |w.stages|, order, a);
  }

  lemma HandLast(from: nat, to: nat, order: seq<seq<Key>>, a: seq<Key>)
    ensures Hand(from, to, order + [a]) == Hand(from, to, order) + Sweep(from, to, a)
  {
    HandAppend(from, to, order, [a]);
    assert Hand(from, to, [a]) == Sweep(from, to, a) + Hand(from, to, []);
  }

  lemma {:induction false} ElementsQuiet(w: Pipeline, d: nat, root: Node, a: seq<Key>, j: nat, fuel: nat)
    requires At(root, a).Arr? && QuietFrom(w, d + 1, root)
    ensures
      var r := Elements(w, d, root, a, j, fuel);
      r.OutOfFuel? || r == Value(Tour(root, Hand(d + 1, |w.stages|, ElementsOrder(At(root, a), a, j))))
    ensures fuel >= 2 * ElementsCost(At(root, a), j) + |w.stages| ==>
      Elements(w, d, root, a, j, fuel) == Value(Tour(root, Hand(d + 1, |w.stages|, ElementsOrder(At(root, a), a, j))))
    decreases fuel
  {
    if j < Length(At(root, a)) && fuel > 0 {
      ElementRetryQuiet(w, d, root, a, j, fuel - 1);
    }
  }

  lemma {:induction false} ElementRetryQuiet(w: Pipeline, d: nat, root: Node, a: seq<Key>, j: nat, fuel: nat)
    requires At(root, a).Arr? && j < |At(root, a).elems| && QuietFrom(w, d + 1, root)
    ensures
      var r := ElementRetry(w, d, root, a, j, fuel);
      r.OutOfFuel? || r == Value(Tour(root, Hand(d + 1, |w.stages|, ElementsOrder(At(root, a), a, j))))
    ensures fuel >= 2 * ElementsCost(At(root, a), j) + |w.stages| - 1 ==>
      ElementRetry(w, d, root, a, j, fuel) == Value(Tour(root, Hand(d + 1, |w.stages|, ElementsOrder(At(root, a), a, j))))
    decreases fuel
  {
    if fuel > 0 {
      var n := At(root, a);
      AtSnoc(root, a, Index(j));
      assert At(root, a + [Index(j)]) == n.elems[j];
      WalkerQuiet(w, d, root, a + [Index(j)], fuel - 1);
      ElementsQuiet(w, d, root, a, j + 1, fuel - 1);
      HandAppend(d + 1, |w.stages|, PostOrder(n.elems[j], a + [Index(j)]), ElementsOrder(n, a, j + 1));
    }
  }

  lemma {:induction false} FieldsQuiet(w: Pipeline, d: nat, root: Node, a: seq<Key>, ks: seq<string>, j: nat, fuel: nat)
    requires At(root, a).Obj? && QuietFrom(w, d + 1, root)
    ensures
      var r := Fields(w, d, root, a, ks, j, fuel);
      r.OutOfFuel? || r == Value(Tour(root, Hand(d + 1, |w.stages|, FieldsOrder(At(root, a), a, ks, j))))
    ensures fuel >= 2 * FieldsCost(At(root, a), ks, j) + |w.stages| ==>
      Fields(w, d, root, a, ks, j, fuel) == Value(Tour(root, Hand(d + 1, |w.stages|, FieldsOrder(At(root, a), a, ks, j))))
    decreases fuel
  {
    if j < |ks| && fuel > 0 {
      FieldRetryQuiet(w, d, root, a, ks, j, fuel - 1);
    }
  }

  lemma {:induction false} FieldRetryQuiet(w: Pipeline, d: nat, root: Node, a: seq<Key>, ks: seq<string>, j: nat, fuel: nat)
    requires At(root, a).Obj? && j < |ks| && QuietFrom(w, d + 1, root)
    ensures
      var r := FieldRetry(w, d, root, a, ks, j, fuel);
      r.OutOfFuel? || r == Value(Tour(root, Hand(d + 1, |w.stages|, FieldsOrder(At(root, a), a, ks, j))))
    ensures fuel >= 2 * FieldsCost(At(root, a), ks, j) + |w.stages| - 1 ==>
      FieldRetry(w, d, root, a, ks, j, fuel) == Value(Tour(root, Hand(d + 1, |w.stages|, FieldsOrder(At(root, a), a, ks, j))))
    decreases fuel
  {
    if fuel > 0 {
      var n := At(root, a);
      var k := ks[j];
      var sub := if k in n.fields then PostOrder(n.fields[k], a + [Name(k)]) else [];
      FieldChild(root, a, ks, j);
      WalkerQuiet(w, d, root, a + [Name(k)], fuel - 1);
      FieldsQuiet(w, d, root, a, ks, j + 1, fuel - 1);
      HandAppend(d + 1, |w.stages|, sub, FieldsOrder(n, a, ks, j + 1));
    }
  }

  /** The field `ks[j]` of the record at `a`: its node, its share of the order and of the cost. */
  lemma FieldChild(root: Node, a: seq<Key>, ks: seq<string>, j: nat)
    requires At(root, a).Obj? && j < |ks|
    ensures var n, k := At(root, a), ks[j];
      && At(root, a + [Name(k)]) == (if k in n.fields then n.fields[k] else Leaf(Undefined))
      && PostOrder(At(root, a + [Name(k)]), a + [Name(k)]) == (if k in n.fields then PostOrder(n.fields[k], a + [Name(k)]) else [])
      && FieldsOrder(n, a, ks, j) == PostOrder(At(root, a + [Name(k)]), a + [Name(k)]) + FieldsOrder(n, a, ks, j + 1)
      && FieldsCost(n, ks, j) == Cost(At(root, a + [Name(k)])) + 1 + FieldsCost(n, ks, j + 1)
  {
    AtSnoc(root, a, Name(ks[j]));
  }

  /**
   * `walker.walk(ROOT)` of a walker whose chain begins with the pass-through
   * of the empty walker and DEPTH_FIRST, when no later stage changes anything:
   * the root goes to both, and then every object and array of the tree, in
   * post-order, goes through every later stage in turn. Enough fuel for the
   * size of the tree makes the run complete.
   */
  lemma QuietWalk(w: Pipeline, root: Node, fuel: nat)
    requires 2 <= |w.stages| && w.stages[0] == Passthrough && w.stages[1] == DepthFirst
    requires QuietFrom(w, 2, root)
    ensures
      var r := Feed(w, 0, root, [], fuel);
      r.OutOfFuel? || r == Value(Run(Pass, root, [Visit(0, []), Visit(1, [])] + Hand(2, |w.stages|, PostOrder(root, []))))
    ensures fuel >= 2 * Cost(root) + |w.stages| + 2 ==>
      Feed(w, 0, root, [], fuel) == Value(Run(Pass, root, [Visit(0, []), Visit(1, [])] + Hand(2, |w.stages|, PostOrder(root, []))))
  {
    assert At(root, []) == root;
    if fuel >= 2 {
      WalkerQuiet(w, 1, root, [], fuel - 2);
      var h := Hand(2, |w.stages|, PostOrder(root, []));
      assert [Visit(0, [])] + ([Visit(1, [])] + h) == [Visit(0, []), Visit(1, [])] + h;
    }
  }
}
