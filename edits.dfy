/**
 * The state the folding rules share and the edits they make to it: the tree
 * being folded (held by the root path `ROOT`), the interning map `CONSTEXPRS`,
 * TO_CONSTEXPR on that map, and the tree edits REMOVE, REPLACE and their
 * `_IF_EMPTY` forms. Every write goes through the live tree at an address, so
 * that a path read from the tree afterwards sees it, as an object reference
 * would.
 */
module Edits {
  import opened Values
  import opened Tree
  import opened ConstModel
  import ConstLemmas
  import opened NodePaths
  import opened Shapes

  /** The property a write through `path.key` uses: a null key is the property "null". */
  function KeyOf(key: Option<Key>): Key {
    if key.Some? then key.value else Name("null")
  }

  /** The slot `path.parent.node[path.key]`. */
  function SlotAddress(p: NodePath): seq<Key>
    requires p.parent.Some?
  {
    Address(p.parent.value) + [KeyOf(p.key)]
  }

  /** `splice(key, 1)` converts a key that is not an index to 0. */
  function SpliceStart(key: Option<Key>): nat {
    if key.Some? && key.value.Index? then key.value.i else 0
  }

  /** What REMOVE leaves at the parent: the element cut out of an array, or the slot set to null. */
  function Removed(parent: Node, key: Option<Key>): Node {
    if parent.Arr? then Arr(Splice1(parent.elems, SpliceStart(key))) else Put(parent, KeyOf(key), Leaf(Null))
  }

  /** IS_EMPTY as evaluated: reading `.type` of undefined or null, or `.body.length` of a missing body, throws. */
  function EmptyCheck(n: Node): Result<bool> {
    if n == Leaf(Undefined) || n == Leaf(Null) then Err(TypeError)
    else if TypeName(n) == "BlockStatement" && (Field(n, "body") == Leaf(Undefined) || Field(n, "body") == Leaf(Null)) then Err(TypeError)
    else Ok(IsEmpty(n))
  }

  // ---- the edits on the tree --------------------------------------------------

  /**
   * The tree after `REPLACE(path, folded)`. Reading through a missing parent
   * and writing a property of a primitive (strict mode) throw.
   */
  function ReplaceTree(root: Node, p: NodePath, folded: Node): Result<Node> {
    if p.parent.None? || At(root, Address(p.parent.value)).Leaf? then Err(TypeError)
    else Ok(SetAt(root, SlotAddress(p), folded))
  }

  /** The tree after `REMOVE(path)`. */
  function RemoveTree(root: Node, p: NodePath): Result<Node> {
    if p.parent.None? || At(root, Address(p.parent.value)).Leaf? then Err(TypeError)
    else Ok(SetAt(root, Address(p.parent.value), Removed(At(root, Address(p.parent.value)), p.key)))
  }

  /** The tree after `REMOVE_IF_EMPTY(path)`. */
  function RemoveIfEmptyTree(root: Node, p: NodePath): Result<Node> {
    var e :- EmptyCheck(p.node);
    if e then RemoveTree(root, p) else Ok(root)
  }

  /** The path `REPLACE(path, folded)` returns. */
  function Replacement(p: NodePath, folded: Node): NodePath {
    NodePath(p.parent, folded, p.key)
  }

  /** The tree after `REPLACE_IF_EMPTY(path, folded)`. */
  function ReplaceIfEmptyTree(root: Node, p: NodePath, folded: Node): Result<Node> {
    var e :- EmptyCheck(p.node);
    if e then ReplaceTree(root, p, folded) else Ok(root)
  }

  /** `path.get([name])` */
  function Sub(p: NodePath, name: string): NodePath {
    NodePath(Some(p), Field(p.node, name), Some(Name(name)))
  }

  lemma SubIsGet(p: NodePath, name: string)
    ensures Descend(p, [Name(name)]) == Sub(p, name)
  {
    assert [Name(name)][..0] == [];
  }

  // ---- what a stage does ------------------------------------------------------

  /**
   * A folding stage either yields the path on to the next stage (`return
   * yield path`) or returns a command to the stage before it without yielding.
   */
  datatype Stage = Pass | Fire(cmd: Option<NodePath>)

  /** A stage's decision and the tree it leaves behind. */
  datatype Step = Step(stage: Stage, root: Node)

  /**
   * A stage method's outcome agrees with its specification: the same
   * exception, or the same decision and tree. (The tree a stage leaves when it
   * throws is not specified: the exception ends the walk.)
   */
  predicate Agrees(r: Result<Stage>, root: Node, s: Result<Step>) {
    match s
    case Err(e) => r == Err(e)
    case Ok(st) => r == Ok(st.stage) && root == st.root
  }

  /** `return REPLACE(path, folded)` */
  function Replaced(root: Node, p: NodePath, folded: Node): Result<Step> {
    var t :- ReplaceTree(root, p, folded);
    Ok(Step(Fire(Some(Replacement(p, folded))), t))
  }

  /** The node carries a marker of the folder; every such node was built with `Object.freeze`. */
  predicate Marked(n: Node) {
    n.Obj? && (n.marks.constExpr || n.marks.minimal)
  }

  /**
   * The node of `q` is frozen: it or a node above it carries a marker. The
   * nodes the folder builds (the sentinels, the nodes of TO_CONSTEXPR and the
   * minifier's `!0` and `!1`) are frozen with everything inside them, the
   * `elements` array of a built array expression included.
   */
  predicate Frozen(q: NodePath)
    decreases q
  {
    Marked(q.node) || (q.parent.Some? && Frozen(q.parent.value))
  }

  /** REPLACE as written: under 'use strict' the assignment into a frozen parent throws a TypeError. */
  function ReplacedAsWritten(root: Node, p: NodePath, folded: Node): Result<Step> {
    if p.parent.Some? && Frozen(p.parent.value) then Err(TypeError) else Replaced(root, p, folded)
  }

  /** `return REPLACE(path, TO_CONSTEXPR(value))` */
  function ReplacedConst(root: Node, p: NodePath, value: Value): Result<Step> {
    var c :- ConstModel.ToConstExpr(value);
    Replaced(root, p, c)
  }

  class Folder {
    /** The node of the root path. */
    var root: Node
    /** `CONSTEXPRS` */
    var constexprs: map<Prim, Node>
    /** The engine semantics the folding of operators relies on. */
    const host: Host

    /** The interning map holds the three preset entries and, for every key, the node interned for it. */
    ghost predicate Valid()
      reads this
    {
      InitialConstExprs.Keys <= constexprs.Keys
      && forall p :: p in constexprs ==> p != NegZero && constexprs[p] == Interned(p)
    }

    constructor (tree: Node, host: Host)
      ensures Valid()
      ensures root == tree && constexprs == InitialConstExprs && this.host == host
    {
      root := tree;
      constexprs := InitialConstExprs;
      this.host := host;
    }

    /** `TO_CONSTEXPR(value)`, interning each primitive it has not seen yet. */
    method ToConstExpr(v: Value) returns (r: Result<Node>)
      requires Valid()
      modifies this`constexprs
      ensures Valid()
      ensures r == ConstModel.ToConstExpr(v)
      ensures old(constexprs).Keys <= constexprs.Keys
      ensures v.Primitive? && v.p != NegZero ==> v.p in constexprs
      decreases v
    {
      match v
      case Primitive(p) =>
        if p == NegZero {
          return Ok(NEG_ZERO);
        }
        if p in constexprs {
          return Ok(constexprs[p]);
        }
        var node := Interned(p);
        constexprs := constexprs[p := node];
        return Ok(node);
      case Array(es) =>
        var nodes: seq<Node> := [];
        for i := 0 to |es|
          invariant Valid() && old(constexprs).Keys <= constexprs.Keys
          invariant ConstModel.ToConstExprs(es[..i]) == Ok(nodes)
        {
          var e := es[i];
          assert e in es;
          var c: Result<Node>;
          match e {
            case None =>
              c := Ok(Leaf(Null));
            case Some(x) =>
              assert x < e;
              c := ToConstExpr(x);
          }
          assert c == ToConstExprElem(e);
          if c.Err? {
            ConstLemmas.ToConstExprsStopsAt(es, i);
            return Err(c.error);
          }
          ConstLemmas.ToConstExprsSnoc(es[..i], e);
          assert es[..i + 1] == es[..i] + [e];
          nodes := nodes + [c.value];
        }
        assert es[..|es|] == es;
        return Ok(Obj(map["type" := StrLeaf("ArrayExpression"), "elements" := Arr(nodes)], ConstMarked));
      case RegExp(_, _) =>
        return Err(NotAConstValue);
    }

    /** `REMOVE(path)`: cut the element out of an array parent, or set the parent's slot to null. */
    method Remove(p: NodePath) returns (r: Result<()>)
      modifies this`root
      ensures RemoveTree(old(root), p).Err? ==> r == Err(TypeError) && root == old(root)
      ensures RemoveTree(old(root), p).Ok? ==> r == Ok(()) && root == RemoveTree(old(root), p).value
    {
      if p.parent.None? {
        return Err(TypeError);
      }
      var pa := Address(p.parent.value);
      var parent := At(root, pa);
      if parent.Leaf? {
        return Err(TypeError);
      }
      root := SetAt(root, pa, Removed(parent, p.key));
      return Ok(());
    }

    /** `REPLACE(path, folded)`: write `folded` into the parent's slot and return a path to it. */
    method Replace(p: NodePath, folded: Node) returns (r: Result<NodePath>)
      modifies this`root
      ensures ReplaceTree(old(root), p, folded).Err? ==> r == Err(TypeError) && root == old(root)
      ensures ReplaceTree(old(root), p, folded).Ok? ==>
        r == Ok(Replacement(p, folded)) && root == ReplaceTree(old(root), p, folded).value
    {
      if p.parent.None? {
        return Err(TypeError);
      }
      var pa := Address(p.parent.value);
      var parent := At(root, pa);
      if parent.Leaf? {
        return Err(TypeError);
      }
      var replacement := New(Given(p.parent), folded, Given(p.key));
      HasOfContainer(root, pa);
      SetAtSlot(root, pa, KeyOf(p.key), folded);
      root := SetAt(root, pa, Put(parent, KeyOf(p.key), folded));
      return Ok(replacement);
    }

    /** `REMOVE_IF_EMPTY(path)`: null unless IS_EMPTY or REMOVE throws. */
    method RemoveIfEmpty(p: NodePath) returns (r: Result<()>)
      modifies this`root
      ensures RemoveIfEmptyTree(old(root), p).Err? ==> r == Err(RemoveIfEmptyTree(old(root), p).error) && root == old(root)
      ensures RemoveIfEmptyTree(old(root), p).Ok? ==> r == Ok(()) && root == RemoveIfEmptyTree(old(root), p).value
    {
      var e :- EmptyCheck(p.node);
      if e {
        var removed :- Remove(p);
      }
      return Ok(());
    }

    /** `REPLACE_IF_EMPTY(path, folded)`: the replacement path if IS_EMPTY, else `path` itself. */
    method ReplaceIfEmpty(p: NodePath, folded: Node) returns (r: Result<NodePath>)
      modifies this`root
      ensures ReplaceIfEmptyTree(old(root), p, folded).Err? ==> r == Err(ReplaceIfEmptyTree(old(root), p, folded).error) && root == old(root)
      ensures ReplaceIfEmptyTree(old(root), p, folded).Ok? ==> r.Ok? && root == ReplaceIfEmptyTree(old(root), p, folded).value
      ensures r.Ok? ==> r.value == if EmptyCheck(p.node) == Ok(true) then Replacement(p, folded) else p
    {
      var e :- EmptyCheck(p.node);
      if e {
        r := Replace(p, folded);
      } else {
        r := Ok(p);
      }
    }
  }

  /**
   * A path the live tree gives, below the root: its address is its parent's
   * plus its key, so REPLACE writes exactly at its address, and its parent is
   * a live path whose node holds it.
   */
  lemma LiveParent(root: Node, a: seq<Key>, p: NodePath)
    requires p == PathTo(root, a) && p.parent.Some?
    ensures p.key.Some? && a == Address(p.parent.value) + [p.key.value]
    ensures SlotAddress(p) == a
    ensures p.parent.value == PathTo(root, Address(p.parent.value))
    ensures p.parent.value.node == At(root, Address(p.parent.value))
    ensures p.node == Child(p.parent.value.node, p.key.value)
  {
    PathToAt(root, a);
    var pre := a[..|a| - 1];
    PathToAt(root, pre);
    assert a == pre + [a[|a| - 1]];
  }

  /**
   * REPLACE on a live path that holds something: it fails only at the root;
   * otherwise the path's address holds the folded node and every address that
   * parts ways with it is unchanged.
   */
  lemma ReplaceLands(root: Node, a: seq<Key>, p: NodePath, folded: Node, b: seq<Key>)
    requires p == PathTo(root, a) && p.node != Leaf(Undefined)
    ensures ReplaceTree(root, p, folded).Ok? <==> p.parent.Some?
    ensures ReplaceTree(root, p, folded).Ok? ==>
      ReplaceTree(root, p, folded).value == SetAt(root, a, folded)
      && At(ReplaceTree(root, p, folded).value, a) == folded
      && (Diverge(a, b) ==> At(ReplaceTree(root, p, folded).value, b) == At(root, b))
  {
    PathToAt(root, a);
    if p.parent.Some? {
      LiveParent(root, a, p);
      var pa := Address(p.parent.value);
      WriteSlot(root, pa, p.key.value, folded);
      AtSnoc(SetAt(root, a, folded), pa, p.key.value);
      if Diverge(a, b) {
        SetAtDiverge(root, a, b, folded);
      }
    } else {
    }
  }

  /** Writing field `name` of the record at a live path changes that record's field and nothing else at the path. */
  lemma WriteField(root: Node, a: seq<Key>, p: NodePath, name: string, v: Node)
    requires p == PathTo(root, a) && p.node.Obj?
    ensures ReplaceTree(root, Sub(p, name), v) == Ok(SetAt(root, a + [Name(name)], v))
    ensures At(SetAt(root, a + [Name(name)], v), a) == Put(p.node, Name(name), v)
  {
    PathToAt(root, a);
    WriteSlot(root, a, Name(name), v);
  }

  /** REMOVE on a live path inside an array cuts out exactly that element. */
  lemma RemoveFromArray(root: Node, a: seq<Key>, p: NodePath)
    requires p == PathTo(root, a) && p.parent.Some? && p.parent.value.node.Arr? && p.node != Leaf(Undefined)
    ensures p.key.Some? && p.key.value.Index?
    ensures RemoveTree(root, p) == Ok(SetAt(root, Address(p.parent.value), Arr(Splice1(p.parent.value.node.elems, p.key.value.i))))
    ensures At(RemoveTree(root, p).value, Address(p.parent.value)) == Arr(Splice1(p.parent.value.node.elems, p.key.value.i))
  {
    PathToAt(root, a);
    LiveParent(root, a, p);
    assert p.key == Some(a[|a| - 1]);
    var pa := Address(p.parent.value);
    assert Child(At(root, pa), p.key.value) == p.node;
    WriteContainer(root, pa, Removed(At(root, pa), p.key));
  }

  /**
   * REPLACE after an in-place change of the node at a live path behaves as on
   * the tree before the change: it writes over that same slot.
   */
  lemma ReplaceAfterWrite(root: Node, a: seq<Key>, p: NodePath, w: Node, folded: Node)
    requires p == PathTo(root, a) && !p.node.Leaf?
    ensures ReplaceTree(SetAt(root, a, w), p, folded) == ReplaceTree(root, p, folded)
  {
    PathToAt(root, a);
    if p.parent.Some? {
      LiveParent(root, a, p);
      var pa := Address(p.parent.value);
      WriteSlot(root, pa, p.key.value, w);
      SetAtTwice(root, a, w, folded);
    }
  }

  /**
   * Two field writes into the record at a live path, the second through
   * `path.get([name])`, amount to writing the twice-updated record at the path.
   */
  lemma WriteTwoFields(root: Node, a: seq<Key>, p: NodePath, f1: string, v1: Node, f2: string, v2: Node)
    requires p == PathTo(root, a) && p.node.Obj?
    ensures var t1 := SetAt(root, a + [Name(f1)], v1);
      ReplaceTree(t1, Sub(p, f2), v2) == Ok(SetAt(t1, a + [Name(f2)], v2))
      && SetAt(t1, a + [Name(f2)], v2) == SetAt(root, a, Put(Put(p.node, Name(f1), v1), Name(f2), v2))
  {
    PathToAt(root, a);
    WriteSlot(root, a, Name(f1), v1);
    var t1 := SetAt(root, a + [Name(f1)], v1);
    var n1 := Put(p.node, Name(f1), v1);
    WriteSlot(t1, a, Name(f2), v2);
    SetAtTwice(root, a, n1, Put(n1, Name(f2), v2));
  }

  /** `m` is what the tree `t`, got from `root` by writing at `a`, holds there. */
  predicate WrittenAt(t: Node, root: Node, a: seq<Key>, m: Node) {
    t == SetAt(root, a, m) && At(t, a) == m && m.Obj?
  }

  /** A field write through `path.get([name])` onto a record written at the path's address. */
  lemma WriteThrough(root: Node, t: Node, p: NodePath, m: Node, name: string, v: Node)
    requires WrittenAt(t, root, Address(p), m)
    ensures ReplaceTree(t, Sub(p, name), v) == Ok(SetAt(root, Address(p), Put(m, Name(name), v)))
    ensures WrittenAt(SetAt(root, Address(p), Put(m, Name(name), v)), root, Address(p), Put(m, Name(name), v))
  {
    var a := Address(p);
    WriteSlot(t, a, Name(name), v);
    SetAtTwice(root, a, m, Put(m, Name(name), v));
  }

  /** REMOVE through `path.get([name])` on a record written at the path's address sets that field to null. */
  lemma RemoveThrough(root: Node, t: Node, p: NodePath, m: Node, name: string)
    requires WrittenAt(t, root, Address(p), m)
    ensures RemoveTree(t, Sub(p, name)) == Ok(SetAt(root, Address(p), Put(m, Name(name), Leaf(Null))))
    ensures WrittenAt(SetAt(root, Address(p), Put(m, Name(name), Leaf(Null))), root, Address(p), Put(m, Name(name), Leaf(Null)))
  {
    WriteThrough(root, t, p, m, name, Leaf(Null));
    SetAtTwice(root, Address(p), m, Put(m, Name(name), Leaf(Null)));
  }
}
