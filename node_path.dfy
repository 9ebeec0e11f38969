/**
 * NodePath: an address of a node inside the tree, made of the node, the path
 * of its parent and the key that reaches it from the parent.
 */
module NodePaths {
  import opened Values
  import opened Tree

  datatype NodePath = NodePath(parent: Option<NodePath>, node: Node, key: Option<Key>)

  /** A constructor argument that may be left out (passing undefined counts as leaving it out). */
  datatype Arg<T> = Omitted | Given(value: T)

  /** `new NodePath(parent, node, key)` */
  function New(parent: Arg<Option<NodePath>>, node: Node, key: Arg<Option<Key>>): (r: NodePath)
    ensures r.node == node
    ensures parent.Omitted? ==> r.parent.None?
    ensures key.Omitted? ==> r.key.None?
    ensures parent.Given? ==> r.parent == parent.value
    ensures key.Given? ==> r.key == key.value
  {
    NodePath(if parent.Given? then parent.value else None, node, if key.Given? then key.value else None)
  }

  /** `NodePath.from(node)`: the path of a root. */
  function From(node: Node): (r: NodePath)
    ensures r.node == node && r.parent.None? && r.key.None?
    ensures r == New(Omitted, node, Omitted)
  {
    NodePath(None, node, None)
  }

  /**
   * What `get(keys)` returns: one fresh path per key, each the child of the
   * previous one, holding the previous node's `[key]` read at call time.
   */
  function Descend(p: NodePath, keys: seq<Key>): NodePath
    decreases |keys|
  {
    if keys == [] then p
    else
      var q := Descend(p, keys[..|keys| - 1]);
      var k := keys[|keys| - 1];
      NodePath(Some(q), Child(q.node, k), Some(k))
  }

  /** `path.get(keys)` */
  method Get(p: NodePath, keys: seq<Key>) returns (r: NodePath)
    ensures r == Descend(p, keys)
    ensures keys == [] ==> r == p
    ensures keys != [] ==> r.key == Some(keys[|keys| - 1]) && r.parent.Some?
  {
    var needle := p;
    for j := 0 to |keys|
      invariant needle == Descend(p, keys[..j])
    {
      assert keys[..j + 1][..j] == keys[..j];
      needle := New(Given(Some(needle)), Child(needle.node, keys[j]), Given(Some(keys[j])));
    }
    assert keys[..|keys|] == keys;
    r := needle;
  }

  /** The `n`-th ancestor of `q` (0 is `q` itself). */
  function Up(q: NodePath, n: nat): Option<NodePath>
    decreases n
  {
    if n == 0 then Some(q)
    else if q.parent.None? then None
    else Up(q.parent.value, n - 1)
  }

  /** The keys from the root of `p`'s chain down to `p` (a key-less step adds none). */
  function Address(p: NodePath): seq<Key>
    decreases p
  {
    match p.parent
    case None => []
    case Some(q) => Address(q) + (if p.key.Some? then [p.key.value] else [])
  }

  /** The number of ancestors of `p`. */
  function Depth(p: NodePath): nat
    decreases p
  {
    if p.parent.None? then 0 else 1 + Depth(p.parent.value)
  }

  /** The path `get` builds from the root of `root` along `a`. */
  function PathTo(root: Node, a: seq<Key>): NodePath {
    Descend(From(root), a)
  }

  /** Step `j` of `get(keys)` has key `keys[j]`, the previous step as parent and that step's node `[keys[j]]`. */
  lemma DescendStep(p: NodePath, keys: seq<Key>, j: nat)
    requires j < |keys|
    ensures Descend(p, keys[..j + 1]) == NodePath(Some(Descend(p, keys[..j])), Child(Descend(p, keys[..j]).node, keys[j]), Some(keys[j]))
  {
    assert keys[..j + 1][..j] == keys[..j];
  }

  /** Walking up `|keys| - j` parents from the result of `get(keys)` gives step `j`; the last step up reaches the receiver. */
  lemma {:induction false} DescendAncestors(p: NodePath, keys: seq<Key>, j: nat)
    requires j <= |keys|
    ensures Up(Descend(p, keys), |keys| - j) == Some(Descend(p, keys[..j]))
    decreases |keys|
  {
    if j == |keys| {
      assert keys[..j] == keys;
    } else {
      var pre := keys[..|keys| - 1];
      assert pre[..j] == keys[..j];
      DescendAncestors(p, pre, j);
    }
  }

  /** The node of `get(keys)` is the receiver's node read along `keys`. */
  lemma {:induction false} DescendNode(p: NodePath, keys: seq<Key>)
    ensures Descend(p, keys).node == At(p.node, keys)
    decreases |keys|
  {
    if keys != [] {
      var pre, k := keys[..|keys| - 1], keys[|keys| - 1];
      DescendNode(p, pre);
      AtSnoc(p.node, pre, k);
      assert pre + [k] == keys;
    }
  }

  /** `get(a ++ b)` is `get(a).get(b)`. */
  lemma {:induction false} DescendAppend(p: NodePath, a: seq<Key>, b: seq<Key>)
    ensures Descend(p, a + b) == Descend(Descend(p, a), b)
    decreases |b|
  {
    if b == [] {
      assert a + b == a;
    } else {
      var pre := b[..|b| - 1];
      assert (a + b)[..|a + b| - 1] == a + pre;
      DescendAppend(p, a, pre);
    }
  }

  /** The address of `get(keys)` extends the receiver's address by `keys`. */
  lemma {:induction false} DescendAddress(p: NodePath, keys: seq<Key>)
    ensures Address(Descend(p, keys)) == Address(p) + keys
    decreases |keys|
  {
    if keys == [] {
      assert Address(p) + keys == Address(p);
    } else {
      var pre := keys[..|keys| - 1];
      DescendAddress(p, pre);
      assert Address(p) + pre + [keys[|keys| - 1]] == Address(p) + keys;
    }
  }

  /** A path re-derived from the live root at address `a` has address `a` and holds the node at `a`. */
  lemma PathToAt(root: Node, a: seq<Key>)
    ensures Address(PathTo(root, a)) == a
    ensures PathTo(root, a).node == At(root, a)
    ensures a == [] ==> PathTo(root, a).parent.None?
    ensures a != [] ==> PathTo(root, a).parent == Some(PathTo(root, a[..|a| - 1])) && PathTo(root, a).key == Some(a[|a| - 1])
  {
    DescendAddress(From(root), a);
    DescendNode(From(root), a);
  }
}
