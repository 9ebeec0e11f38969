/**
 * The tree being walked and rewritten: scalars, arrays and keyed records
 * (ESTree nodes are records with a `type` field). A record also carries the
 * Symbol-keyed markers the folder attaches to the nodes it builds; they are
 * not own enumerable string keys, so `Object.keys` never lists them.
 */
module Tree {
  import opened Values

  /** An array index or a record field name. */
  datatype Key = Index(i: nat) | Name(s: string)

  /** The markers `$CONSTEXPR`, `$MIN` and `$CONSTVALUE`. */
  datatype Marks = Marks(constExpr: bool, minimal: bool, constValue: Option<Prim>)

  const Unmarked := Marks(false, false, None)

  datatype Node =
    | Leaf(p: Prim)
    | Arr(elems: seq<Node>)
    | Obj(fields: map<string, Node>, marks: Marks)

  /** `n[k]`: a missing index or field reads as undefined. */
  function Child(n: Node, k: Key): (c: Node)
    ensures c != Leaf(Undefined) ==> HasChild(n, k)
  {
    match n
    case Arr(es) => if k.Index? && k.i < |es| then es[k.i] else Leaf(Undefined)
    case Obj(fs, _) => if k.Name? && k.s in fs then fs[k.s] else Leaf(Undefined)
    case Leaf(_) => Leaf(Undefined)
  }

  predicate HasChild(n: Node, k: Key) {
    (n.Arr? && k.Index? && k.i < |n.elems|) || (n.Obj? && k.Name? && k.s in n.fields)
  }

  /** Whether `n[k] = v` stores `v` (an array takes indices, a record takes names). */
  predicate Accepts(n: Node, k: Key) {
    (n.Arr? && k.Index?) || (n.Obj? && k.Name?)
  }

  /** The node reached from `n` by reading the keys of `a` one after the other. */
  function At(n: Node, a: seq<Key>): Node
    decreases |a|
  {
    if a == [] then n else At(Child(n, a[0]), a[1..])
  }

  /** Every key of `a` is present on the way down. */
  predicate Has(n: Node, a: seq<Key>)
    decreases |a|
  {
    a == [] || (HasChild(n, a[0]) && Has(Child(n, a[0]), a[1..]))
  }

  /** Every key but the last is present, and the last container accepts the last key. */
  predicate Writable(n: Node, a: seq<Key>)
    decreases |a|
  {
    a == [] || (|a| == 1 && Accepts(n, a[0])) || (|a| > 1 && HasChild(n, a[0]) && Writable(Child(n, a[0]), a[1..]))
  }

  /**
   * `n[k] = v`. Writing past the end of an array extends it (the gap reads as
   * undefined); a write an array or record does not accept changes nothing.
   */
  function Put(n: Node, k: Key, v: Node): (r: Node)
    ensures Accepts(n, k) ==> Child(r, k) == v
    ensures Accepts(n, k) ==> r.Arr? == n.Arr? && r.Obj? == n.Obj?
  {
    match n
    case Arr(es) =>
      if !k.Index? then n
      else if k.i < |es| then Arr(es[k.i := v])
      else Arr(es + seq(k.i - |es|, _ => Leaf(Undefined)) + [v])
    case Obj(fs, m) => if k.Name? then Obj(fs[k.s := v], m) else n
    case Leaf(_) => n
  }

  /** Writes `v` at address `a`; through a missing intermediate slot nothing is written. */
  function SetAt(n: Node, a: seq<Key>, v: Node): Node
    decreases |a|
  {
    if a == [] then v
    else if |a| > 1 && !HasChild(n, a[0]) then n
    else Put(n, a[0], SetAt(Child(n, a[0]), a[1..], v))
  }

  /** `es.splice(i, 1)` */
  function Splice1(es: seq<Node>, i: nat): (r: seq<Node>)
    ensures i < |es| ==> |r| == |es| - 1 && (forall j :: 0 <= j < i ==> r[j] == es[j]) && (forall j :: i <= j < |r| ==> r[j] == es[j + 1])
    ensures i >= |es| ==> r == es
  {
    if i < |es| then es[..i] + es[i + 1..] else es
  }

  lemma {:induction false} AtSnoc(n: Node, a: seq<Key>, k: Key)
    ensures At(n, a + [k]) == Child(At(n, a), k)
    decreases |a|
  {
    if a != [] {
      assert (a + [k])[1..] == a[1..] + [k];
      AtSnoc(Child(n, a[0]), a[1..], k);
    }
  }

  lemma {:induction false} AtAppend(n: Node, a: seq<Key>, b: seq<Key>)
    ensures At(n, a + b) == At(At(n, a), b)
    decreases |a|
  {
    if a == [] {
      assert a + b == b;
    } else {
      assert (a + b)[0] == a[0] && (a + b)[1..] == a[1..] + b;
      AtAppend(Child(n, a[0]), a[1..], b);
    }
  }

  /** After writing `v` at a writable address, that address holds `v`. */
  lemma {:induction false} AtSetAt(n: Node, a: seq<Key>, v: Node)
    requires Writable(n, a)
    ensures At(SetAt(n, a, v), a) == v
    decreases |a|
  {
    if |a| > 1 {
      AtSetAt(Child(n, a[0]), a[1..], v);
    }
  }

  lemma PutTwice(n: Node, k: Key, x: Node, y: Node)
    ensures Put(Put(n, k, x), k, y) == Put(n, k, y)
  {
    if n.Arr? && k.Index? && k.i >= |n.elems| {
      var pad := seq(k.i - |n.elems|, _ => Leaf(Undefined));
      assert (n.elems + pad + [x])[k.i := y] == n.elems + pad + [y];
    }
  }

  /** A second write at the same address overrides the first. */
  lemma {:induction false} SetAtTwice(n: Node, a: seq<Key>, x: Node, y: Node)
    ensures SetAt(SetAt(n, a, x), a, y) == SetAt(n, a, y)
    decreases |a|
  {
    if a == [] || (|a| > 1 && !HasChild(n, a[0])) {
    } else if |a| == 1 {
      PutTwice(n, a[0], SetAt(Child(n, a[0]), a[1..], x), SetAt(Child(n, a[0]), a[1..], y));
    } else {
      var k := a[0];
      var m := SetAt(Child(n, k), a[1..], x);
      assert HasChild(Put(n, k, m), k) && Child(Put(n, k, m), k) == m;
      SetAtTwice(Child(n, k), a[1..], x, y);
      PutTwice(n, k, m, SetAt(m, a[1..], y));
    }
  }

  /** Writing below an existing address is writing a rewritten subtree at that address. */
  lemma {:induction false} SetAtAppend(n: Node, a: seq<Key>, b: seq<Key>, v: Node)
    requires Has(n, a) && b != []
    ensures SetAt(n, a + b, v) == SetAt(n, a, SetAt(At(n, a), b, v))
    decreases |a|
  {
    if a == [] {
      assert a + b == b;
    } else {
      assert (a + b)[0] == a[0] && (a + b)[1..] == a[1..] + b && |a + b| > 1;
      SetAtAppend(Child(n, a[0]), a[1..], b, v);
    }
  }

  /** Two addresses that part ways: neither is a prefix of the other. */
  predicate Diverge(a: seq<Key>, b: seq<Key>)
    decreases |a|
  {
    |a| > 0 && |b| > 0 && (a[0] != b[0] || Diverge(a[1..], b[1..]))
  }

  lemma ChildPutOther(n: Node, k: Key, j: Key, v: Node)
    requires k != j
    ensures Child(Put(n, k, v), j) == Child(n, j)
  {
  }

  /** A write leaves every address that parts ways with it unchanged. */
  lemma {:induction false} SetAtDiverge(n: Node, a: seq<Key>, b: seq<Key>, v: Node)
    requires Diverge(a, b)
    ensures At(SetAt(n, a, v), b) == At(n, b)
    decreases |a|
  {
    if |a| > 1 && !HasChild(n, a[0]) {
    } else if a[0] != b[0] {
      ChildPutOther(n, a[0], b[0], SetAt(Child(n, a[0]), a[1..], v));
    } else {
      SetAtDiverge(Child(n, a[0]), a[1..], b[1..], v);
    }
  }

  /** Reading through a missing key gives undefined. */
  lemma {:induction false} AtMissing(n: Node, a: seq<Key>)
    requires !Has(n, a)
    ensures At(n, a) == Leaf(Undefined)
    decreases |a|
  {
    if HasChild(n, a[0]) {
      AtMissing(Child(n, a[0]), a[1..]);
    } else {
      AtOfLeaf(a[1..]);
    }
  }

  lemma {:induction false} AtOfLeaf(a: seq<Key>)
    ensures At(Leaf(Undefined), a) == Leaf(Undefined)
    decreases |a|
  {
    if a != [] {
      AtOfLeaf(a[1..]);
    }
  }

  /** A container held at an address: every key on the way exists. */
  lemma HasOfContainer(n: Node, a: seq<Key>)
    requires !At(n, a).Leaf?
    ensures Has(n, a)
  {
    if !Has(n, a) {
      AtMissing(n, a);
    }
  }

  /** Writing key `k` of the container at `a` is writing at `a + [k]`. */
  lemma {:induction false} SetAtSlot(n: Node, a: seq<Key>, k: Key, v: Node)
    requires Has(n, a)
    ensures SetAt(n, a + [k], v) == SetAt(n, a, Put(At(n, a), k, v))
  {
    SetAtAppend(n, a, [k], v);
  }

  lemma {:induction false} HasIsWritable(n: Node, a: seq<Key>)
    requires Has(n, a)
    ensures Writable(n, a)
    decreases |a|
  {
    if |a| > 1 {
      HasIsWritable(Child(n, a[0]), a[1..]);
    }
  }

  /** Replacing the container at `a` with `w`: `a` then holds `w`. */
  lemma WriteContainer(n: Node, a: seq<Key>, w: Node)
    requires !At(n, a).Leaf?
    ensures At(SetAt(n, a, w), a) == w
  {
    HasOfContainer(n, a);
    HasIsWritable(n, a);
    AtSetAt(n, a, w);
  }

  /** Writing slot `k` of the container at `a`: the container becomes `Put(container, k, v)`. */
  lemma WriteSlot(n: Node, a: seq<Key>, k: Key, v: Node)
    requires !At(n, a).Leaf?
    ensures SetAt(n, a + [k], v) == SetAt(n, a, Put(At(n, a), k, v))
    ensures At(SetAt(n, a + [k], v), a) == Put(At(n, a), k, v)
  {
    HasOfContainer(n, a);
    SetAtSlot(n, a, k, v);
    WriteContainer(n, a, Put(At(n, a), k, v));
  }

  /** `Has` of a longer address includes the shorter one. */
  lemma {:induction false} HasPrefix(n: Node, a: seq<Key>, b: seq<Key>)
    requires Has(n, a + b)
    ensures Has(n, a)
    decreases |a|
  {
    if a != [] {
      assert (a + b)[0] == a[0] && (a + b)[1..] == a[1..] + b;
      HasPrefix(Child(n, a[0]), a[1..], b);
    }
  }

  // ---- ESTree access -------------------------------------------------------

  /** `n.name` */
  function Field(n: Node, name: string): Node {
    Child(n, Name(name))
  }

  /** `n.type`, or "" when it is missing or not a string (no ESTree type is ""). */
  function TypeName(n: Node): string {
    var t := Field(n, "type");
    if t.Leaf? && t.p.Str? then t.p.s else ""
  }

  /** JavaScript truthiness of a slot's content: objects and arrays are truthy. */
  predicate NodeTruthy(n: Node) {
    !n.Leaf? || Truthy(Primitive(n.p))
  }

  /** A record built by the folder with no markers. */
  function Record(fields: map<string, Node>): Node {
    Obj(fields, Unmarked)
  }

  function StrLeaf(s: string): Node {
    Leaf(Str(s))
  }

  /** Storing a child back into its own slot changes nothing. */
  lemma PutOwn(n: Node, k: Key)
    requires HasChild(n, k)
    ensures Put(n, k, Child(n, k)) == n
  {
    if n.Arr? {
      assert n.elems[k.i := n.elems[k.i]] == n.elems;
    } else {
      assert n.fields[k.s := n.fields[k.s]] == n.fields;
    }
  }

  /** Writing back what is there changes nothing. */
  lemma {:induction false} SetAtOwn(n: Node, a: seq<Key>)
    requires !At(n, a).Leaf?
    ensures SetAt(n, a, At(n, a)) == n
    decreases |a|
  {
    if a != [] {
      HasOfContainer(n, a);
      var c := Child(n, a[0]);
      assert At(n, a) == At(c, a[1..]);
      SetAtOwn(c, a[1..]);
      PutOwn(n, a[0]);
    }
  }
}
