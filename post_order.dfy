/**
 * The order in which DEPTH_FIRST hands on the objects and arrays of a tree, as
 * a reference definition: every address at which the tree holds an object or
 * an array appears once, after every address below it; the elements of an
 * array come by index and the fields of a record by sorted key.
 */
module PostOrders {
  import opened Values
  import opened Tree
  import opened Walk

  /**
   * The addresses of every object and array of `n`, which sits at address
   * `a`, children first: array elements by index, record fields by sorted key.
   */
  function PostOrder(n: Node, a: seq<Key>): seq<seq<Key>>
    decreases n, 1
  {
    match n
    case Leaf(_) => []
    case Arr(_) => ElementsOrder(n, a, 0) + [a]
    case Obj(fs, _) => FieldsOrder(n, a, SortedKeys(fs.Keys), 0) + [a]
  }

  function ElementsOrder(n: Node, a: seq<Key>, j: nat): seq<seq<Key>>
    requires n.Arr?
    decreases n, 0, |n.elems| - j
  {
    if |n.elems| <= j then [] else PostOrder(n.elems[j], a + [Index(j)]) + ElementsOrder(n, a, j + 1)
  }

  function FieldsOrder(n: Node, a: seq<Key>, ks: seq<string>, j: nat): seq<seq<Key>>
    requires n.Obj?
    decreases n, 0, |ks| - j
  {
    if |ks| <= j then []
    else (if ks[j] in n.fields then PostOrder(n.fields[ks[j]], a + [Name(ks[j])]) else []) + FieldsOrder(n, a, ks, j + 1)
  }

  /** `b` is `a` or lies below it, and the tree `n` at `a` holds an object or array at `b`. */
  predicate Holds(n: Node, a: seq<Key>, b: seq<Key>) {
    a <= b && !At(n, b[|a|..]).Leaf?
  }

  /** `b` lies strictly below `a`, and the tree `n` at `a` holds an object or array at `b`. */
  predicate Below(n: Node, a: seq<Key>, b: seq<Key>) {
    |a| < |b| && Holds(n, a, b)
  }

  /** No address is followed by itself or by an address below it. */
  predicate PostOrdered(s: seq<seq<Key>>) {
    forall i, j :: 0 <= i < j < |s| ==> !(s[i] <= s[j])
  }

  lemma {:induction false} LeafBelow(p: Prim, c: seq<Key>)
    ensures At(Leaf(p), c).Leaf?
  {
    if c != [] {
      AtOfLeaf(c[1..]);
    }
  }

  /** Reading below `a` goes through the child at the first key after `a`. */
  lemma StepBelow(n: Node, a: seq<Key>, b: seq<Key>)
    requires a <= b && |a| < |b|
    ensures At(n, b[|a|..]) == At(Child(n, b[|a|]), b[|a| + 1..])
  {
    assert b[|a|..][0] == b[|a|] && b[|a|..][1..] == b[|a| + 1..];
  }

  /** The addresses PostOrder lists are exactly those at which the tree holds an object or array. */
  lemma {:induction false} OrderMembers(n: Node, a: seq<Key>)
    ensures forall b: seq<Key> :: b in PostOrder(n, a) <==> Holds(n, a, b)
    decreases n, 1
  {
    match n
    case Leaf(p) =>
      forall b: seq<Key> | a <= b ensures !Holds(n, a, b) {
        LeafBelow(p, b[|a|..]);
      }
    case Arr(es) =>
      ElementsMembers(n, a, 0);
      forall b: seq<Key> | Below(n, a, b)
        ensures b[|a|].Index?
      {
        StepBelow(n, a, b);
        if !b[|a|].Index? {
          AtOfLeaf(b[|a| + 1..]);
        }
      }
      forall b: seq<Key> ensures b in PostOrder(n, a) <==> Holds(n, a, b) {
        if b == a {
          assert b[|a|..] == [];
        }
        if Holds(n, a, b) && b != a {
          assert |a| < |b|;
        }
      }
    case Obj(fs, _) =>
      var ks := SortedKeys(fs.Keys);
      SortedKeysMeaning(fs.Keys);
      FieldsMembers(n, a, ks, 0);
      forall b: seq<Key> | Below(n, a, b)
        ensures b[|a|].Name? && b[|a|].s in ks[0..]
      {
        StepBelow(n, a, b);
        if !b[|a|].Name? || b[|a|].s !in fs {
          AtOfLeaf(b[|a| + 1..]);
        }
        assert ks[0..] == ks;
      }
      forall b: seq<Key> ensures b in PostOrder(n, a) <==> Holds(n, a, b) {
        if b == a {
          assert b[|a|..] == [];
        }
        if Holds(n, a, b) && b != a {
          assert |a| < |b|;
        }
      }
  }

  lemma {:induction false} ElementsMembers(n: Node, a: seq<Key>, j: nat)
    requires n.Arr?
    ensures forall b: seq<Key> :: b in ElementsOrder(n, a, j) <==> Below(n, a, b) && b[|a|].Index? && j <= b[|a|].i
    decreases n, 0, |n.elems| - j
  {
    if |n.elems| <= j {
      forall b: seq<Key> | Below(n, a, b) && b[|a|].Index? && j <= b[|a|].i
        ensures false
      {
        StepBelow(n, a, b);
        AtOfLeaf(b[|a| + 1..]);
      }
    } else {
      var c := a + [Index(j)];
      OrderMembers(n.elems[j], c);
      ElementsMembers(n, a, j + 1);
      forall b: seq<Key>
        ensures b in PostOrder(n.elems[j], c) <==> Below(n, a, b) && b[|a|] == Index(j)
      {
        if a <= b && |a| < |b| {
          StepBelow(n, a, b);
          assert (c <= b) == (b[|a|] == Index(j));
          if c <= b {
            assert b[|c|..] == b[|a| + 1..];
          }
        }
      }
    }
  }

  lemma {:induction false} FieldsMembers(n: Node, a: seq<Key>, ks: seq<string>, j: nat)
    requires n.Obj? && j <= |ks|
    ensures forall b: seq<Key> :: b in FieldsOrder(n, a, ks, j) <==> Below(n, a, b) && b[|a|].Name? && b[|a|].s in ks[j..]
    decreases n, 0, |ks| - j
  {
    if |ks| <= j {
      assert ks[j..] == [];
    } else {
      var k := ks[j];
      var c := a + [Name(k)];
      var sub := if k in n.fields then PostOrder(n.fields[k], c) else [];
      if k in n.fields {
        OrderMembers(n.fields[k], c);
      }
      FieldsMembers(n, a, ks, j + 1);
      assert ks[j..] == [k] + ks[j + 1..];
      forall b: seq<Key>
        ensures b in sub <==> Below(n, a, b) && b[|a|] == Name(k)
      {
        if a <= b && |a| < |b| {
          StepBelow(n, a, b);
          assert (c <= b) == (b[|a|] == Name(k));
          if c <= b {
            assert b[|c|..] == b[|a| + 1..];
            if k !in n.fields {
              AtOfLeaf(b[|a| + 1..]);
            }
          }
        }
      }
    }
  }

  lemma PostOrderedAppend(s: seq<seq<Key>>, t: seq<seq<Key>>)
    requires PostOrdered(s) && PostOrdered(t)
    requires forall i, k :: 0 <= i < |s| && 0 <= k < |t| ==> !(s[i] <= t[k])
    ensures PostOrdered(s + t)
  {
    forall i, j | 0 <= i < j < |s + t|
      ensures !((s + t)[i] <= (s + t)[j])
    {
      if j < |s| {
        assert (s + t)[i] == s[i] && (s + t)[j] == s[j];
      } else if |s| <= i {
        assert (s + t)[i] == t[i - |s|] && (s + t)[j] == t[j - |s|];
      } else {
        assert (s + t)[i] == s[i] && (s + t)[j] == t[j - |s|];
      }
    }
  }

  /** PostOrder lists no address twice and every address after all the addresses below it. */
  lemma {:induction false} OrderPost(n: Node, a: seq<Key>)
    ensures PostOrdered(PostOrder(n, a))
    decreases n, 1
  {
    match n
    case Leaf(_) =>
    case Arr(_) =>
      ElementsPost(n, a, 0);
      ElementsMembers(n, a, 0);
      var sub := ElementsOrder(n, a, 0);
      forall p, q | 0 <= p < |sub| && 0 <= q < |[a]|
        ensures !(sub[p] <= [a][q])
      {
        assert sub[p] in sub;
      }
      PostOrderedAppend(sub, [a]);
    case Obj(fs, _) =>
      var ks := SortedKeys(fs.Keys);
      SortedKeysMeaning(fs.Keys);
      FieldsPost(n, a, ks, 0);
      FieldsMembers(n, a, ks, 0);
      var sub := FieldsOrder(n, a, ks, 0);
      forall p, q | 0 <= p < |sub| && 0 <= q < |[a]|
        ensures !(sub[p] <= [a][q])
      {
        assert sub[p] in sub;
      }
      PostOrderedAppend(sub, [a]);
  }

  lemma {:induction false} ElementsPost(n: Node, a: seq<Key>, j: nat)
    requires n.Arr?
    ensures PostOrdered(ElementsOrder(n, a, j))
    decreases n, 0, |n.elems| - j
  {
    if j < |n.elems| {
      var c := a + [Index(j)];
      OrderPost(n.elems[j], c);
      ElementsPost(n, a, j + 1);
      OrderMembers(n.elems[j], c);
      ElementsMembers(n, a, j + 1);
      var sub, rest := PostOrder(n.elems[j], c), ElementsOrder(n, a, j + 1);
      forall p, q | 0 <= p < |sub| && 0 <= q < |rest|
        ensures !(sub[p] <= rest[q])
      {
        assert sub[p] in sub && rest[q] in rest;
        assert c <= sub[p] && sub[p][|a|] == Index(j);
      }
      PostOrderedAppend(PostOrder(n.elems[j], c), ElementsOrder(n, a, j + 1));
    }
  }

  lemma {:induction false} FieldsPost(n: Node, a: seq<Key>, ks: seq<string>, j: nat)
    requires n.Obj? && j <= |ks| && StrictlySorted(ks)
    ensures PostOrdered(FieldsOrder(n, a, ks, j))
    decreases n, 0, |ks| - j
  {
    if j < |ks| {
      var k := ks[j];
      var c := a + [Name(k)];
      var sub := if k in n.fields then PostOrder(n.fields[k], c) else [];
      if k in n.fields {
        OrderPost(n.fields[k], c);
        OrderMembers(n.fields[k], c);
      }
      FieldsPost(n, a, ks, j + 1);
      FieldsMembers(n, a, ks, j + 1);
      var rest := FieldsOrder(n, a, ks, j + 1);
      forall p, q | 0 <= p < |sub| && 0 <= q < |rest|
        ensures !(sub[p] <= rest[q])
      {
        var x, y := sub[p], rest[q];
        assert x in sub && y in rest;
        assert c <= x && x[|a|] == Name(k);
        if x <= y {
          assert y[|a|] == x[|a|];
          var q :| j + 1 <= q < |ks| && ks[q] == k;
          assert LexLess(ks[j], ks[q]);
          LexLessIrreflexive(k);
        }
      }
      PostOrderedAppend(sub, FieldsOrder(n, a, ks, j + 1));
    }
  }
}
