/**
 * What the constant model promises: TO_CONSTEXPR and CONSTVALUE are inverse
 * on every value with a node form, interning gives distinct values distinct
 * nodes, CONSTVALUE fails exactly off the constant nodes, and the two defects
 * of TO_CONSTEXPR as written.
 */
module ConstLemmas {
  import opened Values
  import opened Tree
  import opened ConstModel

  /** CONSTVALUE undoes TO_CONSTEXPR: the node built for `v` stands for `v`. */
  lemma {:induction false} RoundTrip(v: Value)
    requires ToConstExpr(v).Ok?
    ensures ConstValue(ToConstExpr(v).value) == Ok(v)
    decreases v, 1
  {
    match v
    case Primitive(p) =>
      InternedValue(p);
    case Array(es) =>
      var nodes := ToConstExprs(es).value;
      RoundTrips(es);
      var n := ToConstExpr(v).value;
      assert n.fields["elements"] == Arr(nodes);
      assert "operator" !in n.fields;
      assert n != UNDEFINED && n != NAN;
    case RegExp(_, _) =>
  }

  lemma {:induction false} RoundTrips(es: seq<Option<Value>>)
    requires ToConstExprs(es).Ok?
    ensures ConstValues(ToConstExprs(es).value) == Ok(es)
    decreases es, 0
  {
    if es != [] {
      var e := es[0];
      assert e in es;
      var nodes := ToConstExprs(es).value;
      var first := nodes[0];
      assert nodes[1..] == ToConstExprs(es[1..]).value;
      RoundTrips(es[1..]);
      assert [e] + es[1..] == es;
      match e
      case None =>
        assert first == Leaf(Null);
      case Some(x) =>
        assert x < e;
        RoundTrip(x);
        assert first == ToConstExpr(x).value;
        assert first != Leaf(Null);
    }
  }

  /** The interned node of a primitive stands for that primitive. */
  lemma InternedValue(p: Prim)
    ensures ConstValue(Interned(p)) == Ok(Primitive(p))
  {
    match p
    case Undefined => UndefinedValue();
    case NaN => NaNValue();
    case Null => NullValue();
    case NegZero => NegZeroValue();
    case _ =>
      if IsNegative(p) {
        NegativeValue(p);
      } else {
        LiteralInterned(p);
      }
  }

  lemma UndefinedValue()
    ensures ConstValue(UNDEFINED) == Ok(Primitive(Undefined)) && IsConstExpr(UNDEFINED)
  {
  }

  lemma NaNValue()
    ensures ConstValue(NAN) == Ok(Primitive(NaN)) && IsConstExpr(NAN)
  {
    assert NAN != UNDEFINED by { assert TypeName(NAN) != TypeName(UNDEFINED); }
  }

  lemma NullValue()
    ensures ConstValue(NULL) == Ok(Primitive(Null)) && IsConstExpr(NULL)
  {
    assert TypeName(NULL) != TypeName(UNDEFINED) && TypeName(NULL) != TypeName(NAN);
  }

  lemma NegZeroValue()
    ensures ConstValue(NEG_ZERO) == Ok(Primitive(NegZero)) && IsConstExpr(NEG_ZERO)
  {
    var n := NEG_ZERO;
    assert n != UNDEFINED by { assert Field(n, "operator") != Field(UNDEFINED, "operator"); }
    assert n != NAN by { assert TypeName(n) != TypeName(NAN); }
  }

  /** A negative number is interned as a marked unary minus over its magnitude. */
  lemma NegativeValue(p: Prim)
    requires !p.Undefined? && !p.NaN? && !p.Null? && !p.NegZero? && IsNegative(p)
    ensures ConstValue(Interned(p)) == Ok(Primitive(p))
  {
    var n := Interned(p);
    assert n.marks.constValue == Some(p);
    assert n != UNDEFINED && n != NAN by { assert n.marks != ConstMarked; }
  }

  /** Any other primitive is interned as a marked literal. */
  lemma LiteralInterned(p: Prim)
    requires !p.Undefined? && !p.NaN? && !p.Null? && !p.NegZero? && !IsNegative(p)
    ensures ConstValue(Interned(p)) == Ok(Primitive(p))
  {
    var n := Interned(p);
    assert n.marks.constValue == Some(p);
    assert n != UNDEFINED && n != NAN by { assert n.marks != ConstMarked; }
  }

  /** Interning is faithful: distinct primitives are represented by distinct nodes. */
  lemma InternedInjective(p: Prim, q: Prim)
    requires Interned(p) == Interned(q)
    ensures p == q
  {
    InternedValue(p);
    InternedValue(q);
  }

  /** TO_CONSTEXPR fails exactly on the values that contain a RegExp. */
  lemma {:induction false} ToConstExprFails(v: Value)
    ensures ToConstExpr(v).Err? <==> HasRegExp(v)
    decreases v, 1
  {
    match v
    case Primitive(_) =>
    case RegExp(_, _) =>
    case Array(es) =>
      ToConstExprsFail(es);
  }

  lemma {:induction false} ToConstExprsFail(es: seq<Option<Value>>)
    ensures ToConstExprs(es).Err? <==> exists i :: 0 <= i < |es| && es[i].Some? && HasRegExp(es[i].value)
    decreases es, 0
  {
    if es != [] {
      var e := es[0];
      assert e in es;
      ToConstExprsFail(es[1..]);
      if e.Some? {
        var x := e.value;
        assert x < e;
        ToConstExprFails(x);
        assert ToConstExprElem(e) == ToConstExpr(x);
      } else {
        assert ToConstExprElem(e).Ok?;
      }
      if ToConstExprs(es).Err? {
        if !(e.Some? && HasRegExp(e.value)) {
          var i :| 0 <= i < |es[1..]| && es[1..][i].Some? && HasRegExp(es[1..][i].value);
          assert es[i + 1] == es[1..][i];
        }
      } else {
        forall i | 0 <= i < |es| && es[i].Some?
          ensures !HasRegExp(es[i].value)
        {
          if i > 0 {
            assert es[i] == es[1..][i - 1];
          }
        }
      }
    }
  }

  /** Converting one more element extends the converted prefix by that element's node. */
  lemma {:induction false} ToConstExprsSnoc(es: seq<Option<Value>>, e: Option<Value>)
    requires ToConstExprs(es).Ok? && ToConstExprElem(e).Ok?
    ensures ToConstExprs(es + [e]) == Ok(ToConstExprs(es).value + [ToConstExprElem(e).value])
    decreases |es|
  {
    if es == [] {
      assert [e][1..] == [];
      assert es + [e] == [e];
      var x := ToConstExprElem(e).value;
      assert ToConstExprs([e]) == Ok([x] + []);
      assert [x] + [] == [] + [x];
    } else {
      assert (es + [e])[0] == es[0] && (es + [e])[1..] == es[1..] + [e];
      ToConstExprsSnoc(es[1..], e);
      assert [ToConstExprElem(es[0]).value] + (ToConstExprs(es[1..]).value + [ToConstExprElem(e).value])
          == ToConstExprs(es).value + [ToConstExprElem(e).value];
    }
  }

  /** A converted array holds, at each index, the node of that element. */
  lemma {:induction false} ToConstExprsAt(es: seq<Option<Value>>, k: nat)
    requires ToConstExprs(es).Ok? && k < |es|
    ensures ToConstExprElem(es[k]).Ok? && ToConstExprs(es).value[k] == ToConstExprElem(es[k]).value
    decreases k
  {
    if k > 0 {
      assert es[1..][k - 1] == es[k];
      ToConstExprsAt(es[1..], k - 1);
    }
  }

  /** An element that cannot be converted makes the whole array fail, whatever follows it. */
  lemma {:induction false} ToConstExprsStopsAt(es: seq<Option<Value>>, i: nat)
    requires i < |es| && ToConstExprs(es[..i]).Ok? && ToConstExprElem(es[i]).Err?
    ensures ToConstExprs(es).Err?
    decreases i
  {
    if i > 0 {
      assert es[1..][..i - 1] == es[..i][1..];
      assert es[1..][i - 1] == es[i];
      ToConstExprsStopsAt(es[1..], i - 1);
    }
  }

  /**
   * Nodes whose markers are consistent: only constant-marked records cache a
   * value, and every constant-marked array expression lists null holes or
   * constant elements with consistent markers.
   */
  predicate MarkedSound(n: Node)
    decreases n
  {
    match n
    case Obj(fs, m) =>
      (m.constValue.Some? ==> m.constExpr)
      && (TypeName(n) == "ArrayExpression" && "elements" in fs && fs["elements"].Arr? ==>
            forall i :: 0 <= i < |fs["elements"].elems| ==>
              var e := fs["elements"].elems[i];
              e == Leaf(Null) || ((m.constExpr ==> IsConstExpr(e)) && MarkedSound(e)))
    case _ => true
  }

  /** CONSTVALUE throws on every node that is not constant. */
  lemma NonConstantThrows(n: Node)
    requires MarkedSound(n) && !IsConstExpr(n)
    ensures ConstValue(n).Err?
  {
  }

  /** CONSTVALUE succeeds on every constant node whose markers are consistent. */
  lemma {:induction false} ConstantHasValue(n: Node)
    requires MarkedSound(n) && IsConstExpr(n)
    ensures ConstValue(n).Ok?
    decreases n, 1
  {
    match n
    case Obj(fs, m) =>
      if !(m.constValue.Some? && Truthy(Primitive(m.constValue.value))) && n != UNDEFINED && n != NAN
         && TypeName(n) == "ArrayExpression" && "elements" in fs && fs["elements"].Arr? {
        var es := fs["elements"].elems;
        forall i | 0 <= i < |es| && es[i] != Leaf(Null)
          ensures IsConstExpr(es[i]) && MarkedSound(es[i])
        {
        }
        ElementsHaveValues(es);
      }
  }

  lemma {:induction false} ElementsHaveValues(es: seq<Node>)
    requires forall i :: 0 <= i < |es| && es[i] != Leaf(Null) ==> IsConstExpr(es[i]) && MarkedSound(es[i])
    ensures ConstValues(es).Ok?
    decreases es, 0
  {
    if es != [] {
      if es[0] != Leaf(Null) {
        ConstantHasValue(es[0]);
      }
      ElementsHaveValues(es[1..]);
    }
  }

  /**
   * A node whose type is not one IS_CONSTEXPR recognises by shape (an array
   * expression, a literal, a unary expression) is constant only when marked so.
   */
  lemma PlainConstExpr(x: Node)
    requires TypeName(x) != "" && TypeName(x) != "ArrayExpression" && TypeName(x) != "Literal" && TypeName(x) != "UnaryExpression"
    ensures x.Obj? && (IsConstExpr(x) <==> x.marks.constExpr)
  {
    if x.Obj? && !x.marks.constExpr {
      assert x != UNDEFINED && x != NAN;
    }
  }

  /** A parsed literal (no markers, no `regex`) stands for its `value`. */
  lemma LiteralValue(p: Prim)
    ensures IsConstExpr(Lit(p, Unmarked)) && ConstValue(Lit(p, Unmarked)) == Ok(Primitive(p))
  {
    var n := Lit(p, Unmarked);
    assert n != UNDEFINED && n != NAN by { assert TypeName(n) == "Literal"; }
    assert "regex" !in n.fields && Field(n, "value") == Leaf(p);
  }

  /** The value of each sentinel, as the source's comments name it. */
  lemma SentinelValues()
    ensures ConstValue(UNDEFINED) == Ok(Primitive(Undefined))
    ensures ConstValue(NAN) == Ok(Primitive(NaN))
    ensures ConstValue(NULL) == Ok(Primitive(Null))
    ensures ConstValue(NEG_ZERO) == Ok(Primitive(NegZero))
    ensures ConstValue(EMPTY) == Ok(Primitive(Undefined))
    ensures IsConstExpr(EMPTY) && IsConstExpr(UNDEFINED) && IsConstExpr(NAN) && IsConstExpr(NULL) && IsConstExpr(NEG_ZERO)
  {
    UndefinedValue();
    NaNValue();
    NullValue();
    NegZeroValue();
    EmptyValue();
  }

  lemma EmptyValue()
    ensures ConstValue(EMPTY) == Ok(Primitive(Undefined)) && IsConstExpr(EMPTY)
  {
    assert EMPTY != UNDEFINED && EMPTY != NAN by { assert "operator" !in EMPTY.fields; }
  }

  // ---- TO_CONSTEXPR as written ----------------------------------------------

  /**
   * The string "-0" coerces to -0, so TO_CONSTEXPR as written returns the
   * NEG_ZERO sentinel for it, which stands for the number -0, not the string.
   */
  lemma NegZeroStringAsWritten(host: Host)
    requires host.toNumber(Primitive(Str("-0"))) == NegZero
    ensures ToConstExprAsWritten(host, Primitive(Str("-0"))) == Ok(NEG_ZERO)
    ensures ConstValue(NEG_ZERO) != Ok(Primitive(Str("-0")))
    ensures ConstValue(ToConstExpr(Primitive(Str("-0"))).value) == Ok(Primitive(Str("-0")))
  {
    InternedValue(NegZero);
    InternedValue(Str("-0"));
  }

  /**
   * An array value with a hole becomes, as written, an array expression with an
   * undefined element, and CONSTVALUE then throws on it although the expression
   * is marked constant.
   */
  lemma HoleAsWritten(host: Host)
    requires host.toNumber(Array([None, Some(Primitive(Num(1.0)))])) != NegZero
    requires host.toNumber(Primitive(Num(1.0))) != NegZero
    ensures ToConstExprAsWritten(host, Array([None, Some(Primitive(Num(1.0)))])).Ok?
    ensures var n := ToConstExprAsWritten(host, Array([None, Some(Primitive(Num(1.0)))])).value;
            IsConstExpr(n) && ConstValue(n) == Err(TypeError)
    ensures ConstValue(ToConstExpr(Array([None, Some(Primitive(Num(1.0)))])).value) == Ok(Array([None, Some(Primitive(Num(1.0)))]))
  {
    var v := Array([None, Some(Primitive(Num(1.0)))]);
    var one := [Some(Primitive(Num(1.0)))];
    assert one[0] == Some(Primitive(Num(1.0))) && one[1..] == [];
    assert ToConstExprAsWritten(host, Primitive(Num(1.0))) == Ok(Interned(Num(1.0)));
    assert ToConstExprsAsWritten(host, one[1..]) == Ok([]);
    assert ToConstExprsAsWritten(host, one) == Ok([Interned(Num(1.0))] + []);
    var node1: seq<Node> := [Interned(Num(1.0))];
    assert node1 + [] == node1;
    var rest := ToConstExprsAsWritten(host, one);
    assert v.elems[1..] == one;
    assert rest == Ok(node1);
    var n := ToConstExprAsWritten(host, v).value;
    assert n.fields["elements"] == Arr([Leaf(Undefined), Interned(Num(1.0))]);
    assert n != UNDEFINED && n != NAN by { assert "operator" !in n.fields; }
    assert ConstValues([Leaf(Undefined), Interned(Num(1.0))]) == Err(TypeError);
    RoundTrip(v);
  }
}
