/**
 * FOLD_MEMBER: a computed member whose key is an identifier name becomes a
 * dotted member; `length` and the elements of a constant string or array are
 * read off at fold time. Includes the fold as written, which also folds keys
 * that only coerce to an index ("1.0", "01", "-0", ""), and the corrected fold,
 * which folds only keys that are array indices.
 */
module FoldMembers {
  import opened Values
  import opened Tree
  import opened ConstModel
  import opened NodePaths
  import opened Shapes
  import opened Edits
  import opened Semantics
  import ConstLemmas

  // ---- strings and arrays as values -------------------------------------------

  /** `typeof value === 'string' || Array.isArray(value)` */
  predicate IsListLike(v: Value) {
    (v.Primitive? && v.p.Str?) || v.Array?
  }

  /** `value.length` */
  function ValueLength(v: Value): nat
    requires IsListLike(v)
  {
    if v.Array? then |v.elems| else |v.p.s|
  }

  /** `Object.getOwnPropertyDescriptor(value, k)` exists: an index in range that is not a hole. */
  predicate HasElement(v: Value, k: nat)
    requires IsListLike(v)
  {
    k < ValueLength(v) && (v.Array? ==> v.elems[k].Some?)
  }

  /** `value[k]` */
  function Element(v: Value, k: nat): Value
    requires IsListLike(v) && HasElement(v, k)
  {
    if v.Array? then v.elems[k].value else Primitive(Str([v.p.s[k]]))
  }

  /** `value.slice(k, k + 1)` */
  function Slice(v: Value, k: nat): Value
    requires IsListLike(v) && k < ValueLength(v)
  {
    if v.Array? then Array(v.elems[k..k + 1]) else Primitive(Str(v.p.s[k..k + 1]))
  }

  /**
   * The element a numeric key reaches: `key === key && key >= 0 && key <
   * value.length`, then the property named by the key, which exists only for
   * integral keys (-0 names element 0).
   */
  function ElementIndex(key: Prim, len: nat): (r: Option<nat>)
    ensures r.Some? ==> r.value < len
  {
    match key
    case NegZero => if 0 < len then Some(0) else None
    case Num(x) =>
      if x >= 0.0 && x == x.Floor as real && x < len as real then Some(x.Floor as nat) else None
    case _ => None
  }

  /** The record `{ type: 'Identifier', name }` */
  function Identifier(name: string): Node {
    Record(map["type" := StrLeaf("Identifier"), "name" := StrLeaf(name)])
  }

  // ---- the fold ---------------------------------------------------------------

  /**
   * The fold, as written (`canonical` false) and corrected (`canonical` true:
   * the key's string must also be the index's own decimal form).
   */
  function MemberStepWith(host: Host, root: Node, p: NodePath, canonical: bool): Result<Step> {
    var n := p.node;
    var computed, obj, prop := NodeTruthy(Field(n, "computed")), Field(n, "object"), Field(n, "property");
    if TypeName(n) != "MemberExpression" then Ok(Step(Pass, root))
    else if computed && (prop == Leaf(Undefined) || prop == Leaf(Null)) then Err(TypeError)
    else
      var renamed :- if computed && TypeName(prop) == "Literal" then
          var pv :- ConstValue(prop);
          Ok(if IsIdentifierName(host.toString(pv)) then Some(host.toString(pv)) else None)
        else Ok(None);
      if renamed.Some? then
        var t := SetAt(root, Address(p) + [Name("computed")], Leaf(Bool(false)));
        Ok(Step(Fire(Some(p)), SetAt(t, Address(p) + [Name("property")], Identifier(renamed.value))))
      else ObjectStep(host, root, p, canonical)
  }

  /** The rest of the fold, on the value of a constant object. */
  function ObjectStep(host: Host, root: Node, p: NodePath, canonical: bool): Result<Step> {
    var n := p.node;
    var computed, obj, prop := NodeTruthy(Field(n, "computed")), Field(n, "object"), Field(n, "property");
    if !IsConstExpr(obj) then Ok(Step(Pass, root))
    else
      var value :- ConstValue(obj);
      if !IsListLike(value) then Ok(Step(Pass, root))
      else if !computed then
        if prop == Leaf(Undefined) || prop == Leaf(Null) then Err(TypeError)
        else if Field(prop, "name") == StrLeaf("length") then ReplacedConst(root, p, Primitive(Num(ValueLength(value) as real)))
        else Ok(Step(Pass, root))
      else IndexStep(host, root, p, value, canonical)
  }

  /** A computed key on a list-like constant: the element it names, when it names one. */
  function IndexStep(host: Host, root: Node, p: NodePath, value: Value, canonical: bool): Result<Step>
    requires IsListLike(value)
  {
    var prop := Field(p.node, "property");
    if !IsConstExpr(prop) then Ok(Step(Pass, root))
    else
      var pv :- ConstValue(prop);
      var name := host.toString(pv);
      var index := ElementIndex(host.toNumber(Primitive(Str(name))), ValueLength(value));
      if index.None? || (canonical && name != DecimalString(index.value)) || !HasElement(value, index.value) then
        Ok(Step(Pass, root))
      else
        var folded := Element(value, index.value);
        var inPragma :- Pragma(p, 0);
        if inPragma && folded.Primitive? && folded.p.Str? then
          if ValueLength(value) > 1 then
            var c1 :- ConstModel.ToConstExpr(Slice(value, index.value));
            var t1 :- ReplaceTree(root, Sub(p, "object"), c1);
            var c0 :- ConstModel.ToConstExpr(Primitive(Num(0.0)));
            var t2 :- ReplaceTree(t1, Sub(p, "property"), c0);
            Ok(Step(Fire(Some(p)), t2))
          else Ok(Step(Pass, root))
        else ReplacedConst(root, p, folded)
  }

  /** FOLD_MEMBER as written. */
  function MemberStepAsWritten(host: Host, root: Node, p: NodePath): Result<Step> {
    MemberStepWith(host, root, p, false)
  }

  /** FOLD_MEMBER folding only keys that name an element. */
  function MemberStep(host: Host, root: Node, p: NodePath): Result<Step> {
    MemberStepWith(host, root, p, true)
  }

  method FoldMember(f: Folder, p: NodePath) returns (r: Result<Stage>)
    requires f.Valid()
    modifies f
    ensures f.Valid()
    ensures Agrees(r, f.root, MemberStep(f.host, old(f.root), p))
  {
    var n := p.node;
    if TypeName(n) != "MemberExpression" {
      return Ok(Pass);
    }
    var computed, obj, prop := NodeTruthy(Field(n, "computed")), Field(n, "object"), Field(n, "property");
    if computed {
      if prop == Leaf(Undefined) || prop == Leaf(Null) {
        return Err(TypeError);
      }
      if TypeName(prop) == "Literal" {
        var pv :- ConstValue(prop);
        var current := f.host.toString(pv);
        if IsIdentifierName(current) {
          f.root := SetAt(f.root, Address(p) + [Name("computed")], Leaf(Bool(false)));
          f.root := SetAt(f.root, Address(p) + [Name("property")], Identifier(current));
          return Ok(Fire(Some(p)));
        }
      }
    }
    r := FoldObject(f, p);
  }

  /** The fold on the value of a constant object. */
  method FoldObject(f: Folder, p: NodePath) returns (r: Result<Stage>)
    requires f.Valid()
    modifies f
    ensures f.Valid()
    ensures Agrees(r, f.root, ObjectStep(f.host, old(f.root), p, true))
  {
    var n := p.node;
    var computed, obj, prop := NodeTruthy(Field(n, "computed")), Field(n, "object"), Field(n, "property");
    if !IsConstExpr(obj) {
      return Ok(Pass);
    }
    var value :- ConstValue(obj);
    if !IsListLike(value) {
      return Ok(Pass);
    }
    var len := ValueLength(value);
    if !computed {
      if prop == Leaf(Undefined) || prop == Leaf(Null) {
        return Err(TypeError);
      }
      if Field(prop, "name") == StrLeaf("length") {
        var c := f.ToConstExpr(Primitive(Num(len as real)));
        var q :- f.Replace(p, c.value);
        return Ok(Fire(Some(q)));
      }
      return Ok(Pass);
    }
    r := FoldIndex(f, p, value);
  }

  /** The fold of a computed key on a list-like constant. */
  method FoldIndex(f: Folder, p: NodePath, value: Value) returns (r: Result<Stage>)
    requires f.Valid() && IsListLike(value)
    modifies f
    ensures f.Valid()
    ensures Agrees(r, f.root, IndexStep(f.host, old(f.root), p, value, true))
  {
    var prop := Field(p.node, "property");
    var len := ValueLength(value);
    if !IsConstExpr(prop) {
      return Ok(Pass);
    }
    var pv :- ConstValue(prop);
    var name := f.host.toString(pv);
    var index := ElementIndex(f.host.toNumber(Primitive(Str(name))), len);
    if index.None? || name != DecimalString(index.value) || !HasElement(value, index.value) {
      return Ok(Pass);
    }
    var k := index.value;
    var folded := Element(value, k);
    var inPragma :- InPragmaPos(p);
    if inPragma && folded.Primitive? && folded.p.Str? {
      if len > 1 {
        var c1 :- f.ToConstExpr(Slice(value, k));
        var o := Get(p, [Name("object")]);
        SubIsGet(p, "object");
        var q1 :- f.Replace(o, c1);
        var c0 := f.ToConstExpr(Primitive(Num(0.0)));
        var pr := Get(p, [Name("property")]);
        SubIsGet(p, "property");
        var q2 :- f.Replace(pr, c0.value);
        return Ok(Fire(Some(p)));
      }
      return Ok(Pass);
    }
    var c :- f.ToConstExpr(folded);
    var q :- f.Replace(p, c);
    return Ok(Fire(Some(q)));
  }

  // ---- the corrected fold keeps the value -------------------------------------

  /** The value of a member expression that is not itself constant. */
  lemma EvalMemberNode(host: Host, n: Node)
    requires !IsConstExpr(n) && TypeName(n) == "MemberExpression"
    ensures Eval(host, n) ==
      if "object" in n.fields && "property" in n.fields then
        match Eval(host, n.fields["object"])
        case None => None
        case Some(o) =>
          if NodeTruthy(Field(n, "computed")) then
            match Eval(host, n.fields["property"])
            case None => None
            case Some(pv) => Lookup(o, host.toString(pv))
          else
            var name := Field(n.fields["property"], "name");
            if TypeName(n.fields["property"]) == "Identifier" && name.Leaf? && name.p.Str? then Lookup(o, name.p.s) else None
      else None
  {
  }

  /** `o[literal]` reads what `o.name` reads when the literal's string is `name`. */
  lemma RenameKeepsValue(host: Host, n: Node, name: string)
    requires !IsConstExpr(n) && TypeName(n) == "MemberExpression" && NodeTruthy(Field(n, "computed"))
    requires TypeName(Field(n, "property")) == "Literal" && ConstValue(Field(n, "property")).Ok?
    requires name == host.toString(ConstValue(Field(n, "property")).value)
    ensures Eval(host, Put(Put(n, Name("computed"), Leaf(Bool(false))), Name("property"), Identifier(name))) == Eval(host, n)
  {
    var m := Put(Put(n, Name("computed"), Leaf(Bool(false))), Name("property"), Identifier(name));
    RenamedShape(n, name);
    ConstLemmas.PlainConstExpr(n);
    ConstLemmas.PlainConstExpr(m);
    EvalMemberNode(host, n);
    EvalMemberNode(host, m);
    var prop := Field(n, "property");
    assert IsConstExpr(prop);
    EvalConstant(host, prop);
  }

  /** The renamed member: a dotted read of the identifier `name`, on the same object. */
  lemma RenamedShape(n: Node, name: string)
    requires TypeName(n) == "MemberExpression" && TypeName(Field(n, "property")) == "Literal"
    ensures var m := Put(Put(n, Name("computed"), Leaf(Bool(false))), Name("property"), Identifier(name));
      m.Obj? && m.marks == n.marks && TypeName(m) == "MemberExpression"
      && "property" in n.fields && "property" in m.fields && m.fields["property"] == Identifier(name)
      && ("object" in m.fields <==> "object" in n.fields)
      && ("object" in n.fields ==> m.fields["object"] == n.fields["object"])
      && Field(m, "computed") == Leaf(Bool(false))
      && TypeName(Identifier(name)) == "Identifier" && Field(Identifier(name), "name") == StrLeaf(name)
  {
    var m := Put(Put(n, Name("computed"), Leaf(Bool(false))), Name("property"), Identifier(name));
    assert m.fields["type"] == n.fields["type"];
  }

  /** A constant string or array with `length` read off it dotted. */
  lemma LengthValue(host: Host, n: Node)
    requires !IsConstExpr(n) && TypeName(n) == "MemberExpression" && !NodeTruthy(Field(n, "computed"))
    requires IsConstExpr(Field(n, "object")) && ConstValue(Field(n, "object")).Ok?
    requires IsListLike(ConstValue(Field(n, "object")).value)
    requires Field(Field(n, "property"), "name") == StrLeaf("length") && Eval(host, n).Some?
    ensures Eval(host, n) == Some(Primitive(Num(ValueLength(ConstValue(Field(n, "object")).value) as real)))
  {
    EvalMemberNode(host, n);
    assert Eval(host, Field(n, "object")) == Some(ConstValue(Field(n, "object")).value);
  }

  /** A constant string or array indexed by the decimal form of an element's index reads that element. */
  lemma IndexValue(host: Host, n: Node, k: nat)
    requires !IsConstExpr(n) && TypeName(n) == "MemberExpression" && NodeTruthy(Field(n, "computed"))
    requires IsConstExpr(Field(n, "object")) && ConstValue(Field(n, "object")).Ok?
    requires IsConstExpr(Field(n, "property")) && ConstValue(Field(n, "property")).Ok?
    requires var v := ConstValue(Field(n, "object")).value; IsListLike(v) && HasElement(v, k)
    requires host.toString(ConstValue(Field(n, "property")).value) == DecimalString(k)
    ensures Eval(host, n) == Some(Element(ConstValue(Field(n, "object")).value, k))
  {
    EvalMemberNode(host, n);
    var obj, prop := Field(n, "object"), Field(n, "property");
    assert Eval(host, obj) == Some(ConstValue(obj).value);
    assert Eval(host, prop) == Some(ConstValue(prop).value);
    ParseDecimal(k);
  }

  /**
   * In a directive position the member becomes an index 0 into the one
   * element sliced out, which reads the same element.
   */
  lemma SliceValue(host: Host, n: Node, v: Value, k: nat)
    requires !IsConstExpr(n) && TypeName(n) == "MemberExpression" && NodeTruthy(Field(n, "computed"))
    requires IsListLike(v) && HasElement(v, k) && host.toString(Primitive(Num(0.0))) == "0"
    requires ConstModel.ToConstExpr(Slice(v, k)).Ok?
    ensures var m := Put(Put(n, Name("object"), ConstModel.ToConstExpr(Slice(v, k)).value), Name("property"), Interned(Num(0.0)));
      Eval(host, m) == Some(Element(v, k))
  {
    var c1 := ConstModel.ToConstExpr(Slice(v, k)).value;
    var m := Put(Put(n, Name("object"), c1), Name("property"), Interned(Num(0.0)));
    ConstLemmas.PlainConstExpr(m);
    EvalMemberNode(host, m);
    EvalToConstExpr(host, Slice(v, k));
    EvalToConstExpr(host, Primitive(Num(0.0)));
    assert m.fields["object"] == c1 && m.fields["property"] == Interned(Num(0.0));
    ChildPutOther(n, Name("object"), Name("computed"), c1);
    ChildPutOther(Put(n, Name("object"), c1), Name("property"), Name("computed"), Interned(Num(0.0)));
    SliceFirst(v, k);
  }

  /** Index "0" of the one element sliced out is that element. */
  lemma SliceFirst(v: Value, k: nat)
    requires IsListLike(v) && HasElement(v, k)
    ensures Lookup(Slice(v, k), "0") == Some(Element(v, k))
  {
    ParseDecimal(0);
    assert DecimalString(0) == "0";
  }

  /**
   * The corrected FOLD_MEMBER keeps the value of a member expression that has
   * one (given that the number 0 prints as "0") and writes nowhere outside it.
   */
  lemma MemberKeepsValue(host: Host, root: Node, a: seq<Key>, p: NodePath, b: seq<Key>)
    requires p == PathTo(root, a) && !IsConstExpr(p.node) && Eval(host, p.node).Some?
    requires host.toString(Primitive(Num(0.0))) == "0"
    requires MemberStep(host, root, p).Ok?
    ensures Eval(host, At(MemberStep(host, root, p).value.root, a)) == Eval(host, p.node)
    ensures Diverge(a, b) ==> At(MemberStep(host, root, p).value.root, b) == At(root, b)
  {
    PathToAt(root, a);
    var n := p.node;
    if TypeName(n) != "MemberExpression" {
      NotMember(host, root, p, true);
      return;
    }
    var computed, obj, prop := NodeTruthy(Field(n, "computed")), Field(n, "object"), Field(n, "property");
    if computed && TypeName(prop) == "Literal" && IsIdentifierName(host.toString(ConstValue(prop).value)) {
      RenameKeeps(host, root, a, p, b);
    } else if IsConstExpr(obj) && IsListLike(ConstValue(obj).value) {
      if !computed {
        if Field(prop, "name") == StrLeaf("length") {
          LengthKeeps(host, root, a, p, b);
        }
      } else if IsConstExpr(prop) {
        MemberToIndex(host, root, p);
        IndexKeeps(host, root, a, p, b);
      }
    }
  }

  /** FOLD_MEMBER lets through anything that is not a member expression. */
  lemma NotMember(host: Host, root: Node, p: NodePath, canonical: bool)
    requires TypeName(p.node) != "MemberExpression"
    ensures MemberStepWith(host, root, p, canonical) == Ok(Step(Pass, root))
  {
  }

  /** The rename case of MemberKeepsValue. */
  lemma RenameKeeps(host: Host, root: Node, a: seq<Key>, p: NodePath, b: seq<Key>)
    requires p == PathTo(root, a) && !IsConstExpr(p.node) && TypeName(p.node) == "MemberExpression"
    requires MemberStep(host, root, p).Ok?
    requires var prop := Field(p.node, "property");
      NodeTruthy(Field(p.node, "computed")) && TypeName(prop) == "Literal" && IsIdentifierName(host.toString(ConstValue(prop).value))
    ensures Eval(host, At(MemberStep(host, root, p).value.root, a)) == Eval(host, p.node)
    ensures Diverge(a, b) ==> At(MemberStep(host, root, p).value.root, b) == At(root, b)
  {
    PathToAt(root, a);
    var n := p.node;
    ConstLemmas.PlainConstExpr(n);
    var name := host.toString(ConstValue(Field(n, "property")).value);
    var m := Put(Put(n, Name("computed"), Leaf(Bool(false))), Name("property"), Identifier(name));
    WriteTwoFields(root, a, p, "computed", Leaf(Bool(false)), "property", Identifier(name));
    Written(root, a, m, b);
    RenameKeepsValue(host, n, name);
  }

  /** The `length` case of MemberKeepsValue. */
  lemma LengthKeeps(host: Host, root: Node, a: seq<Key>, p: NodePath, b: seq<Key>)
    requires p == PathTo(root, a) && !IsConstExpr(p.node) && TypeName(p.node) == "MemberExpression" && Eval(host, p.node).Some?
    requires MemberStep(host, root, p).Ok? && !NodeTruthy(Field(p.node, "computed"))
    requires var obj := Field(p.node, "object"); IsConstExpr(obj) && IsListLike(ConstValue(obj).value)
    requires Field(Field(p.node, "property"), "name") == StrLeaf("length")
    ensures Eval(host, At(MemberStep(host, root, p).value.root, a)) == Eval(host, p.node)
    ensures Diverge(a, b) ==> At(MemberStep(host, root, p).value.root, b) == At(root, b)
  {
    PathToAt(root, a);
    var n := p.node;
    ConstLemmas.PlainConstExpr(n);
    var value := ConstValue(Field(n, "object")).value;
    LengthValue(host, n);
    var len := Primitive(Num(ValueLength(value) as real));
    EvalToConstExpr(host, len);
    ReplaceLands(root, a, p, ConstModel.ToConstExpr(len).value, b);
  }

  /** A computed key that is not renamed, on a list-like constant object: the fold is the element fold. */
  lemma MemberToIndex(host: Host, root: Node, p: NodePath)
    requires TypeName(p.node) == "MemberExpression" && NodeTruthy(Field(p.node, "computed"))
    requires var prop := Field(p.node, "property");
      prop != Leaf(Undefined) && prop != Leaf(Null)
      && (TypeName(prop) == "Literal" ==> ConstValue(prop).Ok? && !IsIdentifierName(host.toString(ConstValue(prop).value)))
    requires var obj := Field(p.node, "object"); IsConstExpr(obj) && ConstValue(obj).Ok? && IsListLike(ConstValue(obj).value)
    ensures MemberStep(host, root, p) == IndexStep(host, root, p, ConstValue(Field(p.node, "object")).value, true)
  {
  }

  /** The index case of MemberKeepsValue, in a directive position or not. */
  lemma IndexKeeps(host: Host, root: Node, a: seq<Key>, p: NodePath, b: seq<Key>)
    requires p == PathTo(root, a) && !IsConstExpr(p.node) && TypeName(p.node) == "MemberExpression" && Eval(host, p.node).Some?
    requires host.toString(Primitive(Num(0.0))) == "0"
    requires NodeTruthy(Field(p.node, "computed")) && IsConstExpr(Field(p.node, "property"))
    requires var obj := Field(p.node, "object"); IsConstExpr(obj) && ConstValue(obj).Ok? && IsListLike(ConstValue(obj).value)
    requires IndexStep(host, root, p, ConstValue(Field(p.node, "object")).value, true).Ok?
    ensures Eval(host, At(IndexStep(host, root, p, ConstValue(Field(p.node, "object")).value, true).value.root, a)) == Eval(host, p.node)
    ensures Diverge(a, b) ==> At(IndexStep(host, root, p, ConstValue(Field(p.node, "object")).value, true).value.root, b) == At(root, b)
  {
    PathToAt(root, a);
    var n := p.node;
    var value := ConstValue(Field(n, "object")).value;
    var name := host.toString(ConstValue(Field(n, "property")).value);
    var index := ElementIndex(host.toNumber(Primitive(Str(name))), ValueLength(value));
    if index.Some? && name == DecimalString(index.value) && HasElement(value, index.value) {
      var k := index.value;
      var folded := Element(value, k);
      if Pragma(p, 0).value && folded.Primitive? && folded.p.Str? {
        if ValueLength(value) > 1 {
          SliceKeeps(host, root, a, p, b, k);
        }
      } else {
        ElementKeeps(host, root, a, p, b, k);
      }
    }
  }

  /** The member reads element `k` of a constant string or array. */
  predicate IndexCase(host: Host, n: Node, k: nat) {
    var obj, prop := Field(n, "object"), Field(n, "property");
    IsConstExpr(obj) && ConstValue(obj).Ok? && IsListLike(ConstValue(obj).value)
    && IsConstExpr(prop) && ConstValue(prop).Ok?
    && !(TypeName(prop) == "Literal" && IsIdentifierName(host.toString(ConstValue(prop).value)))
    && var value, name := ConstValue(obj).value, host.toString(ConstValue(prop).value);
    ElementIndex(host.toNumber(Primitive(Str(name))), ValueLength(value)) == Some(k)
    && name == DecimalString(k) && HasElement(value, k)
  }

  /** The element is folded in place of the member. */
  lemma ElementKeeps(host: Host, root: Node, a: seq<Key>, p: NodePath, b: seq<Key>, k: nat)
    requires p == PathTo(root, a) && !IsConstExpr(p.node) && TypeName(p.node) == "MemberExpression"
    requires NodeTruthy(Field(p.node, "computed")) && IndexCase(host, p.node, k)
    requires var folded := Element(ConstValue(Field(p.node, "object")).value, k);
      !(Pragma(p, 0) == Ok(true) && folded.Primitive? && folded.p.Str?)
    requires IndexStep(host, root, p, ConstValue(Field(p.node, "object")).value, true).Ok?
    ensures Eval(host, At(IndexStep(host, root, p, ConstValue(Field(p.node, "object")).value, true).value.root, a)) == Eval(host, p.node)
    ensures Diverge(a, b) ==> At(IndexStep(host, root, p, ConstValue(Field(p.node, "object")).value, true).value.root, b) == At(root, b)
  {
    PathToAt(root, a);
    var n := p.node;
    var folded := Element(ConstValue(Field(n, "object")).value, k);
    ElementStep(host, root, p, k);
    IndexValue(host, n, k);
    EvalToConstExpr(host, folded);
    ReplaceLands(root, a, p, ConstModel.ToConstExpr(folded).value, b);
  }

  /** Outside the directive case the member is replaced by the element it reads. */
  lemma ElementStep(host: Host, root: Node, p: NodePath, k: nat)
    requires IndexCase(host, p.node, k)
    requires var folded := Element(ConstValue(Field(p.node, "object")).value, k);
      !(Pragma(p, 0) == Ok(true) && folded.Primitive? && folded.p.Str?)
    requires IndexStep(host, root, p, ConstValue(Field(p.node, "object")).value, true).Ok?
    ensures IndexStep(host, root, p, ConstValue(Field(p.node, "object")).value, true) == ReplacedConst(root, p, Element(ConstValue(Field(p.node, "object")).value, k))
  {
  }

  /** In a directive position a string element is sliced out and indexed by 0. */
  lemma SliceKeeps(host: Host, root: Node, a: seq<Key>, p: NodePath, b: seq<Key>, k: nat)
    requires p == PathTo(root, a) && !IsConstExpr(p.node) && TypeName(p.node) == "MemberExpression"
    requires host.toString(Primitive(Num(0.0))) == "0"
    requires NodeTruthy(Field(p.node, "computed")) && IndexCase(host, p.node, k)
    requires var value := ConstValue(Field(p.node, "object")).value; var folded := Element(value, k);
      Pragma(p, 0) == Ok(true) && folded.Primitive? && folded.p.Str? && ValueLength(value) > 1
    requires IndexStep(host, root, p, ConstValue(Field(p.node, "object")).value, true).Ok?
    ensures Eval(host, At(IndexStep(host, root, p, ConstValue(Field(p.node, "object")).value, true).value.root, a)) == Eval(host, p.node)
    ensures Diverge(a, b) ==> At(IndexStep(host, root, p, ConstValue(Field(p.node, "object")).value, true).value.root, b) == At(root, b)
  {
    PathToAt(root, a);
    var n := p.node;
    var value := ConstValue(Field(n, "object")).value;
    SliceTree(host, root, a, p, k);
    Written(root, a, Sliced(n, value, k), b);
    IndexValue(host, n, k);
    SliceValue(host, n, value, k);
  }

  /** The member with element `k` sliced out of `value` as its object and 0 as its key. */
  function Sliced(n: Node, value: Value, k: nat): Node
    requires IsListLike(value) && k < ValueLength(value) && ConstModel.ToConstExpr(Slice(value, k)).Ok?
  {
    Put(Put(n, Name("object"), ConstModel.ToConstExpr(Slice(value, k)).value), Name("property"), Interned(Num(0.0)))
  }

  /** Where the slice is taken, the member at the path is rewritten to the sliced member. */
  lemma SliceTree(host: Host, root: Node, a: seq<Key>, p: NodePath, k: nat)
    requires p == PathTo(root, a) && TypeName(p.node) == "MemberExpression"
    requires NodeTruthy(Field(p.node, "computed")) && IndexCase(host, p.node, k)
    requires var value := ConstValue(Field(p.node, "object")).value; var folded := Element(value, k);
      Pragma(p, 0) == Ok(true) && folded.Primitive? && folded.p.Str? && ValueLength(value) > 1
    requires IndexStep(host, root, p, ConstValue(Field(p.node, "object")).value, true).Ok?
    ensures ConstModel.ToConstExpr(Slice(ConstValue(Field(p.node, "object")).value, k)).Ok?
    ensures At(root, a).Obj?
    ensures IndexStep(host, root, p, ConstValue(Field(p.node, "object")).value, true).value.root == SetAt(root, a, Sliced(p.node, ConstValue(Field(p.node, "object")).value, k))
  {
    PathToAt(root, a);
    var value := ConstValue(Field(p.node, "object")).value;
    var c1 := ConstModel.ToConstExpr(Slice(value, k)).value;
    var c0 := Interned(Num(0.0));
    WriteField(root, a, p, "object", c1);
    WriteTwoFields(root, a, p, "object", c1, "property", c0);
  }

  /** Writing a record over the record at `a` puts it there and leaves every address apart from `a` alone. */
  lemma Written(root: Node, a: seq<Key>, m: Node, b: seq<Key>)
    requires At(root, a).Obj?
    ensures At(SetAt(root, a, m), a) == m
    ensures Diverge(a, b) ==> At(SetAt(root, a, m), b) == At(root, b)
  {
    WriteContainer(root, a, m);
    if Diverge(a, b) {
      SetAtDiverge(root, a, b, m);
    }
  }

  // ---- the fold as written ----------------------------------------------------

  /** `"ab"["1.0"]` as parsed. */
  const NonIndexMember := Record(map["type" := StrLeaf("MemberExpression"), "computed" := Leaf(Bool(true)),
                                     "object" := Lit(Str("ab"), Unmarked), "property" := Lit(Str("1.0"), Unmarked)])

  /** `x, "ab"["1.0"]` as parsed. */
  const NonIndexSequence := Record(map["type" := StrLeaf("SequenceExpression"), "expressions" := Arr([Identifier("x"), NonIndexMember])])

  /**
   * In `x, "ab"["1.0"]` the key "1.0" names no element of "ab" (the expression
   * reads undefined), yet it coerces to the number 1, so FOLD_MEMBER as written
   * folds the member to "b". The corrected fold leaves it alone.
   */
  lemma NonIndexKeyAsWritten(host: Host)
    requires host.toString(Primitive(Str("1.0"))) == "1.0" && host.toNumber(Primitive(Str("1.0"))) == Num(1.0)
    ensures var p := PathTo(NonIndexSequence, [Name("expressions"), Index(1)]);
      && MemberStepAsWritten(host, NonIndexSequence, p) == ReplacedConst(NonIndexSequence, p, Primitive(Str("b")))
      && ParseIndex("1.0") == None
      && MemberStep(host, NonIndexSequence, p) == Ok(Step(Pass, NonIndexSequence))
  {
    var p := PathTo(NonIndexSequence, [Name("expressions"), Index(1)]);
    AfterIdentifier(NonIndexSequence, Identifier("x"), NonIndexMember);
    NonIndexKeyAt(host, NonIndexSequence, p);
  }

  /** FOLD_MEMBER on `"ab"["1.0"]` outside a directive position. */
  lemma NonIndexKeyAt(host: Host, root: Node, p: NodePath)
    requires host.toString(Primitive(Str("1.0"))) == "1.0" && host.toNumber(Primitive(Str("1.0"))) == Num(1.0)
    requires p.node == NonIndexMember && Pragma(p, 0) == Ok(false)
    ensures MemberStepAsWritten(host, root, p) == ReplacedConst(root, p, Primitive(Str("b")))
    ensures ParseIndex("1.0") == None
    ensures MemberStep(host, root, p) == Ok(Step(Pass, root))
  {
    NonIndexShape();
    IndexOutsideDirective(host, root, p, false, 1);
    IndexOutsideDirective(host, root, p, true, 1);
  }

  /** The parts of `"ab"["1.0"]` and what the fold computes from them. */
  lemma NonIndexShape()
    ensures var n := NonIndexMember;
      && Field(n, "property") == Lit(Str("1.0"), Unmarked) && Field(n, "object") == Lit(Str("ab"), Unmarked)
      && Field(n, "computed") == Leaf(Bool(true)) && TypeName(n) == "MemberExpression"
      && Field(n, "property").Obj? && TypeName(Field(n, "property")) == "Literal"
    ensures IsConstExpr(Lit(Str("ab"), Unmarked)) && ConstValue(Lit(Str("ab"), Unmarked)) == Ok(Primitive(Str("ab")))
    ensures IsConstExpr(Lit(Str("1.0"), Unmarked)) && ConstValue(Lit(Str("1.0"), Unmarked)) == Ok(Primitive(Str("1.0")))
    ensures !IsIdentifierName("1.0") && ElementIndex(Num(1.0), 2) == Some(1) && DecimalString(1) == "1"
    ensures IsListLike(Primitive(Str("ab"))) && HasElement(Primitive(Str("ab")), 1) && ValueLength(Primitive(Str("ab"))) == 2
    ensures Element(Primitive(Str("ab")), 1) == Primitive(Str("b"))
  {
    NonIndexFields();
    assert !IsIdentifierName("1.0");
    ConstLemmas.LiteralValue(Str("ab"));
    ConstLemmas.LiteralValue(Str("1.0"));
  }

  lemma NonIndexFields()
    ensures var n := NonIndexMember;
      && Field(n, "property") == Lit(Str("1.0"), Unmarked) && Field(n, "object") == Lit(Str("ab"), Unmarked)
      && Field(n, "computed") == Leaf(Bool(true)) && TypeName(n) == "MemberExpression"
      && Field(n, "property").Obj? && TypeName(Field(n, "property")) == "Literal"
  {
    var n := NonIndexMember;
    assert Field(n, "property") == Lit(Str("1.0"), Unmarked);
    assert TypeName(Lit(Str("1.0"), Unmarked)) == "Literal";
  }

  /** The second operand of a comma expression whose first operand is an identifier is not in a directive position. */
  lemma AfterIdentifier(root: Node, x: Node, e: Node)
    requires TypeName(x) == "Identifier"
    requires root == Record(map["type" := StrLeaf("SequenceExpression"), "expressions" := Arr([x, e])])
    ensures PathTo(root, [Name("expressions"), Index(1)]).node == e
    ensures Pragma(PathTo(root, [Name("expressions"), Index(1)]), 0) == Ok(false)
  {
    var a := [Name("expressions"), Index(1)];
    var p := PathTo(root, a);
    PathToAt(root, a);
    PathToAt(root, a[..1]);
    assert a[..1] == [Name("expressions")];
    assert p.parent.value.node == Arr([x, e]) && p.key == Some(Index(1));
    assert DirectiveCheck([x, e], 0) == Ok(false);
  }

  /** The index case of the fold at a path outside a directive position. */
  lemma IndexOutsideDirective(host: Host, root: Node, p: NodePath, canonical: bool, k: nat)
    requires var n := p.node; TypeName(n) == "MemberExpression" && NodeTruthy(Field(n, "computed"))
    requires var prop := Field(p.node, "property");
      prop.Obj? && IsConstExpr(prop) && ConstValue(prop).Ok? && !IsIdentifierName(host.toString(ConstValue(prop).value))
    requires var obj := Field(p.node, "object");
      IsConstExpr(obj) && ConstValue(obj).Ok? && IsListLike(ConstValue(obj).value) && HasElement(ConstValue(obj).value, k)
    requires var name := host.toString(ConstValue(Field(p.node, "property")).value);
      ElementIndex(host.toNumber(Primitive(Str(name))), ValueLength(ConstValue(Field(p.node, "object")).value)) == Some(k)
    requires Pragma(p, 0) == Ok(false)
    ensures var name := host.toString(ConstValue(Field(p.node, "property")).value);
      MemberStepWith(host, root, p, canonical) ==
        if canonical && name != DecimalString(k) then Ok(Step(Pass, root))
        else ReplacedConst(root, p, Element(ConstValue(Field(p.node, "object")).value, k))
  {
  }
}
