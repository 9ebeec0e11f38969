/**
 * Host values of the JavaScript engine that the constant folder reasons about:
 * the primitives that can sit in a tree slot or be interned, the values that
 * CONSTVALUE can produce, their truthiness and `typeof`, and the parts of the
 * engine's coercion and arithmetic that the model takes as given (`Host`).
 */
module Values {

  datatype Option<+T> = None | Some(value: T)

  /** The exceptions the core can throw. */
  datatype Error =
    | TypeError        // reading or writing a property through null/undefined, destructuring null/undefined
    | NotAConstExpr    // CONSTVALUE on a node that is not constant ('Not a CONSTEXPR')
    | NotAConstValue   // TO_CONSTEXPR on a value with no node form ('Not a CONSTVALUE ...')
    | UsePipe          // constructing a walk combinator without the private guard ('use .pipe')

  datatype Result<+T> = Ok(value: T) | Err(error: Error) {
    predicate IsFailure() { Err? }
    function PropagateFailure<U>(): Result<U>
      requires Err?
    {
      Err(error)
    }
    function Extract(): T
      requires Ok?
    {
      value
    }
  }

  /**
   * JavaScript primitives. `Num(r)` is a finite number other than -0 (so `Num(0.0)`
   * is +0); -0, NaN and the two infinities are variants of their own, as IEEE
   * doubles themselves are not modelled.
   */
  datatype Prim =
    | Undefined
    | Null
    | NaN
    | NegZero
    | Inf(negative: bool)
    | Num(r: real)
    | Bool(b: bool)
    | Str(s: string)

  /** What CONSTVALUE returns: a primitive, an array (holes are `None`) or a RegExp. */
  datatype Value =
    | Primitive(p: Prim)
    | Array(elems: seq<Option<Value>>)
    | RegExp(pattern: string, flags: string)

  /** `typeof v === 'number'` */
  predicate IsNumber(p: Prim) {
    p.NaN? || p.NegZero? || p.Inf? || p.Num?
  }

  /** JavaScript ToBoolean: the falsy values are undefined, null, NaN, +0, -0, false and "". */
  predicate Truthy(v: Value) {
    match v
    case Primitive(p) =>
      !(p.Undefined? || p.Null? || p.NaN? || p.NegZero? || p == Num(0.0) || p == Bool(false) || p == Str(""))
    case _ => true
  }

  /** The string the `typeof` operator gives. */
  function TypeOf(v: Value): string {
    match v
    case Primitive(Undefined) => "undefined"
    case Primitive(Bool(_)) => "boolean"
    case Primitive(Str(_)) => "string"
    case Primitive(p) => if IsNumber(p) then "number" else "object"
    case _ => "object"
  }

  /** The result of the `!` operator. */
  function Not(v: Value): (r: Value)
    ensures r == Primitive(Bool(!Truthy(v)))
  {
    Primitive(Bool(!Truthy(v)))
  }

  /** Numeric negation, what unary `-` does after ToNumber; anything that is not a number negates to NaN. */
  function Negate(p: Prim): (r: Prim)
    ensures IsNumber(r)
    ensures IsNumber(p) && p != NaN ==> r != p
  {
    match p
    case NegZero => Num(0.0)
    case Num(x) => if x == 0.0 then NegZero else Num(-x)
    case Inf(n) => Inf(!n)
    case _ => NaN
  }

  /** Negating twice gives back every number but NaN. */
  lemma NegateTwice(p: Prim)
    requires IsNumber(p) && p != NaN
    ensures Negate(Negate(p)) == p
  {
  }

  /** `isFinite` on a number: neither NaN nor an infinity. */
  predicate IsFiniteNumber(p: Prim) {
    p.Num? || p.NegZero?
  }

  /**
   * The engine's own semantics, which the model does not reimplement:
   * ToNumber, ToString, the binary operators of FOLD_BINARY and the 32-bit
   * operator `~`. They are total functions supplied by the caller.
   */
  datatype Host = Host(
    toNumber: Value -> Prim,
    toString: Value -> string,
    binary: (string, Value, Value) -> Value,
    bitNot: Value -> Prim)

  /** `/^[$_a-z][$_a-z\d]*$/i.test(s)` */
  predicate IsIdentifierName(s: string) {
    |s| > 0 && IdentifierStart(s[0]) && forall i :: 1 <= i < |s| ==> IdentifierPart(s[i])
  }

  predicate IdentifierStart(c: char) {
    c == '$' || c == '_' || ('a' <= c <= 'z') || ('A' <= c <= 'Z')
  }

  predicate IdentifierPart(c: char) {
    IdentifierStart(c) || ('0' <= c <= '9')
  }

  /** `/Function/.test(s)`: `s` contains "Function". */
  predicate ContainsFunction(s: string)
    decreases |s|
  {
    |s| >= 8 && (s[..8] == "Function" || ContainsFunction(s[1..]))
  }

  /** Lexicographic order on UTF-16-free strings, the order of `Array.prototype.sort()`. */
  predicate LexLess(a: string, b: string)
    decreases |a|
  {
    if |a| == 0 then |b| > 0
    else if |b| == 0 then false
    else if a[0] < b[0] then true
    else a[0] == b[0] && LexLess(a[1..], b[1..])
  }

  lemma {:induction false} LexLessIrreflexive(a: string)
    ensures !LexLess(a, a)
    decreases |a|
  {
    if |a| > 0 {
      LexLessIrreflexive(a[1..]);
    }
  }

  lemma {:induction false} LexLessTransitive(a: string, b: string, c: string)
    requires LexLess(a, b) && LexLess(b, c)
    ensures LexLess(a, c)
    decreases |a|
  {
    if |a| > 0 && a[0] == b[0] && b[0] == c[0] {
      LexLessTransitive(a[1..], b[1..], c[1..]);
    }
  }

  lemma {:induction false} LexLessTotal(a: string, b: string)
    requires a != b
    ensures LexLess(a, b) || LexLess(b, a)
    decreases |a|
  {
    if |a| > 0 && |b| > 0 && a[0] == b[0] {
      LexLessTotal(a[1..], b[1..]);
    }
  }
}
