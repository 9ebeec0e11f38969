/**
 * WalkCombinator: a walker is a pair of generator chains. Its inputs chain
 * turns a walked value into a stream of paths, its outputs chain processes
 * each of them; `pipe` stacks combinators so that inputs run in the order
 * given and outputs in the reverse order. A generator is one of the stages
 * the model knows (the pass-through, DEPTH_FIRST, and the stages of the
 * constant folder); how a chain runs is in module Engine.
 */
module Walk {
  import opened Values
  import opened Tree

  /** The folding stages of the constant folder. */
  datatype RuleName =
    | FoldEmpty | FoldExprStmt | FoldWhile | FoldIf | FoldSequence | FoldLogical
    | FoldUnreachable | FoldConditional | FoldBinary | FoldUnary | FoldMember | MinValues

  /** The generator functions a chain is made of. */
  datatype Gen =
    | Passthrough          // `PASSTHROUGH`: yields its argument, returns the reply
    | DepthFirst           // `DEPTH_FIRST.inputs`
    | NeverArrays          // the folder's "We never work on Arrays" stage
    | Rule(rule: RuleName)

  /** A property read off a visitor: either a function or anything else. */
  datatype Member = NotFunction | Function(gen: Gen)

  /** What can be handed to the constructor or to `pipe`. */
  datatype Visitor =
    | Nullish                                  // null or undefined
    | FunctionValue(gen: Gen)                  // a generator function itself
    | Object(inputs: Member, outputs: Member)  // an object with (maybe) `inputs` and `outputs`

  /** `visitor.inputs` and `visitor.outputs` of a walker, as the chains they stand for. */
  datatype Walker = Walker(inputs: seq<Gen>, outputs: seq<Gen>)

  /** `toIter(match)`: a function is used as it is, anything else becomes PASSTHROUGH. */
  function ToIter(m: Member): (g: Gen)
    ensures m.Function? ==> g == m.gen
    ensures m.NotFunction? ==> g == Passthrough
  {
    if m.Function? then m.gen else Passthrough
  }

  /**
   * `new WalkCombinator(visitor, key)`: only `pipe` holds the guard. A
   * function is its own outputs; a function's `inputs` property is absent.
   */
  function Construct(visitor: Visitor, guarded: bool): (r: Result<Walker>)
    ensures !guarded <==> r == Err(UsePipe)
    ensures guarded && visitor.Nullish? ==> r == Ok(Walker([Passthrough], [Passthrough]))
    ensures guarded && visitor.FunctionValue? ==> r == Ok(Walker([Passthrough], [visitor.gen]))
    ensures guarded && visitor.Object? ==> r == Ok(Walker([ToIter(visitor.inputs)], [ToIter(visitor.outputs)]))
  {
    if !guarded then Err(UsePipe)
    else
      match visitor
      case Nullish => Ok(Walker([Passthrough], [Passthrough]))
      case FunctionValue(g) => Ok(Walker([Passthrough], [g]))
      case Object(i, o) => Ok(Walker([ToIter(i)], [ToIter(o)]))
  }

  /** What `const {inputs, outputs} of combinators` reads: destructuring null or undefined throws. */
  function Destructure(c: Visitor): Result<(Member, Member)> {
    match c
    case Nullish => Err(TypeError)
    case FunctionValue(_) => Ok((NotFunction, NotFunction))
    case Object(i, o) => Ok((i, o))
  }

  /** The input stages of `cs`, in order. */
  function InputsOf(cs: seq<Visitor>): (r: seq<Gen>)
    requires forall i :: 0 <= i < |cs| ==> !cs[i].Nullish?
    ensures |r| == |cs|
  {
    seq(|cs|, i requires 0 <= i < |cs| => ToIter(Destructure(cs[i]).value.0))
  }

  /** The output stages of `cs`, last combinator first. */
  function OutputsOf(cs: seq<Visitor>): (r: seq<Gen>)
    requires forall i :: 0 <= i < |cs| ==> !cs[i].Nullish?
    ensures |r| == |cs|
  {
    seq(|cs|, i requires 0 <= i < |cs| => ToIter(Destructure(cs[|cs| - 1 - i]).value.1))
  }

  /**
   * `WalkCombinator.pipe(...combinators)`: each combinator wraps the walker
   * built so far, its input stage after the inner inputs and its output stage
   * before the inner outputs.
   */
  method Pipe(cs: seq<Visitor>) returns (r: Result<Walker>)
    ensures (exists i :: 0 <= i < |cs| && cs[i].Nullish?) <==> r == Err(TypeError)
    ensures (forall i :: 0 <= i < |cs| ==> !cs[i].Nullish?) ==>
      r == Ok(Walker([Passthrough] + InputsOf(cs), OutputsOf(cs) + [Passthrough]))
  {
    var walker := Construct(Nullish, true).value;
    for i := 0 to |cs|
      invariant forall j :: 0 <= j < i ==> !cs[j].Nullish?
      invariant walker == Walker([Passthrough] + InputsOf(cs[..i]), OutputsOf(cs[..i]) + [Passthrough])
    {
      var d := Destructure(cs[i]);
      if d.Err? {
        return Err(d.error);
      }
      var (inputs, outputs) := d.value;
      var outer := walker;
      walker := Walker(outer.inputs + [ToIter(inputs)], [ToIter(outputs)] + outer.outputs);
      assert cs[..i + 1][..i] == cs[..i];
      assert InputsOf(cs[..i + 1]) == InputsOf(cs[..i]) + [ToIter(inputs)];
      assert OutputsOf(cs[..i + 1]) == [ToIter(outputs)] + OutputsOf(cs[..i]);
    }
    assert cs[..|cs|] == cs;
    return Ok(walker);
  }

  /**
   * The comment of `pipe`: input reaches the combinators in the order given,
   * output leaves them in the reverse order.
   */
  lemma PipeOrder(cs: seq<Visitor>, i: nat)
    requires forall j :: 0 <= j < |cs| ==> !cs[j].Nullish?
    requires i < |cs|
    ensures ([Passthrough] + InputsOf(cs))[i + 1] == ToIter(Destructure(cs[i]).value.0)
    ensures (OutputsOf(cs) + [Passthrough])[|cs| - 1 - i] == ToIter(Destructure(cs[i]).value.1)
  {
  }

  /** The stages one item passes through: all inputs, then all outputs. */
  function Chain(w: Walker): seq<Gen> {
    w.inputs + w.outputs
  }

  // ---- record keys ----------------------------------------------------------

  /** `s` is strictly increasing in the order of `sort()`. */
  predicate StrictlySorted(s: seq<string>) {
    forall i, j :: 0 <= i < j < |s| ==> LexLess(s[i], s[j])
  }

  /** `m` is the least key of `ks`. */
  predicate IsLeast(m: string, ks: set<string>) {
    m in ks && forall k :: k in ks ==> m == k || LexLess(m, k)
  }

  lemma {:induction false} LeastExists(ks: set<string>)
    requires ks != {}
    ensures exists m :: IsLeast(m, ks)
    decreases |ks|
  {
    var x :| x in ks;
    if ks == {x} {
      assert IsLeast(x, ks);
    } else {
      LeastExists(ks - {x});
      var m :| IsLeast(m, ks - {x});
      if LexLess(x, m) {
        forall k | k in ks
          ensures x == k || LexLess(x, k)
        {
          if k != x && k != m {
            LexLessTransitive(x, m, k);
          }
        }
        assert IsLeast(x, ks);
      } else {
        if x != m {
          LexLessTotal(x, m);
        }
        assert IsLeast(m, ks);
      }
    }
  }

  lemma LeastUnique(ks: set<string>)
    ensures forall m, n :: IsLeast(m, ks) && IsLeast(n, ks) ==> m == n
  {
    forall m, n | IsLeast(m, ks) && IsLeast(n, ks)
      ensures m == n
    {
      LexLessAsymmetric(m, n);
    }
  }

  /** `Object.keys(node).sort()` for a record with keys `ks`. */
  function SortedKeys(ks: set<string>): seq<string>
    decreases |ks|
  {
    if ks == {} then []
    else
      LeastExists(ks);
      LeastUnique(ks);
      var m :| IsLeast(m, ks);
      [m] + SortedKeys(ks - {m})
  }

  /** The sorted snapshot lists each key exactly once, in increasing order. */
  lemma {:induction false} SortedKeysMeaning(ks: set<string>)
    ensures StrictlySorted(SortedKeys(ks))
    ensures forall k :: k in ks <==> k in SortedKeys(ks)
    ensures |SortedKeys(ks)| == |ks|
    decreases |ks|
  {
    if ks != {} {
      var s := SortedKeys(ks);
      var m := s[0];
      assert IsLeast(m, ks);
      SortedKeysMeaning(ks - {m});
      assert s[1..] == SortedKeys(ks - {m});
      forall i, j | 0 <= i < j < |s|
        ensures LexLess(s[i], s[j])
      {
        if i == 0 {
          assert s[j] in ks - {m};
        }
      }
    }
  }

  /** Only one strictly sorted list has a given set of keys, so the snapshot does not depend on the enumeration order. */
  lemma {:induction false} SortedUnique(s: seq<string>, t: seq<string>)
    requires StrictlySorted(s) && StrictlySorted(t)
    requires forall k :: k in s <==> k in t
    ensures s == t
    decreases |s|
  {
    if s != [] {
      assert s[0] in t;
    }
    if t != [] {
      assert t[0] in s;
    }
    if s != [] && t != [] {
      HeadIsLeast(s);
      HeadIsLeast(t);
      assert s[0] in t && t[0] in s;
      LexLessAsymmetric(s[0], t[0]);
      forall k
        ensures k in s[1..] <==> k in t[1..]
      {
        if k in s[1..] {
          var j :| 1 <= j < |s| && s[j] == k;
          assert LexLess(s[0], s[j]);
          if k == t[0] {
            LexLessIrreflexive(k);
          }
          assert k in t;
          var i :| 0 <= i < |t| && t[i] == k;
          assert t[1..][i - 1] == k;
        }
        if k in t[1..] {
          var j :| 1 <= j < |t| && t[j] == k;
          assert LexLess(t[0], t[j]);
          if k == s[0] {
            LexLessIrreflexive(k);
          }
          assert k in s;
          var i :| 0 <= i < |s| && s[i] == k;
          assert s[1..][i - 1] == k;
        }
      }
      SortedUnique(s[1..], t[1..]);
      assert s == [s[0]] + s[1..] && t == [t[0]] + t[1..];
    }
  }

  lemma HeadIsLeast(s: seq<string>)
    requires StrictlySorted(s) && s != []
    ensures forall k :: k in s ==> k == s[0] || LexLess(s[0], k)
  {
  }

  lemma LexLessAsymmetric(a: string, b: string)
    ensures !(LexLess(a, b) && LexLess(b, a))
  {
    if LexLess(a, b) && LexLess(b, a) {
      LexLessTransitive(a, b, a);
      LexLessIrreflexive(a);
    }
  }
}
