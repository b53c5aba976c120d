/** Properties every closure has, proved by induction over the grammar:
    the remaining input is a suffix of the input, the fuel bound only ever
    cuts a run short, and repetition loops stop exactly when their child
    eventually reports `False`. */
module Invariants {
  import opened Values
  import opened Text
  import opened Grammar
  import opened Semantics

  lemma SuffixTrans(a: string, b: string, c: string)
    requires IsSuffix(a, b) && IsSuffix(b, c)
    ensures IsSuffix(a, c)
  {
    assert c[|c| - |a|..] == c[|c| - |b|..][|b| - |a|..];
  }

  lemma SuffixDrop(s: string, n: nat)
    requires n <= |s|
    ensures IsSuffix(s[n..], s)
  {
  }

  // ---------------------------------------------------------------------
  // The remaining input is a suffix of the input.

  /** No closure ever returns text that was not at the end of its input:
      whatever it reports, the remaining input is a suffix of `src`. */
  lemma {:induction false} RestIsSuffix(m: Matcher, g: Grammar, src: string, hasAst: bool,
                                        skip: bool, fuel: nat)
    ensures Eval(m, g, src, hasAst, skip, fuel).Ok? ==>
      IsSuffix(Eval(m, g, src, hasAst, skip, fuel).value.out.rest, src)
    decreases g, 2, 0
  {
    match g
    case Terminal(name, pattern, _) =>
      TerminalRestIsSuffix(m, name, pattern, src, hasAst, skip);
    case Sequence(_, _, _, _) =>
      SeqRestIsSuffix(m, g, 0, src, [], skip, fuel);
    case Ordered(_, _, _, _) =>
      AltRestIsSuffix(m, g, 0, src, [], skip, fuel);
    case ZeroOrMore(_, _, _, _) =>
      StarRestIsSuffix(m, g, src, [], skip, fuel, fuel);
    case OneOrMore(_, _, _, _) =>
      OneOrMoreRestIsSuffix(m, g, src, hasAst, skip, fuel);
    case Optional(_, c, _, _) =>
      RestIsSuffix(m, c, src, true, ChildSkip(skip, c), fuel);
    case AndPred(_, _, _, _) =>
    case NotPred(_, _, _, _) =>
  }

  lemma TerminalRestIsSuffix(m: Matcher, name: string, pattern: string, src: string, hasAst: bool, skip: bool)
    ensures IsSuffix(EvalTerminal(m, name, pattern, src, hasAst, skip).value.out.rest, src)
  {
    var s := SkipSpace(src, skip);
    SkipSpaceSpec(src, skip);
    if m(pattern, s).Some? {
      SuffixDrop(s, m(pattern, s).value);
      SuffixTrans(s[m(pattern, s).value..], s, src);
    }
  }

  lemma {:induction false} OneOrMoreRestIsSuffix(m: Matcher, g: Grammar, src: string, hasAst: bool,
                                                 skip: bool, fuel: nat)
    requires g.OneOrMore?
    ensures EvalOneOrMore(m, g, src, hasAst, skip, fuel).Ok? ==>
      IsSuffix(EvalOneOrMore(m, g, src, hasAst, skip, fuel).value.out.rest, src)
    decreases g, 1, 0
  {
    var c := g.child;
    var r := Eval(m, c, src, true, ChildSkip(skip, c), fuel);
    RestIsSuffix(m, c, src, true, ChildSkip(skip, c), fuel);
    if r.Ok? && r.value.out.flag {
      StarRestIsSuffix(m, g, r.value.out.rest, r.value.emitted, skip, fuel, fuel);
      var e := EvalStar(m, g, r.value.out.rest, r.value.emitted, skip, fuel, fuel);
      if e.Ok? {
        SuffixTrans(e.value.src, r.value.out.rest, src);
      }
    }
  }

  lemma {:induction false} SeqRestIsSuffix(m: Matcher, g: Grammar, i: nat, src: string,
                                           local: seq<PyVal>, skip: bool, fuel: nat)
    requires g.Sequence? && i <= |g.children|
    ensures EvalSeq(m, g, i, src, local, skip, fuel).Ok? ==>
      IsSuffix(EvalSeq(m, g, i, src, local, skip, fuel).value.src, src)
    decreases g, 0, |g.children| - i
  {
    if i < |g.children| {
      var c := g.children[i];
      var r := Eval(m, c, src, true, ChildSkip(skip, c), fuel);
      RestIsSuffix(m, c, src, true, ChildSkip(skip, c), fuel);
      if r.Ok? && r.value.out.flag {
        SeqRestIsSuffix(m, g, i + 1, r.value.out.rest, local + r.value.emitted, skip, fuel);
        var e := EvalSeq(m, g, i + 1, r.value.out.rest, local + r.value.emitted, skip, fuel);
        if e.Ok? {
          SuffixTrans(e.value.src, r.value.out.rest, src);
        }
      }
    }
  }

  lemma {:induction false} AltRestIsSuffix(m: Matcher, g: Grammar, i: nat, src: string,
                                           local: seq<PyVal>, skip: bool, fuel: nat)
    requires g.Ordered? && i <= |g.children|
    ensures EvalAlt(m, g, i, src, local, skip, fuel).Ok? ==>
      IsSuffix(EvalAlt(m, g, i, src, local, skip, fuel).value.src, src)
    decreases g, 0, |g.children| - i
  {
    if i < |g.children| {
      var c := g.children[i];
      var r := Eval(m, c, src, true, ChildSkip(skip, c), fuel);
      RestIsSuffix(m, c, src, true, ChildSkip(skip, c), fuel);
      if r.Ok? && !r.value.out.flag {
        AltRestIsSuffix(m, g, i + 1, src, local + r.value.emitted, skip, fuel);
      }
    }
  }

  lemma {:induction false} StarRestIsSuffix(m: Matcher, g: Grammar, src: string, local: seq<PyVal>,
                                            skip: bool, fuel: nat, left: nat)
    requires g.ZeroOrMore? || g.OneOrMore?
    ensures EvalStar(m, g, src, local, skip, fuel, left).Ok? ==>
      IsSuffix(EvalStar(m, g, src, local, skip, fuel, left).value.src, src)
    decreases g, 0, left
  {
    if left > 0 {
      var c := g.child;
      var r := Eval(m, c, src, true, ChildSkip(skip, c), fuel);
      RestIsSuffix(m, c, src, true, ChildSkip(skip, c), fuel);
      if r.Ok? && r.value.out.flag {
        StarRestIsSuffix(m, g, r.value.out.rest, local + r.value.emitted, skip, fuel, left - 1);
        var e := EvalStar(m, g, r.value.out.rest, local + r.value.emitted, skip, fuel, left - 1);
        if e.Ok? {
          SuffixTrans(e.value.src, r.value.out.rest, src);
        }
      }
    }
  }

  // ---------------------------------------------------------------------
  // Fuel only cuts a run short.

  /** A run that finishes within some fuel bound finishes identically under
      every larger bound: the bound never changes a result, it only stands
      for a loop that has not stopped yet. */
  lemma {:induction false} FuelMonotone(m: Matcher, g: Grammar, src: string, hasAst: bool,
                                        skip: bool, f1: nat, f2: nat)
    requires f1 <= f2
    requires Eval(m, g, src, hasAst, skip, f1) != OutOfFuel
    ensures Eval(m, g, src, hasAst, skip, f2) == Eval(m, g, src, hasAst, skip, f1)
    decreases g, 2, 0
  {
    match g
    case Terminal(_, _, _) =>
    case Sequence(_, _, _, _) =>
      SeqFuelMonotone(m, g, 0, src, [], skip, f1, f2);
    case Ordered(_, _, _, _) =>
      AltFuelMonotone(m, g, 0, src, [], skip, f1, f2);
    case ZeroOrMore(_, _, _, _) =>
      StarFuelMonotone(m, g, src, [], skip, f1, f2, f1, f2);
    case OneOrMore(_, _, _, _) =>
      OneOrMoreFuelMonotone(m, g, src, hasAst, skip, f1, f2);
    case Optional(_, c, _, _) =>
      FuelMonotone(m, c, src, true, ChildSkip(skip, c), f1, f2);
    case AndPred(_, c, _, _) =>
      FuelMonotone(m, c, src, false, ChildSkip(skip, c), f1, f2);
    case NotPred(_, c, _, _) =>
      FuelMonotone(m, c, src, false, ChildSkip(skip, c), f1, f2);
  }

  lemma {:induction false} OneOrMoreFuelMonotone(m: Matcher, g: Grammar, src: string, hasAst: bool,
                                                 skip: bool, f1: nat, f2: nat)
    requires g.OneOrMore?
    requires f1 <= f2
    requires EvalOneOrMore(m, g, src, hasAst, skip, f1) != OutOfFuel
    ensures EvalOneOrMore(m, g, src, hasAst, skip, f2) == EvalOneOrMore(m, g, src, hasAst, skip, f1)
    decreases g, 1, 0
  {
    var c := g.child;
    FuelMonotone(m, c, src, true, ChildSkip(skip, c), f1, f2);
    var r := Eval(m, c, src, true, ChildSkip(skip, c), f1);
    if r.Ok? && r.value.out.flag {
      StarFuelMonotone(m, g, r.value.out.rest, r.value.emitted, skip, f1, f2, f1, f2);
    }
  }

  lemma {:induction false} SeqFuelMonotone(m: Matcher, g: Grammar, i: nat, src: string,
                                           local: seq<PyVal>, skip: bool, f1: nat, f2: nat)
    requires g.Sequence? && i <= |g.children|
    requires f1 <= f2
    requires EvalSeq(m, g, i, src, local, skip, f1) != OutOfFuel
    ensures EvalSeq(m, g, i, src, local, skip, f2) == EvalSeq(m, g, i, src, local, skip, f1)
    decreases g, 0, |g.children| - i
  {
    if i < |g.children| {
      var c := g.children[i];
      FuelMonotone(m, c, src, true, ChildSkip(skip, c), f1, f2);
      var r := Eval(m, c, src, true, ChildSkip(skip, c), f1);
      if r.Ok? && r.value.out.flag {
        SeqFuelMonotone(m, g, i + 1, r.value.out.rest, local + r.value.emitted, skip, f1, f2);
      }
    }
  }

  lemma {:induction false} AltFuelMonotone(m: Matcher, g: Grammar, i: nat, src: string,
                                           local: seq<PyVal>, skip: bool, f1: nat, f2: nat)
    requires g.Ordered? && i <= |g.children|
    requires f1 <= f2
    requires EvalAlt(m, g, i, src, local, skip, f1) != OutOfFuel
    ensures EvalAlt(m, g, i, src, local, skip, f2) == EvalAlt(m, g, i, src, local, skip, f1)
    decreases g, 0, |g.children| - i
  {
    if i < |g.children| {
      var c := g.children[i];
      FuelMonotone(m, c, src, true, ChildSkip(skip, c), f1, f2);
      var r := Eval(m, c, src, true, ChildSkip(skip, c), f1);
      if r.Ok? && !r.value.out.flag {
        AltFuelMonotone(m, g, i + 1, src, local + r.value.emitted, skip, f1, f2);
      }
    }
  }

  /** For a repetition loop, both the fuel handed to the child and the
      number of calls left may grow. */
  lemma {:induction false} StarFuelMonotone(m: Matcher, g: Grammar, src: string, local: seq<PyVal>,
                                            skip: bool, f1: nat, f2: nat, l1: nat, l2: nat)
    requires g.ZeroOrMore? || g.OneOrMore?
    requires f1 <= f2 && l1 <= l2
    requires EvalStar(m, g, src, local, skip, f1, l1) != OutOfFuel
    ensures EvalStar(m, g, src, local, skip, f2, l2) == EvalStar(m, g, src, local, skip, f1, l1)
    decreases g, 0, l1
  {
    var c := g.child;
    FuelMonotone(m, c, src, true, ChildSkip(skip, c), f1, f2);
    var r := Eval(m, c, src, true, ChildSkip(skip, c), f1);
    if r.Ok? && r.value.out.flag {
      StarFuelMonotone(m, g, r.value.out.rest, local + r.value.emitted, skip, f1, f2, l1 - 1, l2 - 1);
    }
  }

  // ---------------------------------------------------------------------
  // Repetition loops: when they stop and when they do not.


  /** The child reports `True` and leaves its input exactly as it was. */
  ghost predicate Stalls(m: Matcher, c: Grammar, src: string, skip: bool, fuel: nat)
  {
    var r := Eval(m, c, src, true, skip, fuel);
    r.Ok? && r.value.out.flag && r.value.out.rest == src
  }

  /** A repetition loop whose child reports `True` on the loop's input and
      hands that same input back spends every turn it is allowed. */
  lemma {:induction false} StarStalls(m: Matcher, g: Grammar, src: string, local: seq<PyVal>,
                   skip: bool, fuel: nat, left: nat, e: seq<PyVal>)
    requires g.ZeroOrMore? || g.OneOrMore?
    requires Eval(m, g.child, src, true, ChildSkip(skip, g.child), fuel) == Ok(Reply(Outcome(true, src), e))
    ensures EvalStar(m, g, src, local, skip, fuel, left) == OutOfFuel
  {
    var k, l := left, local;
    while k != 0
      invariant EvalStar(m, g, src, local, skip, fuel, left) == EvalStar(m, g, src, l, skip, fuel, k)
    {
      StarAdvance(m, g, src, l, skip, fuel, k, src, e);
      k, l := k - 1, l + e;
    }
  }

  /** A `zeroOrMore` or `oneOrMore` whose child succeeds without consuming
      input never leaves its loop: it runs out of every fuel bound at least
      as large as the one at which the child was seen to stall. */
  lemma RepetitionDiverges(m: Matcher, g: Grammar, src: string, hasAst: bool, skip: bool, f0: nat)
    requires g.ZeroOrMore? || g.OneOrMore?
    requires Stalls(m, g.child, src, ChildSkip(skip, g.child), f0)
    ensures forall f :: f >= f0 ==> Eval(m, g, src, hasAst, skip, f) == OutOfFuel
  {
    forall f | f >= f0
      ensures Eval(m, g, src, hasAst, skip, f) == OutOfFuel
    {
      FuelMonotone(m, g.child, src, true, ChildSkip(skip, g.child), f0, f);
      var r := Eval(m, g.child, src, true, ChildSkip(skip, g.child), f);
      if g.ZeroOrMore? {
        StarStalls(m, g, src, [], skip, f, f, r.value.emitted);
        assert EvalZeroOrMore(m, g, src, hasAst, skip, f) == OutOfFuel;
      } else {
        StarStalls(m, g, src, r.value.emitted, skip, f, f, r.value.emitted);
        assert EvalOneOrMore(m, g, src, hasAst, skip, f) == OutOfFuel;
      }
    }
  }

  /** The child, on this input, neither runs out of fuel nor reports `True`
      without consuming at least one character. */
  ghost predicate Progresses(m: Matcher, c: Grammar, src: string, skip: bool, fuel: nat)
  {
    var r := Eval(m, c, src, true, skip, fuel);
    r != OutOfFuel && (r.Ok? && r.value.out.flag ==> |r.value.out.rest| < |src|)
  }

  lemma {:induction false} StarTerminates(m: Matcher, g: Grammar, src: string, local: seq<PyVal>,
                                          skip: bool, fuel: nat, left: nat)
    requires g.ZeroOrMore? || g.OneOrMore?
    requires left > |src|
    requires forall s :: IsSuffix(s, src) ==> Progresses(m, g.child, s, ChildSkip(skip, g.child), fuel)
    ensures EvalStar(m, g, src, local, skip, fuel, left) != OutOfFuel
    decreases left
  {
    var c := g.child;
    assert IsSuffix(src, src);
    var r := Eval(m, c, src, true, ChildSkip(skip, c), fuel);
    if r.Ok? && r.value.out.flag {
      var rest := r.value.out.rest;
      RestIsSuffix(m, c, src, true, ChildSkip(skip, c), fuel);
      forall s | IsSuffix(s, rest)
        ensures Progresses(m, c, s, ChildSkip(skip, c), fuel)
      {
        SuffixTrans(s, rest, src);
      }
      StarTerminates(m, g, rest, local + r.value.emitted, skip, fuel, left - 1);
    }
  }

  /** Conversely, when the child makes progress on every suffix of the input,
      a `zeroOrMore` loop stops within one call more than the input's
      length. */
  lemma ZeroOrMoreTerminates(m: Matcher, g: Grammar, src: string, hasAst: bool, skip: bool, fuel: nat)
    requires g.ZeroOrMore?
    requires fuel > |src|
    requires forall s :: IsSuffix(s, src) ==> Progresses(m, g.child, s, ChildSkip(skip, g.child), fuel)
    ensures Eval(m, g, src, hasAst, skip, fuel) != OutOfFuel
  {
    StarTerminates(m, g, src, [], skip, fuel, fuel);
  }
}
