/** What each closure promises its caller, stated as relations between the
    input, the child closures' results and the closure's own result. */
module Properties {
  import opened Values
  import opened Text
  import opened Grammar
  import opened Semantics
  import opened Invariants

  /** The entries of several runs, concatenated in order. */
  function Flatten(es: seq<seq<PyVal>>): seq<PyVal>
  {
    if |es| == 0 then [] else es[0] + Flatten(es[1..])
  }

  lemma FlattenCons(e: seq<PyVal>, es: seq<seq<PyVal>>)
    ensures Flatten([e] + es) == e + Flatten(es)
  {
    assert ([e] + es)[1..] == es;
  }

  lemma {:induction false} FlattenSnoc(es: seq<seq<PyVal>>, e: seq<PyVal>)
    ensures Flatten(es + [e]) == Flatten(es) + e
    decreases |es|
  {
    if |es| == 0 {
      assert es + [e] == [e] + es;
      FlattenCons(e, es);
    } else {
      assert (es + [e])[1..] == es[1..] + [e];
      FlattenSnoc(es[1..], e);
    }
  }

  /** An AST entry `(name, v)` for some `v`. */
  predicate NamedEntry(v: PyVal, name: string)
  {
    v.List? && |v.items| == 2 && v.items[0] == Str(name)
  }

  // ---------------------------------------------------------------------
  // Terminals.

  /** A terminal looks at its input after `_skipSpace`; it succeeds exactly
      when the pattern matches there, removes precisely the matched text,
      and appends the one pair `(name, matched text)` unless it was handed
      `None`. On a failed match it returns the (possibly stripped) input. */
  lemma TerminalSpec(m: Matcher, g: Grammar, src: string, hasAst: bool, skip: bool, fuel: nat)
    requires g.Terminal?
    ensures Eval(m, g, src, hasAst, skip, fuel).Ok?
    ensures var r := Eval(m, g, src, hasAst, skip, fuel).value;
      r.out.flag <==> m(g.pattern, SkipSpace(src, skip)).Some?
    ensures var r := Eval(m, g, src, hasAst, skip, fuel).value; var s := SkipSpace(src, skip);
      IsSuffix(r.out.rest, s)
      && (r.out.flag ==> m(g.pattern, s) == Some(|s| - |r.out.rest|))
      && (!r.out.flag ==> r.out.rest == s)
    ensures var r := Eval(m, g, src, hasAst, skip, fuel).value; var s := SkipSpace(src, skip);
      r.emitted == if hasAst && r.out.flag then [Entry(g.name, Str(s[..|s| - |r.out.rest|]))] else []
  {
    var s := SkipSpace(src, skip);
    if m(g.pattern, s).Some? {
      SuffixDrop(s, m(g.pattern, s).value);
    }
  }

  // ---------------------------------------------------------------------
  // The shared tail of the collecting combinators.

  /** `Finish` appends one entry exactly when the local list is non-empty,
      fails with `None.append` exactly when it would append to `None`, fails
      in `join` exactly when the reduction does, and otherwise reports `True`
      exactly when input remains. */
  lemma FinishSpec(name: string, isConv: bool, hasAst: bool, acc: Acc)
    ensures Finish(name, isConv, hasAst, acc) != OutOfFuel
    ensures Finish(name, isConv, hasAst, acc) == Raised(NoneAppend) <==> acc.local != [] && !hasAst
    ensures Finish(name, isConv, hasAst, acc) == Raised(JoinTypeError)
        <==> acc.local != [] && hasAst && isConv && ToStr(List(acc.local)).None?
    ensures Finish(name, isConv, hasAst, acc).Ok? ==>
      Finish(name, isConv, hasAst, acc).value.out == Outcome(acc.src != "", acc.src)
    ensures Finish(name, isConv, hasAst, acc).Ok? ==>
      Finish(name, isConv, hasAst, acc).value.emitted
      == if acc.local == [] then []
         else [Entry(name, if isConv then ToStr(List(acc.local)).value else List(acc.local))]
  {
  }

  /** `sequence`, `ordered` and `zeroOrMore` report `True` exactly when input
      remains, whatever their children reported. */
  lemma CollectingFlag(m: Matcher, g: Grammar, src: string, hasAst: bool, skip: bool, fuel: nat)
    requires g.Sequence? || g.Ordered? || g.ZeroOrMore?
    ensures Eval(m, g, src, hasAst, skip, fuel).Ok? ==>
      Eval(m, g, src, hasAst, skip, fuel).value.out.flag == (Eval(m, g, src, hasAst, skip, fuel).value.out.rest != "")
  {
    match g
    case Sequence(_, _, _, _) =>
      var a := EvalSeq(m, g, 0, src, [], skip, fuel);
      if a.Ok? { FinishSpec(g.name, g.isConv, hasAst, a.value); }
    case Ordered(_, _, _, _) =>
      var a := EvalAlt(m, g, 0, src, [], skip, fuel);
      if a.Ok? { FinishSpec(g.name, g.isConv, hasAst, a.value); }
    case ZeroOrMore(_, _, _, _) =>
      var a := EvalStar(m, g, src, [], skip, fuel, fuel);
      if a.Ok? { FinishSpec(g.name, g.isConv, hasAst, a.value); }
  }

  /** `oneOrMore` follows the same rule once its first attempt succeeds;
      when that attempt fails it returns `False` with its input untouched,
      whether or not input remains, and appends nothing. */
  lemma OneOrMoreFlag(m: Matcher, g: Grammar, src: string, hasAst: bool, skip: bool, fuel: nat)
    requires g.OneOrMore?
    ensures var c := Eval(m, g.child, src, true, ChildSkip(skip, g.child), fuel);
      var r := Eval(m, g, src, hasAst, skip, fuel);
      c.Ok? && c.value.out.flag && r.Ok? ==> r.value.out.flag == (r.value.out.rest != "")
    ensures var c := Eval(m, g.child, src, true, ChildSkip(skip, g.child), fuel);
      c.Ok? && !c.value.out.flag ==> Eval(m, g, src, hasAst, skip, fuel) == Ok(Reply(Outcome(false, src), []))
  {
    var c := Eval(m, g.child, src, true, ChildSkip(skip, g.child), fuel);
    if c.Ok? && c.value.out.flag {
      var a := EvalStar(m, g, c.value.out.rest, c.value.emitted, skip, fuel, fuel);
      if a.Ok? { FinishSpec(g.name, g.isConv, hasAst, a.value); }
    }
  }

  /** Every node appends at most one entry, named after the node, and only
      to a list; the predicates never append. */
  lemma EntriesOfNode(m: Matcher, g: Grammar, src: string, hasAst: bool, skip: bool, fuel: nat)
    ensures Eval(m, g, src, hasAst, skip, fuel).Ok? ==> |Eval(m, g, src, hasAst, skip, fuel).value.emitted| <= 1
    ensures Eval(m, g, src, hasAst, skip, fuel).Ok? && |Eval(m, g, src, hasAst, skip, fuel).value.emitted| == 1 ==>
      hasAst && NamedEntry(Eval(m, g, src, hasAst, skip, fuel).value.emitted[0], g.name)
    ensures (g.AndPred? || g.NotPred?) && Eval(m, g, src, hasAst, skip, fuel).Ok? ==>
      Eval(m, g, src, hasAst, skip, fuel).value.emitted == []
  {
    match g
    case Terminal(_, _, _) =>
    case Sequence(_, _, _, _) =>
      var a := EvalSeq(m, g, 0, src, [], skip, fuel);
      if a.Ok? { FinishSpec(g.name, g.isConv, hasAst, a.value); }
    case Ordered(_, _, _, _) =>
      var a := EvalAlt(m, g, 0, src, [], skip, fuel);
      if a.Ok? { FinishSpec(g.name, g.isConv, hasAst, a.value); }
    case ZeroOrMore(_, _, _, _) =>
      var a := EvalStar(m, g, src, [], skip, fuel, fuel);
      if a.Ok? { FinishSpec(g.name, g.isConv, hasAst, a.value); }
    case OneOrMore(_, _, _, _) =>
      var c := Eval(m, g.child, src, true, ChildSkip(skip, g.child), fuel);
      if c.Ok? && c.value.out.flag {
        var a := EvalStar(m, g, c.value.out.rest, c.value.emitted, skip, fuel, fuel);
        if a.Ok? { FinishSpec(g.name, g.isConv, hasAst, a.value); }
      }
    case Optional(_, _, _, _) =>
    case AndPred(_, _, _, _) =>
    case NotPred(_, _, _, _) =>
  }

  /** Handing a closure `None` instead of a list changes nothing but the
      appending: a run that would append nothing is unchanged, a terminal
      that would append drops its entry, and any other node that would
      append fails with `None.append`. */
  lemma NoneAst(m: Matcher, g: Grammar, src: string, skip: bool, fuel: nat)
    ensures var t := Eval(m, g, src, true, skip, fuel);
      t.Ok? && t.value.emitted == [] ==> Eval(m, g, src, false, skip, fuel) == t
    ensures var t := Eval(m, g, src, true, skip, fuel);
      t.Ok? && t.value.emitted != [] ==>
        Eval(m, g, src, false, skip, fuel)
        == if g.Terminal? then Ok(Reply(t.value.out, [])) else Raised(NoneAppend)
    ensures var f := Eval(m, g, src, false, skip, fuel); var t := Eval(m, g, src, true, skip, fuel);
      f.Ok? ==> t.Ok? && t.value.out == f.value.out && f.value.emitted == []
    ensures Eval(m, g, src, true, skip, fuel) == OutOfFuel ==> Eval(m, g, src, false, skip, fuel) == OutOfFuel
  {
    match g
    case Terminal(_, _, _) =>
    case Sequence(_, _, _, _) =>
      var a := EvalSeq(m, g, 0, src, [], skip, fuel);
      if a.Ok? {
        FinishSpec(g.name, g.isConv, true, a.value);
        FinishSpec(g.name, g.isConv, false, a.value);
      }
    case Ordered(_, _, _, _) =>
      var a := EvalAlt(m, g, 0, src, [], skip, fuel);
      if a.Ok? {
        FinishSpec(g.name, g.isConv, true, a.value);
        FinishSpec(g.name, g.isConv, false, a.value);
      }
    case ZeroOrMore(_, _, _, _) =>
      var a := EvalStar(m, g, src, [], skip, fuel, fuel);
      if a.Ok? {
        FinishSpec(g.name, g.isConv, true, a.value);
        FinishSpec(g.name, g.isConv, false, a.value);
      }
    case OneOrMore(_, _, _, _) =>
      var c := Eval(m, g.child, src, true, ChildSkip(skip, g.child), fuel);
      if c.Ok? && c.value.out.flag {
        var a := EvalStar(m, g, c.value.out.rest, c.value.emitted, skip, fuel, fuel);
        if a.Ok? {
          FinishSpec(g.name, g.isConv, true, a.value);
          FinishSpec(g.name, g.isConv, false, a.value);
        }
      }
    case Optional(_, _, _, _) =>
    case AndPred(_, _, _, _) =>
    case NotPred(_, _, _, _) =>
  }

  // ---------------------------------------------------------------------
  // Sequence.

  /** Child `c`, called on `s` with effective `isSkip` from `skip`, reports
      `True`, leaves `rest` and appends `e`. */
  ghost predicate Advances(m: Matcher, c: Grammar, s: string, skip: bool, fuel: nat, rest: string, e: seq<PyVal>)
  {
    Eval(m, c, s, true, ChildSkip(skip, c), fuel) == Ok(Reply(Outcome(true, rest), e))
  }

  /** Child `c`, called on `s`, reports `False` and appends `e`. */
  ghost predicate Declines(m: Matcher, c: Grammar, s: string, skip: bool, fuel: nat, e: seq<PyVal>)
  {
    var r := Eval(m, c, s, true, ChildSkip(skip, c), fuel);
    r.Ok? && !r.value.out.flag && r.value.emitted == e
  }

  /** A `sequence` loop run: the children from `i` that reported `True`, each
      handed the remainder its predecessor left (`srcs`), with the entries
      each appended (`es`); then either the children ran out or the next one
      reported `False` after appending `last`. The loop ends on the remainder
      the last successful child left, not on the sequence's input, and keeps
      every entry. */
  lemma {:induction false} SeqRun(m: Matcher, g: Grammar, i: nat, src: string, local: seq<PyVal>,
                                  skip: bool, fuel: nat)
      returns (srcs: seq<string>, es: seq<seq<PyVal>>, last: seq<PyVal>)
    requires g.Sequence? && i <= |g.children|
    requires EvalSeq(m, g, i, src, local, skip, fuel).Ok?
    ensures |srcs| == |es| + 1 && srcs[0] == src && i + |es| <= |g.children|
    ensures forall k :: i <= k < i + |es| ==>
      Advances(m, g.children[k], srcs[k - i], skip, fuel, srcs[k - i + 1], es[k - i])
    ensures i + |es| < |g.children| ==> Declines(m, g.children[i + |es|], srcs[|es|], skip, fuel, last)
    ensures i + |es| == |g.children| ==> last == []
    ensures EvalSeq(m, g, i, src, local, skip, fuel).value == Acc(srcs[|es|], local + Flatten(es) + last)
  {
    srcs, es, last := [src], [], [];
    var n := |g.children|;
    assert local + Flatten([]) == local;
    while i + |es| < n
      invariant |srcs| == |es| + 1 && srcs[0] == src && i + |es| <= n
      invariant forall k :: i <= k < i + |es| ==>
        Advances(m, g.children[k], srcs[k - i], skip, fuel, srcs[k - i + 1], es[k - i])
      invariant EvalSeq(m, g, i, src, local, skip, fuel)
             == EvalSeq(m, g, i + |es|, srcs[|es|], local + Flatten(es), skip, fuel)
      decreases n - |es|
    {
      var j, s := i + |es|, srcs[|es|];
      var adv, rest, e := SeqChild(m, g, j, s, local + Flatten(es), skip, fuel);
      if !adv {
        last := e;
        return;
      }
      FlattenSnoc(es, e);
      assert local + Flatten(es) + e == local + Flatten(es + [e]);
      SeqChainSnoc(m, g, i, srcs, es, skip, fuel, rest, e);
      srcs, es := srcs + [rest], es + [e];
    }
    assert local + Flatten(es) + [] == local + Flatten(es);
    SeqEnd(m, g, i + |es|, srcs[|es|], local + Flatten(es), skip, fuel);
  }

  /** The step of a `sequence` loop at child `j`: the child either reports
      `True` and the loop goes on from what it left, or reports `False` and
      the loop ends where the child started. */
  lemma SeqChild(m: Matcher, g: Grammar, j: nat, s: string, acc: seq<PyVal>, skip: bool, fuel: nat)
      returns (adv: bool, rest: string, e: seq<PyVal>)
    requires g.Sequence? && j < |g.children|
    requires EvalSeq(m, g, j, s, acc, skip, fuel).Ok?
    ensures adv ==> Advances(m, g.children[j], s, skip, fuel, rest, e)
    ensures adv ==> EvalSeq(m, g, j, s, acc, skip, fuel) == EvalSeq(m, g, j + 1, rest, acc + e, skip, fuel)
    ensures !adv ==> Declines(m, g.children[j], s, skip, fuel, e)
    ensures !adv ==> EvalSeq(m, g, j, s, acc, skip, fuel) == Ok(Acc(s, acc + e))
  {
    var c := g.children[j];
    var r := Eval(m, c, s, true, ChildSkip(skip, c), fuel);
    SeqStep(m, g, j, s, acc, skip, fuel);
    adv, rest, e := r.value.out.flag, r.value.out.rest, r.value.emitted;
  }

  /** A `sequence` loop with no children left ends where it stands. */
  lemma SeqEnd(m: Matcher, g: Grammar, j: nat, s: string, acc: seq<PyVal>, skip: bool, fuel: nat)
    requires g.Sequence? && j == |g.children|
    ensures EvalSeq(m, g, j, s, acc, skip, fuel) == Ok(Acc(s, acc))
  { }

  /** One more child that reports `True` extends a `sequence` run. */
  lemma SeqChainSnoc(m: Matcher, g: Grammar, i: nat, srcs: seq<string>, es: seq<seq<PyVal>>,
                     skip: bool, fuel: nat, rest: string, e: seq<PyVal>)
    requires g.Sequence? && |srcs| == |es| + 1 && i + |es| < |g.children|
    requires forall k :: i <= k < i + |es| ==>
      Advances(m, g.children[k], srcs[k - i], skip, fuel, srcs[k - i + 1], es[k - i])
    requires Advances(m, g.children[i + |es|], srcs[|es|], skip, fuel, rest, e)
    ensures forall k :: i <= k < i + |es| + 1 ==>
      Advances(m, g.children[k], (srcs + [rest])[k - i], skip, fuel, (srcs + [rest])[k - i + 1], (es + [e])[k - i])
  {
    var s2, e2 := srcs + [rest], es + [e];
    forall k | i <= k < i + |es| + 1
      ensures Advances(m, g.children[k], s2[k - i], skip, fuel, s2[k - i + 1], e2[k - i])
    {
      if k < i + |es| {
        assert s2[k - i] == srcs[k - i] && s2[k - i + 1] == srcs[k - i + 1] && e2[k - i] == es[k - i];
      }
    }
  }

  /** The run of a `sequence` from child `i` stops before child `k`: some
      child before `k` reports `False` or does not return normally. */
  ghost predicate SeqStopsBefore(m: Matcher, g: Grammar, i: nat, k: nat, src: string, skip: bool, fuel: nat)
    requires g.Sequence? && i <= |g.children|
    decreases |g.children| - i
  {
    i < k && i < |g.children| &&
    var c := g.children[i];
    var r := Eval(m, c, src, true, ChildSkip(skip, c), fuel);
    !r.Ok? || !r.value.out.flag || SeqStopsBefore(m, g, i + 1, k, r.value.out.rest, skip, fuel)
  }

  /** The children after the one at which a `sequence` stops are never run:
      two sequences that agree up to and including that child behave the
      same. */
  lemma {:induction false} SequenceIgnoresLater(m: Matcher, g1: Grammar, g2: Grammar, i: nat, k: nat,
                                                src: string, local: seq<PyVal>, skip: bool, fuel: nat)
    requires g1.Sequence? && g2.Sequence? && i <= |g1.children| && i <= |g2.children|
    requires k <= |g1.children| && k <= |g2.children| && g1.children[..k] == g2.children[..k]
    requires SeqStopsBefore(m, g1, i, k, src, skip, fuel)
    ensures EvalSeq(m, g2, i, src, local, skip, fuel) == EvalSeq(m, g1, i, src, local, skip, fuel)
    decreases |g1.children| - i
  {
    assert g1.children[i] == g1.children[..k][i] == g2.children[..k][i] == g2.children[i];
    var c := g1.children[i];
    var r := Eval(m, c, src, true, ChildSkip(skip, c), fuel);
    if r.Ok? && r.value.out.flag {
      SequenceIgnoresLater(m, g1, g2, i + 1, k, r.value.out.rest, local + r.value.emitted, skip, fuel);
    }
  }

  // ---------------------------------------------------------------------
  // Ordered choice.

  /** An `ordered` loop run: every alternative from `i` on is handed the
      same input; the loop adopts the remainder of the first one reporting
      `True` (index `i + |es|`, appending `last`), after the alternatives
      before it reported `False` (appending `es`); when none does, the input
      comes back unchanged. Entries appended by failed alternatives are
      kept. */
  lemma {:induction false} AltRun(m: Matcher, g: Grammar, i: nat, src: string, local: seq<PyVal>,
                                  skip: bool, fuel: nat)
      returns (es: seq<seq<PyVal>>, last: seq<PyVal>)
    requires g.Ordered? && i <= |g.children|
    requires EvalAlt(m, g, i, src, local, skip, fuel).Ok?
    ensures i + |es| <= |g.children|
    ensures forall k :: i <= k < i + |es| ==> Declines(m, g.children[k], src, skip, fuel, es[k - i])
    ensures i + |es| == |g.children| ==>
      last == [] && EvalAlt(m, g, i, src, local, skip, fuel).value == Acc(src, local + Flatten(es))
    ensures i + |es| < |g.children| ==>
      Advances(m, g.children[i + |es|], src, skip, fuel, EvalAlt(m, g, i, src, local, skip, fuel).value.src, last)
    ensures EvalAlt(m, g, i, src, local, skip, fuel).value.local == local + Flatten(es) + last
  {
    es, last := [], [];
    var n := |g.children|;
    assert local + Flatten([]) == local;
    while i + |es| < n
      invariant i + |es| <= n
      invariant forall k :: i <= k < i + |es| ==> Declines(m, g.children[k], src, skip, fuel, es[k - i])
      invariant EvalAlt(m, g, i, src, local, skip, fuel)
             == EvalAlt(m, g, i + |es|, src, local + Flatten(es), skip, fuel)
      decreases n - |es|
    {
      var adv, rest, e := AltChild(m, g, i + |es|, src, local + Flatten(es), skip, fuel);
      if adv {
        last := e;
        return;
      }
      FlattenSnoc(es, e);
      assert local + Flatten(es) + e == local + Flatten(es + [e]);
      AltChainSnoc(m, g, i, src, es, skip, fuel, e);
      es := es + [e];
    }
    assert local + Flatten(es) + [] == local + Flatten(es);
    AltEnd(m, g, i + |es|, src, local + Flatten(es), skip, fuel);
  }

  /** The step of an `ordered` loop at alternative `j`: the alternative
      either reports `True` and the loop ends on what it left, or reports
      `False` and the loop goes on with the next one on the same input. */
  lemma AltChild(m: Matcher, g: Grammar, j: nat, s: string, acc: seq<PyVal>, skip: bool, fuel: nat)
      returns (adv: bool, rest: string, e: seq<PyVal>)
    requires g.Ordered? && j < |g.children|
    requires EvalAlt(m, g, j, s, acc, skip, fuel).Ok?
    ensures adv ==> Advances(m, g.children[j], s, skip, fuel, rest, e)
    ensures adv ==> EvalAlt(m, g, j, s, acc, skip, fuel) == Ok(Acc(rest, acc + e))
    ensures !adv ==> Declines(m, g.children[j], s, skip, fuel, e)
    ensures !adv ==> EvalAlt(m, g, j, s, acc, skip, fuel) == EvalAlt(m, g, j + 1, s, acc + e, skip, fuel)
  {
    var c := g.children[j];
    var r := Eval(m, c, s, true, ChildSkip(skip, c), fuel);
    AltStep(m, g, j, s, acc, skip, fuel);
    adv, rest, e := r.value.out.flag, r.value.out.rest, r.value.emitted;
  }

  /** An `ordered` loop with no alternatives left hands back its input. */
  lemma AltEnd(m: Matcher, g: Grammar, j: nat, s: string, acc: seq<PyVal>, skip: bool, fuel: nat)
    requires g.Ordered? && j == |g.children|
    ensures EvalAlt(m, g, j, s, acc, skip, fuel) == Ok(Acc(s, acc))
  { }

  /** One more alternative that reports `False` extends an `ordered` run. */
  lemma AltChainSnoc(m: Matcher, g: Grammar, i: nat, src: string, es: seq<seq<PyVal>>,
                     skip: bool, fuel: nat, e: seq<PyVal>)
    requires g.Ordered? && i + |es| < |g.children|
    requires forall k :: i <= k < i + |es| ==> Declines(m, g.children[k], src, skip, fuel, es[k - i])
    requires Declines(m, g.children[i + |es|], src, skip, fuel, e)
    ensures forall k :: i <= k < i + |es| + 1 ==> Declines(m, g.children[k], src, skip, fuel, (es + [e])[k - i])
  {
    var e2 := es + [e];
    forall k | i <= k < i + |es| + 1
      ensures Declines(m, g.children[k], src, skip, fuel, e2[k - i])
    {
      if k < i + |es| {
        assert e2[k - i] == es[k - i];
      }
    }
  }

  /** The run of an `ordered` from alternative `i` is decided before
      alternative `k`: some alternative before `k` reports `True` or does
      not return normally. */
  ghost predicate AltDecidedBefore(m: Matcher, g: Grammar, i: nat, k: nat, src: string, skip: bool, fuel: nat)
    requires g.Ordered? && i <= |g.children|
    decreases |g.children| - i
  {
    i < k && i < |g.children| &&
    var c := g.children[i];
    var r := Eval(m, c, src, true, ChildSkip(skip, c), fuel);
    !r.Ok? || r.value.out.flag || AltDecidedBefore(m, g, i + 1, k, src, skip, fuel)
  }

  /** The alternatives after the first one that reports `True` are never
      run. */
  lemma {:induction false} OrderedIgnoresLater(m: Matcher, g1: Grammar, g2: Grammar, i: nat, k: nat,
                                               src: string, local: seq<PyVal>, skip: bool, fuel: nat)
    requires g1.Ordered? && g2.Ordered? && i <= |g1.children| && i <= |g2.children|
    requires k <= |g1.children| && k <= |g2.children| && g1.children[..k] == g2.children[..k]
    requires AltDecidedBefore(m, g1, i, k, src, skip, fuel)
    ensures EvalAlt(m, g2, i, src, local, skip, fuel) == EvalAlt(m, g1, i, src, local, skip, fuel)
    decreases |g1.children| - i
  {
    assert g1.children[i] == g1.children[..k][i] == g2.children[..k][i] == g2.children[i];
    var c := g1.children[i];
    var r := Eval(m, c, src, true, ChildSkip(skip, c), fuel);
    if r.Ok? && !r.value.out.flag {
      OrderedIgnoresLater(m, g1, g2, i + 1, k, src, local + r.value.emitted, skip, fuel);
    }
  }

  // ---------------------------------------------------------------------
  // Repetition.

  /** A repetition loop run: the child reported `True` `|es|` times, fewer
      than the calls allowed, each time on the remainder of the previous
      call, then `False` on the last remainder (appending `last`), which is
      where the loop ends. Every entry appended along the way is kept. */
  lemma {:induction false} StarRun(m: Matcher, g: Grammar, src: string, local: seq<PyVal>,
                                   skip: bool, fuel: nat, left: nat)
      returns (srcs: seq<string>, es: seq<seq<PyVal>>, last: seq<PyVal>)
    requires g.ZeroOrMore? || g.OneOrMore?
    requires EvalStar(m, g, src, local, skip, fuel, left).Ok?
    ensures |srcs| == |es| + 1 && srcs[0] == src && |es| < left
    ensures forall j :: 0 <= j < |es| ==> Advances(m, g.child, srcs[j], skip, fuel, srcs[j + 1], es[j])
    ensures Declines(m, g.child, srcs[|es|], skip, fuel, last)
    ensures EvalStar(m, g, src, local, skip, fuel, left).value == Acc(srcs[|es|], local + Flatten(es) + last)
  {
    srcs, es, last := [src], [], [];
    assert local + Flatten([]) == local;
    while true
      invariant |srcs| == |es| + 1 && srcs[0] == src && |es| < left
      invariant forall j :: 0 <= j < |es| ==> Advances(m, g.child, srcs[j], skip, fuel, srcs[j + 1], es[j])
      invariant EvalStar(m, g, src, local, skip, fuel, left)
             == EvalStar(m, g, srcs[|es|], local + Flatten(es), skip, fuel, left - |es|)
      decreases left - |es|
    {
      var adv, rest, e := StarChild(m, g, srcs[|es|], local + Flatten(es), skip, fuel, left - |es|);
      if !adv {
        last := e;
        return;
      }
      FlattenSnoc(es, e);
      assert local + Flatten(es) + e == local + Flatten(es + [e]);
      StarChainSnoc(m, g, srcs, es, skip, fuel, rest, e);
      srcs, es := srcs + [rest], es + [e];
    }
  }

  /** The step of a repetition loop with `left` calls allowed: the child
      either reports `True` and the loop goes on from what it left, with
      calls still to spare, or reports `False` and the loop ends where the
      child started. */
  lemma StarChild(m: Matcher, g: Grammar, s: string, acc: seq<PyVal>, skip: bool, fuel: nat, left: nat)
      returns (adv: bool, rest: string, e: seq<PyVal>)
    requires g.ZeroOrMore? || g.OneOrMore?
    requires EvalStar(m, g, s, acc, skip, fuel, left).Ok?
    ensures left > 0
    ensures adv ==> left > 1 && Advances(m, g.child, s, skip, fuel, rest, e)
    ensures adv ==> EvalStar(m, g, s, acc, skip, fuel, left) == EvalStar(m, g, rest, acc + e, skip, fuel, left - 1)
    ensures !adv ==> Declines(m, g.child, s, skip, fuel, e)
    ensures !adv ==> EvalStar(m, g, s, acc, skip, fuel, left) == Ok(Acc(s, acc + e))
  {
    var r := Eval(m, g.child, s, true, ChildSkip(skip, g.child), fuel);
    StarStep(m, g, s, acc, skip, fuel, left);
    adv, rest, e := r.value.out.flag, r.value.out.rest, r.value.emitted;
  }

  /** One more call that reports `True` extends a repetition run. */
  lemma StarChainSnoc(m: Matcher, g: Grammar, srcs: seq<string>, es: seq<seq<PyVal>>,
                      skip: bool, fuel: nat, rest: string, e: seq<PyVal>)
    requires g.ZeroOrMore? || g.OneOrMore?
    requires |srcs| == |es| + 1
    requires forall j :: 0 <= j < |es| ==> Advances(m, g.child, srcs[j], skip, fuel, srcs[j + 1], es[j])
    requires Advances(m, g.child, srcs[|es|], skip, fuel, rest, e)
    ensures forall j :: 0 <= j < |es| + 1 ==>
      Advances(m, g.child, (srcs + [rest])[j], skip, fuel, (srcs + [rest])[j + 1], (es + [e])[j])
  {
    var s2, e2 := srcs + [rest], es + [e];
    forall j | 0 <= j < |es| + 1
      ensures Advances(m, g.child, s2[j], skip, fuel, s2[j + 1], e2[j])
    {
      if j < |es| {
        assert s2[j] == srcs[j] && s2[j + 1] == srcs[j + 1] && e2[j] == es[j];
      }
    }
  }

  /** The loop depends on the node only through its child. */
  lemma {:induction false} StarSameChild(m: Matcher, g1: Grammar, g2: Grammar, src: string, local: seq<PyVal>,
                                         skip: bool, fuel: nat, left: nat)
    requires g1.ZeroOrMore? || g1.OneOrMore?
    requires g2.ZeroOrMore? || g2.OneOrMore?
    requires g1.child == g2.child
    ensures EvalStar(m, g1, src, local, skip, fuel, left) == EvalStar(m, g2, src, local, skip, fuel, left)
    decreases left
  {
    if left > 0 {
      var r := Eval(m, g1.child, src, true, ChildSkip(skip, g1.child), fuel);
      if r.Ok? && r.value.out.flag {
        StarSameChild(m, g1, g2, r.value.out.rest, local + r.value.emitted, skip, fuel, left - 1);
      }
    }
  }

  /** Once its first attempt succeeds, `oneOrMore(e)` is `zeroOrMore(e)`
      with the same name and flags (as long as the latter stops within the
      fuel bound). */
  lemma OneOrMoreIsZeroOrMore(m: Matcher, name: string, c: Grammar, isConv: bool, dflt: bool,
                              src: string, hasAst: bool, skip: bool, fuel: nat)
    requires var r := Eval(m, c, src, true, ChildSkip(skip, c), fuel); r.Ok? && r.value.out.flag
    requires Eval(m, ZeroOrMore(name, c, isConv, dflt), src, hasAst, skip, fuel) != OutOfFuel
    ensures Eval(m, OneOrMore(name, c, isConv, dflt), src, hasAst, skip, fuel)
         == Eval(m, ZeroOrMore(name, c, isConv, dflt), src, hasAst, skip, fuel)
  {
    var g1 := OneOrMore(name, c, isConv, dflt);
    var g2 := ZeroOrMore(name, c, isConv, dflt);
    var r := Eval(m, c, src, true, ChildSkip(skip, c), fuel).value;
    assert EvalStar(m, g2, src, [], skip, fuel, fuel) != OutOfFuel;
    StarStep(m, g2, src, [], skip, fuel, fuel);
    assert [] + r.emitted == r.emitted;
    StarFuelMonotone(m, g2, r.out.rest, r.emitted, skip, fuel, fuel, fuel - 1, fuel);
    StarSameChild(m, g1, g2, r.out.rest, r.emitted, skip, fuel, fuel);
    assert EvalOneOrMore(m, g1, src, hasAst, skip, fuel) == EvalZeroOrMore(m, g2, src, hasAst, skip, fuel);
  }

  // ---------------------------------------------------------------------
  // Optional and the predicates.

  /** `optional` always reports `True`; when its child fails it returns its
      input unchanged and appends nothing, and when the child succeeds it
      adopts the child's remainder and appends one entry exactly when the
      child collected something: the child's entries, reduced under `isConv`.
      Appending to `None` or a failing reduction raises instead. */
  lemma OptionalSpec(m: Matcher, g: Grammar, src: string, hasAst: bool, skip: bool, fuel: nat)
    requires g.Optional?
    ensures Eval(m, g, src, hasAst, skip, fuel).Ok? ==> Eval(m, g, src, hasAst, skip, fuel).value.out.flag
    ensures var c := Eval(m, g.child, src, true, ChildSkip(skip, g.child), fuel);
      c.Ok? && !c.value.out.flag ==> Eval(m, g, src, hasAst, skip, fuel) == Ok(Reply(Outcome(true, src), []))
    ensures var c := Eval(m, g.child, src, true, ChildSkip(skip, g.child), fuel);
      var r := Eval(m, g, src, hasAst, skip, fuel);
      c.Ok? && c.value.out.flag && r.Ok? ==>
        r.value.out.rest == c.value.out.rest && (r.value.emitted == [] <==> c.value.emitted == [])
    ensures var c := Eval(m, g.child, src, true, ChildSkip(skip, g.child), fuel);
      c.Ok? && c.value.out.flag && c.value.emitted != [] ==>
        Eval(m, g, src, hasAst, skip, fuel)
        == if !hasAst then Raised(NoneAppend)
           else if g.isConv && ToStr(List(c.value.emitted)).None? then Raised(JoinTypeError)
           else Ok(Reply(Outcome(true, c.value.out.rest),
                         [Entry(g.name, if g.isConv then ToStr(List(c.value.emitted)).value else List(c.value.emitted))]))
    ensures var c := Eval(m, g.child, src, true, ChildSkip(skip, g.child), fuel);
      !c.Ok? ==> Eval(m, g, src, hasAst, skip, fuel) == c
  {
  }

  /** `andPred` and `notPred` run their child on their input with `None` for
      a list, return their input whatever the child consumed, append
      nothing, and report the child's flag or its negation. */
  lemma PredicateSpec(m: Matcher, g: Grammar, src: string, hasAst: bool, skip: bool, fuel: nat)
    requires g.AndPred? || g.NotPred?
    ensures var c := Eval(m, g.child, src, false, ChildSkip(skip, g.child), fuel);
      Eval(m, g, src, hasAst, skip, fuel).Ok? <==> c.Ok?
    ensures var c := Eval(m, g.child, src, false, ChildSkip(skip, g.child), fuel);
      c.Ok? ==> Eval(m, g, src, hasAst, skip, fuel)
                == Ok(Reply(Outcome(if g.AndPred? then c.value.out.flag else !c.value.out.flag, src), []))
    ensures var c := Eval(m, g.child, src, false, ChildSkip(skip, g.child), fuel);
      !c.Ok? ==> Eval(m, g, src, hasAst, skip, fuel) == c
  {
  }

  // ---------------------------------------------------------------------
  // PEG.parse.

  /** On a single grammar, `PEG.parse` accepts when the grammar reports
      `True` or consumed all input, and appends what the grammar appended;
      on a list holding just that grammar it accepts when the grammar
      reports `False` or consumed all input. The two disagree whenever input
      remains. */
  lemma ParseSingleVersusList(m: Matcher, g: Grammar, src: string, fuel: nat)
    ensures var r := Eval(m, g, src, true, g.skip, fuel);
      r.Ok? ==> PegParse(m, Single(g), src, fuel) == Run(Ok(r.value.out.flag || r.value.out.rest == ""), r.value.emitted)
    ensures var r := Eval(m, g, src, true, g.skip, fuel);
      r.Ok? ==> PegParse(m, Many([Gram(g)]), src, fuel) == Run(Ok(!r.value.out.flag || r.value.out.rest == ""), r.value.emitted)
    ensures var r := Eval(m, g, src, true, g.skip, fuel);
      r.Ok? && r.value.out.rest != "" ==>
        PegParse(m, Single(g), src, fuel).result != PegParse(m, Many([Gram(g)]), src, fuel).result
    ensures var r := Eval(m, g, src, true, g.skip, fuel);
      !r.Ok? ==> PegParse(m, Single(g), src, fuel) == PegParse(m, Many([Gram(g)]), src, fuel) == Run(r.PropagateFailure(), [])
  {
    var r := Eval(m, g, src, true, g.skip, fuel);
    ParseListStep(m, [Gram(g)], 0, src, [], fuel);
    if r.Ok? {
      assert [] + r.value.emitted == r.value.emitted;
    }
  }

  /** Element `it` of a list handed to `PEG.parse` is a grammar that, on
      `s`, reports `True`, appends `e` and leaves `rest`, which is not empty,
      so the loop goes on. */
  ghost predicate Continues(m: Matcher, it: Item, s: string, rest: string, e: seq<PyVal>, fuel: nat)
  {
    it.Gram? && rest != "" && Eval(m, it.g, s, true, it.g.skip, fuel) == Ok(Reply(Outcome(true, rest), e))
  }

  lemma ParseListContinue(m: Matcher, items: seq<Item>, i: nat, src: string, rest: string,
                          e: seq<PyVal>, appended: seq<PyVal>, fuel: nat)
    requires i < |items| && Continues(m, items[i], src, rest, e, fuel)
    ensures ParseList(m, items, i, src, appended, fuel) == ParseList(m, items, i + 1, rest, appended + e, fuel)
  {
    ParseListStep(m, items, i, src, appended, fuel);
  }

  /** The first `|es|` elements of a list handed to `PEG.parse` each
      report `True` and leave input, each on the remainder of the previous
      one: the loop gets past them with their entries appended in order. */
  lemma {:induction false} ParseListThreads(m: Matcher, items: seq<Item>, srcs: seq<string>,
                                            es: seq<seq<PyVal>>, fuel: nat)
    requires |es| <= |items| && |srcs| == |es| + 1
    requires forall k :: 0 <= k < |es| ==> Continues(m, items[k], srcs[k], srcs[k + 1], es[k], fuel)
    ensures ParseList(m, items, 0, srcs[0], [], fuel) == ParseList(m, items, |es|, srcs[|es|], Flatten(es), fuel)
  {
    var k := 0;
    assert Flatten(es[..0]) == [];
    while k < |es|
      invariant k <= |es|
      invariant ParseList(m, items, 0, srcs[0], [], fuel) == ParseList(m, items, k, srcs[k], Flatten(es[..k]), fuel)
    {
      assert Continues(m, items[k], srcs[k], srcs[k + 1], es[k], fuel);
      ParseListContinue(m, items, k, srcs[k], srcs[k + 1], es[k], Flatten(es[..k]), fuel);
      FlattenSnoc(es[..k], es[k]);
      assert es[..k + 1] == es[..k] + [es[k]];
      k := k + 1;
    }
    assert es[..|es|] == es;
  }

  /** `PEG.parse` on a list whose elements all report `True` and leave
      input returns `False`, having appended every element's entries. */
  lemma {:induction false} ParseListAllContinue(m: Matcher, items: seq<Item>, srcs: seq<string>, es: seq<seq<PyVal>>, fuel: nat)
    requires |es| == |items| && |srcs| == |es| + 1
    requires forall k :: 0 <= k < |items| ==> Continues(m, items[k], srcs[k], srcs[k + 1], es[k], fuel)
    ensures PegParse(m, Many(items), srcs[0], fuel) == Run(Ok(false), Flatten(es))
  {
    ParseListThreads(m, items, srcs, es, fuel);
  }

  /** `PEG.parse` reaching an element that is not a grammar raises
      `InvalidGrammarError`, and the entries appended before stay. */
  lemma {:induction false} ParseListInvalid(m: Matcher, items: seq<Item>, srcs: seq<string>, es: seq<seq<PyVal>>, fuel: nat)
    requires |es| < |items| && |srcs| == |es| + 1 && items[|es|].NotGrammar?
    requires forall k :: 0 <= k < |es| ==> Continues(m, items[k], srcs[k], srcs[k + 1], es[k], fuel)
    ensures PegParse(m, Many(items), srcs[0], fuel) == Run(Raised(InvalidGrammar), Flatten(es))
  {
    ParseListThreads(m, items, srcs, es, fuel);
  }

  /** `PEG.parse` returns `True` at the first grammar in the list that
      reports `False` or consumes everything, with the entries of every
      grammar up to and including it appended. */
  lemma {:induction false} ParseListAccepts(m: Matcher, items: seq<Item>, srcs: seq<string>, es: seq<seq<PyVal>>, fuel: nat)
    requires |es| < |items| && |srcs| == |es| + 1 && items[|es|].Gram?
    requires forall k :: 0 <= k < |es| ==> Continues(m, items[k], srcs[k], srcs[k + 1], es[k], fuel)
    requires var g := items[|es|].g; var r := Eval(m, g, srcs[|es|], true, g.skip, fuel);
      r.Ok? && (!r.value.out.flag || r.value.out.rest == "")
    ensures var g := items[|es|].g;
      PegParse(m, Many(items), srcs[0], fuel)
      == Run(Ok(true), Flatten(es) + Eval(m, g, srcs[|es|], true, g.skip, fuel).value.emitted)
  {
    ParseListThreads(m, items, srcs, es, fuel);
    ParseListStep(m, items, |es|, srcs[|es|], Flatten(es), fuel);
  }
}
