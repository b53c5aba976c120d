/** What a `_parser(src, ast, isSkip)` closure does, as functions: the
    `(flag, remaining)` pair it returns, the entries it appends to `ast`, or
    the exception it raises. `PEG.parse` on top of it. */
module Semantics {
  import opened Values
  import opened Text
  import opened Grammar

  /** The Python exceptions the core can raise. */
  datatype Exc =
    | NoneAppend     // `None.append(...)`: a collecting node under a predicate
    | JoinTypeError  // `"".join` over an element that is not a string
    | InvalidGrammar // `InvalidGrammarError` from `PEG.parse`

  /** The result of running a closure: a value, a raised exception, or a
      repetition loop that was still running when the fuel bound was hit. */
  datatype Step<+T> = Ok(value: T) | Raised(exc: Exc) | OutOfFuel {
    predicate IsFailure() { !Ok? }

    function PropagateFailure<U>(): Step<U>
      requires !Ok?
    {
      if Raised? then Raised(exc) else OutOfFuel
    }

    function Extract(): T
      requires Ok?
    {
      value
    }
  }

  /** The pair `(flag, remaining)` a closure returns. */
  datatype Outcome = Outcome(flag: bool, rest: string)

  /** A closure's return value together with the entries it appended to the
      caller's `ast` list. */
  datatype Reply = Reply(out: Outcome, emitted: seq<PyVal>)

  /** The state of a combinator's loop: its current `src` and its local
      `_ast` list. */
  datatype Acc = Acc(src: string, local: seq<PyVal>)

  /** The closure built by `defGrammar` or `PEG.grammar`. */
  function EvalTerminal(m: Matcher, name: string, pattern: string, src: string,
                        hasAst: bool, skip: bool): Step<Reply>
  {
    var s := SkipSpace(src, skip);
    match m(pattern, s)
    case Some(n) =>
      Ok(Reply(Outcome(true, s[n..]), if hasAst then [Entry(name, Str(s[..n]))] else []))
    case None => Ok(Reply(Outcome(false, s), []))
  }

  /** `_reduceListVals(_ast) if isConv else _ast`. */
  function Value(isConv: bool, local: seq<PyVal>): Step<PyVal>
  {
    if !isConv then Ok(List(local))
    else match ToStr(List(local)) {
      case Some(v) => Ok(v)
      case None => Raised(JoinTypeError)
    }
  }

  /** The common tail of the `sequence`, `ordered`, `zeroOrMore` and
      `oneOrMore` closures: append one entry when the local list is
      non-empty (looking up `ast.append` first, so a `None` list fails before
      any reduction), then report `True` exactly when input remains. */
  function Finish(name: string, isConv: bool, hasAst: bool, acc: Acc): Step<Reply>
  {
    var out := Outcome(acc.src != "", acc.src);
    if |acc.local| == 0 then Ok(Reply(out, []))
    else if !hasAst then Raised(NoneAppend)
    else
      var v :- Value(isConv, acc.local);
      Ok(Reply(out, [Entry(name, v)]))
  }

  /** Runs `g`'s closure on `src` with effective `isSkip` `skip`; `hasAst`
      says whether the `ast` argument is a list (true) or `None` (false).
      Each repetition loop may call its child at most `fuel` times. */
  function Eval(m: Matcher, g: Grammar, src: string, hasAst: bool, skip: bool, fuel: nat): Step<Reply>
    decreases g, 2, 0
  {
    match g
    case Terminal(name, pattern, _) => EvalTerminal(m, name, pattern, src, hasAst, skip)
    case Sequence(_, _, _, _) => EvalSequence(m, g, src, hasAst, skip, fuel)
    case Ordered(_, _, _, _) => EvalOrdered(m, g, src, hasAst, skip, fuel)
    case ZeroOrMore(_, _, _, _) => EvalZeroOrMore(m, g, src, hasAst, skip, fuel)
    case OneOrMore(_, _, _, _) => EvalOneOrMore(m, g, src, hasAst, skip, fuel)
    case Optional(_, _, _, _) => EvalOptional(m, g, src, hasAst, skip, fuel)
    case AndPred(_, _, _, _) => EvalAndPred(m, g, src, skip, fuel)
    case NotPred(_, _, _, _) => EvalNotPred(m, g, src, skip, fuel)
  }

  /** The `sequence` closure. */
  function EvalSequence(m: Matcher, g: Grammar, src: string, hasAst: bool, skip: bool, fuel: nat): Step<Reply>
    requires g.Sequence?
    decreases g, 1, 0
  {
    var acc :- EvalSeq(m, g, 0, src, [], skip, fuel);
    Finish(g.name, g.isConv, hasAst, acc)
  }

  /** The `ordered` closure. */
  function EvalOrdered(m: Matcher, g: Grammar, src: string, hasAst: bool, skip: bool, fuel: nat): Step<Reply>
    requires g.Ordered?
    decreases g, 1, 0
  {
    var acc :- EvalAlt(m, g, 0, src, [], skip, fuel);
    Finish(g.name, g.isConv, hasAst, acc)
  }

  /** The `zeroOrMore` closure. */
  function EvalZeroOrMore(m: Matcher, g: Grammar, src: string, hasAst: bool, skip: bool, fuel: nat): Step<Reply>
    requires g.ZeroOrMore?
    decreases g, 1, 0
  {
    var acc :- EvalStar(m, g, src, [], skip, fuel, fuel);
    Finish(g.name, g.isConv, hasAst, acc)
  }

  /** The `oneOrMore` closure: a failed first attempt returns at once,
      without appending what it collected. */
  function EvalOneOrMore(m: Matcher, g: Grammar, src: string, hasAst: bool, skip: bool, fuel: nat): Step<Reply>
    requires g.OneOrMore?
    decreases g, 1, 0
  {
    var c := g.child;
    var r :- Eval(m, c, src, true, ChildSkip(skip, c), fuel);
    if !r.out.flag then Ok(Reply(Outcome(false, src), []))
    else
      var acc :- EvalStar(m, g, r.out.rest, r.emitted, skip, fuel, fuel);
      Finish(g.name, g.isConv, hasAst, acc)
  }

  /** The `optional` closure. */
  function EvalOptional(m: Matcher, g: Grammar, src: string, hasAst: bool, skip: bool, fuel: nat): Step<Reply>
    requires g.Optional?
    decreases g, 1, 0
  {
    var c := g.child;
    var r :- Eval(m, c, src, true, ChildSkip(skip, c), fuel);
    if !r.out.flag then Ok(Reply(Outcome(true, src), []))
    else if |r.emitted| == 0 then Ok(Reply(Outcome(true, r.out.rest), []))
    else if !hasAst then Raised(NoneAppend)
    else
      var v :- Value(g.isConv, r.emitted);
      Ok(Reply(Outcome(true, r.out.rest), [Entry(g.name, v)]))
  }

  /** The `andPred` closure: it hands `None` to its child and never touches
      its own `ast`. */
  function EvalAndPred(m: Matcher, g: Grammar, src: string, skip: bool, fuel: nat): Step<Reply>
    requires g.AndPred?
    decreases g, 1, 0
  {
    var c := g.child;
    var r :- Eval(m, c, src, false, ChildSkip(skip, c), fuel);
    Ok(Reply(Outcome(r.out.flag, src), []))
  }

  /** The `notPred` closure. */
  function EvalNotPred(m: Matcher, g: Grammar, src: string, skip: bool, fuel: nat): Step<Reply>
    requires g.NotPred?
    decreases g, 1, 0
  {
    var c := g.child;
    var r :- Eval(m, c, src, false, ChildSkip(skip, c), fuel);
    Ok(Reply(Outcome(!r.out.flag, src), []))
  }

  /** The `for` loop of a `sequence` closure from child `i` on. */
  function EvalSeq(m: Matcher, g: Grammar, i: nat, src: string, local: seq<PyVal>,
                   skip: bool, fuel: nat): Step<Acc>
    requires g.Sequence? && i <= |g.children|
    decreases g, 0, |g.children| - i
  {
    if i == |g.children| then Ok(Acc(src, local))
    else
      var c := g.children[i];
      var r :- Eval(m, c, src, true, ChildSkip(skip, c), fuel);
      if r.out.flag then EvalSeq(m, g, i + 1, r.out.rest, local + r.emitted, skip, fuel)
      else Ok(Acc(src, local + r.emitted))
  }

  /** The `for` loop of an `ordered` closure from alternative `i` on. */
  function EvalAlt(m: Matcher, g: Grammar, i: nat, src: string, local: seq<PyVal>,
                   skip: bool, fuel: nat): Step<Acc>
    requires g.Ordered? && i <= |g.children|
    decreases g, 0, |g.children| - i
  {
    if i == |g.children| then Ok(Acc(src, local))
    else
      var c := g.children[i];
      var r :- Eval(m, c, src, true, ChildSkip(skip, c), fuel);
      if r.out.flag then Ok(Acc(r.out.rest, local + r.emitted))
      else EvalAlt(m, g, i + 1, src, local + r.emitted, skip, fuel)
  }

  /** The `while True` loop of a `zeroOrMore` or `oneOrMore` closure, allowed
      `left` more calls of the child. */
  function EvalStar(m: Matcher, g: Grammar, src: string, local: seq<PyVal>,
                    skip: bool, fuel: nat, left: nat): Step<Acc>
    requires g.ZeroOrMore? || g.OneOrMore?
    decreases g, 0, left
  {
    if left == 0 then OutOfFuel
    else
      var r :- Eval(m, g.child, src, true, ChildSkip(skip, g.child), fuel);
      if r.out.flag then EvalStar(m, g, r.out.rest, local + r.emitted, skip, fuel, left - 1)
      else Ok(Acc(src, local + r.emitted))
  }

  /** One turn of a `sequence` loop whose child returns normally. */
  lemma SeqStep(m: Matcher, g: Grammar, i: nat, src: string, local: seq<PyVal>, skip: bool, fuel: nat)
    requires g.Sequence? && i < |g.children|
    requires Eval(m, g.children[i], src, true, ChildSkip(skip, g.children[i]), fuel).Ok?
    ensures var r := Eval(m, g.children[i], src, true, ChildSkip(skip, g.children[i]), fuel).value;
      EvalSeq(m, g, i, src, local, skip, fuel)
      == if r.out.flag then EvalSeq(m, g, i + 1, r.out.rest, local + r.emitted, skip, fuel)
         else Ok(Acc(src, local + r.emitted))
  {
  }

  /** One turn of an `ordered` loop whose alternative returns normally. */
  lemma AltStep(m: Matcher, g: Grammar, i: nat, src: string, local: seq<PyVal>, skip: bool, fuel: nat)
    requires g.Ordered? && i < |g.children|
    requires Eval(m, g.children[i], src, true, ChildSkip(skip, g.children[i]), fuel).Ok?
    ensures var r := Eval(m, g.children[i], src, true, ChildSkip(skip, g.children[i]), fuel).value;
      EvalAlt(m, g, i, src, local, skip, fuel)
      == if r.out.flag then Ok(Acc(r.out.rest, local + r.emitted))
         else EvalAlt(m, g, i + 1, src, local + r.emitted, skip, fuel)
  {
  }

  /** One turn of a repetition loop whose child returns normally. */
  lemma StarStep(m: Matcher, g: Grammar, src: string, local: seq<PyVal>,
                 skip: bool, fuel: nat, left: nat)
    requires g.ZeroOrMore? || g.OneOrMore?
    requires left > 0
    requires Eval(m, g.child, src, true, ChildSkip(skip, g.child), fuel).Ok?
    ensures var r := Eval(m, g.child, src, true, ChildSkip(skip, g.child), fuel).value;
      EvalStar(m, g, src, local, skip, fuel, left)
      == if r.out.flag then EvalStar(m, g, r.out.rest, local + r.emitted, skip, fuel, left - 1)
         else Ok(Acc(src, local + r.emitted))
  {
  }

  /** A turn of a repetition loop whose child reports `True`. */
  lemma StarAdvance(m: Matcher, g: Grammar, src: string, local: seq<PyVal>,
                    skip: bool, fuel: nat, left: nat, rest: string, e: seq<PyVal>)
    requires g.ZeroOrMore? || g.OneOrMore?
    requires left > 0
    requires Eval(m, g.child, src, true, ChildSkip(skip, g.child), fuel) == Ok(Reply(Outcome(true, rest), e))
    ensures EvalStar(m, g, src, local, skip, fuel, left) == EvalStar(m, g, rest, local + e, skip, fuel, left - 1)
  {
  }

  /** The `grammars` argument of `PEG.parse`: one grammar, or a list whose
      elements need not be grammars. */
  datatype Target = Single(g: Grammar) | Many(items: seq<Item>)
  datatype Item = Gram(g: Grammar) | NotGrammar

  /** What `PEG.parse` returns or raises, and the entries it leaves appended
      to the caller's list (on an exception, those of the grammars that
      completed before it). */
  datatype Run = Run(result: Step<bool>, appended: seq<PyVal>)

  function PegParse(m: Matcher, t: Target, src: string, fuel: nat): Run
  {
    match t
    case Single(g) =>
      match Eval(m, g, src, true, g.skip, fuel) {
        case Ok(r) => Run(Ok(r.out.flag || r.out.rest == ""), r.emitted)
        case Raised(e) => Run(Raised(e), [])
        case OutOfFuel => Run(OutOfFuel, [])
      }
    case Many(items) => ParseList(m, items, 0, src, [], fuel)
  }

  /** The `for` loop of `PEG.parse` over a list, from element `i` on, with
      `appended` the entries appended so far. */
  function ParseList(m: Matcher, items: seq<Item>, i: nat, src: string,
                     appended: seq<PyVal>, fuel: nat): Run
    requires i <= |items|
    decreases |items| - i
  {
    if i == |items| then Run(Ok(false), appended)
    else match items[i] {
      case NotGrammar => Run(Raised(InvalidGrammar), appended)
      case Gram(g) =>
        match Eval(m, g, src, true, g.skip, fuel) {
          case Ok(r) =>
            if !r.out.flag || r.out.rest == "" then Run(Ok(true), appended + r.emitted)
            else ParseList(m, items, i + 1, r.out.rest, appended + r.emitted, fuel)
          case Raised(e) => Run(Raised(e), appended)
          case OutOfFuel => Run(OutOfFuel, appended)
        }
    }
  }

  /** One turn of `PEG.parse`'s loop over an element that is a grammar. */
  lemma ParseListStep(m: Matcher, items: seq<Item>, i: nat, src: string,
                      appended: seq<PyVal>, fuel: nat)
    requires i < |items| && items[i].Gram?
    ensures var r := Eval(m, items[i].g, src, true, items[i].g.skip, fuel);
      ParseList(m, items, i, src, appended, fuel)
      == if r.Raised? then Run(Raised(r.exc), appended)
         else if r.OutOfFuel? then Run(OutOfFuel, appended)
         else if !r.value.out.flag || r.value.out.rest == "" then Run(Ok(true), appended + r.value.emitted)
         else ParseList(m, items, i + 1, r.value.out.rest, appended + r.value.emitted, fuel)
  {
  }
}
