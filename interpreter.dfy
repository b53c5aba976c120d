/** The closures and `PEG.parse` as the source runs them: loops that
    reassign `src` and append in place to a caller-supplied list. Each method
    is proved to do what the functions of `Semantics` say. */
module Interpreter {
  import opened Values
  import opened Text
  import opened Grammar
  import opened Semantics

  /** A Python list of AST entries, shared by reference with the callee. */
  class AstList {
    var entries: seq<PyVal>

    constructor ()
      ensures entries == []
    {
      entries := [];
    }

    method Append(v: PyVal)
      modifies this
      ensures entries == old(entries) + [v]
    {
      entries := entries + [v];
    }
  }

  /** The `(flag, remaining)` part of a closure's result. */
  function Outcomes(s: Step<Reply>): Step<Outcome>
  {
    match s
    case Ok(r) => Ok(r.out)
    case Raised(e) => Raised(e)
    case OutOfFuel => OutOfFuel
  }

  /** The entries a closure appends; none when it raises. */
  function Emitted(s: Step<Reply>): seq<PyVal>
  {
    if s.Ok? then s.value.emitted else []
  }

  /** The common tail of the collecting closures (`Finish`), on the loop's
      final `src` and local list. */
  method Conclude(name: string, isConv: bool, src: string, local: AstList, ast: AstList?)
      returns (r: Step<Outcome>)
    requires local != ast
    modifies ast
    ensures r == Outcomes(Finish(name, isConv, ast != null, Acc(src, local.entries)))
    ensures ast != null ==>
      ast.entries == old(ast.entries) + Emitted(Finish(name, isConv, ast != null, Acc(src, local.entries)))
  {
    if |local.entries| > 0 {
      if ast == null {
        return Raised(NoneAppend);
      }
      var v :- Value(isConv, local.entries);
      ast.Append(Entry(name, v));
    }
    return Ok(Outcome(src != "", src));
  }

  /** `g.parse(src, ast, skip)`: `ast == null` is Python's `None`. */
  method Invoke(m: Matcher, g: Grammar, src: string, ast: AstList?, skip: bool, fuel: nat)
      returns (r: Step<Outcome>)
    modifies ast
    decreases g, 1
    ensures r == Outcomes(Eval(m, g, src, ast != null, skip, fuel))
    ensures ast != null ==>
      ast.entries == old(ast.entries) + Emitted(Eval(m, g, src, ast != null, skip, fuel))
  {
    match g
    case Terminal(name, pattern, _) =>
      var s := SkipSpace(src, skip);
      var found := m(pattern, s);
      if found.Some? {
        if ast != null {
          ast.Append(Entry(name, Str(s[..found.value])));
        }
        return Ok(Outcome(true, s[found.value..]));
      }
      return Ok(Outcome(false, s));
    case Sequence(_, _, _, _) =>
      r := InvokeSequence(m, g, src, ast, skip, fuel);
    case Ordered(_, _, _, _) =>
      r := InvokeOrdered(m, g, src, ast, skip, fuel);
    case ZeroOrMore(_, _, _, _) =>
      r := InvokeZeroOrMore(m, g, src, ast, skip, fuel);
    case OneOrMore(_, _, _, _) =>
      r := InvokeOneOrMore(m, g, src, ast, skip, fuel);
    case Optional(_, _, _, _) =>
      r := InvokeOptional(m, g, src, ast, skip, fuel);
    case AndPred(_, _, _, _) =>
      r := InvokeAndPred(m, g, src, ast, skip, fuel);
    case NotPred(_, _, _, _) =>
      r := InvokeNotPred(m, g, src, ast, skip, fuel);
  }

  /** The `sequence` closure. */
  method InvokeSequence(m: Matcher, g: Grammar, src: string, ast: AstList?, skip: bool, fuel: nat)
      returns (r: Step<Outcome>)
    requires g.Sequence?
    modifies ast
    decreases g, 0
    ensures r == Outcomes(Eval(m, g, src, ast != null, skip, fuel))
    ensures ast != null ==>
      ast.entries == old(ast.entries) + Emitted(Eval(m, g, src, ast != null, skip, fuel))
  {
    var name := g.name;
    var cs := g.children;
    var isConv := g.isConv;
    var local := new AstList();
    var s := src;
    var i := 0;
    while i < |cs|
      invariant i <= |cs|
      invariant ast != null ==> ast.entries == old(ast.entries)
      invariant EvalSeq(m, g, i, s, local.entries, skip, fuel) == EvalSeq(m, g, 0, src, [], skip, fuel)
    {
      var c := cs[i];
      var o :- Invoke(m, c, s, local, ChildSkip(skip, c), fuel);
      if o.flag {
        s := o.rest;
      } else {
        break;
      }
      i := i + 1;
    }
    r := Conclude(name, isConv, s, local, ast);
  }

  /** The `ordered` closure. */
  method InvokeOrdered(m: Matcher, g: Grammar, src: string, ast: AstList?, skip: bool, fuel: nat)
      returns (r: Step<Outcome>)
    requires g.Ordered?
    modifies ast
    decreases g, 0
    ensures r == Outcomes(Eval(m, g, src, ast != null, skip, fuel))
    ensures ast != null ==>
      ast.entries == old(ast.entries) + Emitted(Eval(m, g, src, ast != null, skip, fuel))
  {
    var name := g.name;
    var cs := g.children;
    var isConv := g.isConv;
    var local := new AstList();
    var s := src;
    var i := 0;
    while i < |cs|
      invariant i <= |cs|
      invariant s == src
      invariant ast != null ==> ast.entries == old(ast.entries)
      invariant EvalAlt(m, g, i, src, local.entries, skip, fuel) == EvalAlt(m, g, 0, src, [], skip, fuel)
    {
      var c := cs[i];
      var o :- Invoke(m, c, s, local, ChildSkip(skip, c), fuel);
      if o.flag {
        s := o.rest;
        break;
      }
      i := i + 1;
    }
    r := Conclude(name, isConv, s, local, ast);
  }

  /** The `zeroOrMore` closure. */
  method InvokeZeroOrMore(m: Matcher, g: Grammar, src: string, ast: AstList?, skip: bool, fuel: nat)
      returns (r: Step<Outcome>)
    requires g.ZeroOrMore?
    modifies ast
    decreases g, 0
    ensures r == Outcomes(Eval(m, g, src, ast != null, skip, fuel))
    ensures ast != null ==>
      ast.entries == old(ast.entries) + Emitted(Eval(m, g, src, ast != null, skip, fuel))
  {
    var name := g.name;
    var c := g.child;
    var isConv := g.isConv;
    var local := new AstList();
    var s := src;
    var left := fuel;
    while true
      invariant ast != null ==> ast.entries == old(ast.entries)
      invariant EvalStar(m, g, s, local.entries, skip, fuel, left) == EvalStar(m, g, src, [], skip, fuel, fuel)
      decreases left
    {
      if left == 0 {
        return OutOfFuel;
      }
      ghost var before := local.entries;
      var o :- Invoke(m, c, s, local, ChildSkip(skip, c), fuel);
      StarStep(m, g, s, before, skip, fuel, left);
      if o.flag {
        s := o.rest;
      } else {
        break;
      }
      left := left - 1;
    }
    r := Conclude(name, isConv, s, local, ast);
  }

  /** The `oneOrMore` closure. */
  method InvokeOneOrMore(m: Matcher, g: Grammar, src: string, ast: AstList?, skip: bool, fuel: nat)
      returns (r: Step<Outcome>)
    requires g.OneOrMore?
    modifies ast
    decreases g, 0
    ensures r == Outcomes(Eval(m, g, src, ast != null, skip, fuel))
    ensures ast != null ==>
      ast.entries == old(ast.entries) + Emitted(Eval(m, g, src, ast != null, skip, fuel))
  {
    var name := g.name;
    var c := g.child;
    var isConv := g.isConv;
    var local := new AstList();
    var first :- Invoke(m, c, src, local, ChildSkip(skip, c), fuel);
    if !first.flag {
      return Ok(Outcome(false, src));
    }
    var s := first.rest;
    ghost var firstEntries := local.entries;
    ghost var firstReply := Eval(m, c, src, true, ChildSkip(skip, c), fuel);
    assert firstReply.Ok? && firstReply.value.out == first && firstReply.value.emitted == firstEntries;
    var left := fuel;
    while true
      invariant ast != null ==> ast.entries == old(ast.entries)
      invariant EvalStar(m, g, s, local.entries, skip, fuel, left)
             == EvalStar(m, g, first.rest, firstEntries, skip, fuel, fuel)
      decreases left
    {
      if left == 0 {
        return OutOfFuel;
      }
      ghost var before := local.entries;
      var o :- Invoke(m, c, s, local, ChildSkip(skip, c), fuel);
      StarStep(m, g, s, before, skip, fuel, left);
      if o.flag {
        s := o.rest;
      } else {
        break;
      }
      left := left - 1;
    }
    r := Conclude(name, isConv, s, local, ast);
  }

  /** The `optional` closure. */
  method InvokeOptional(m: Matcher, g: Grammar, src: string, ast: AstList?, skip: bool, fuel: nat)
      returns (r: Step<Outcome>)
    requires g.Optional?
    modifies ast
    decreases g, 0
    ensures r == Outcomes(Eval(m, g, src, ast != null, skip, fuel))
    ensures ast != null ==>
      ast.entries == old(ast.entries) + Emitted(Eval(m, g, src, ast != null, skip, fuel))
  {
    var name := g.name;
    var c := g.child;
    var isConv := g.isConv;
    var local := new AstList();
    var o :- Invoke(m, c, src, local, ChildSkip(skip, c), fuel);
    ghost var childReply := Eval(m, c, src, true, ChildSkip(skip, c), fuel);
    assert childReply.Ok? && childReply.value.out == o && childReply.value.emitted == local.entries;
    var s := src;
    if o.flag {
      s := o.rest;
      if |local.entries| > 0 {
        if ast == null {
          return Raised(NoneAppend);
        }
        var v :- Value(isConv, local.entries);
        ast.Append(Entry(name, v));
      }
    }
    return Ok(Outcome(true, s));
  }

  /** The `andPred` closure. */
  method InvokeAndPred(m: Matcher, g: Grammar, src: string, ast: AstList?, skip: bool, fuel: nat)
      returns (r: Step<Outcome>)
    requires g.AndPred?
    modifies ast
    decreases g, 0
    ensures r == Outcomes(Eval(m, g, src, ast != null, skip, fuel))
    ensures ast != null ==>
      ast.entries == old(ast.entries) + Emitted(Eval(m, g, src, ast != null, skip, fuel))
  {
    var c := g.child;
    var o :- Invoke(m, c, src, null, ChildSkip(skip, c), fuel);
    return Ok(Outcome(o.flag, src));
  }

  /** The `notPred` closure. */
  method InvokeNotPred(m: Matcher, g: Grammar, src: string, ast: AstList?, skip: bool, fuel: nat)
      returns (r: Step<Outcome>)
    requires g.NotPred?
    modifies ast
    decreases g, 0
    ensures r == Outcomes(Eval(m, g, src, ast != null, skip, fuel))
    ensures ast != null ==>
      ast.entries == old(ast.entries) + Emitted(Eval(m, g, src, ast != null, skip, fuel))
  {
    var c := g.child;
    var o :- Invoke(m, c, src, null, ChildSkip(skip, c), fuel);
    return Ok(Outcome(!o.flag, src));
  }

  /** `PEG.parse(src, grammars, ast)`: returns the boolean, or the exception
      it raises; `ast` keeps whatever was appended before an exception. */
  method Parse(m: Matcher, t: Target, src: string, ast: AstList, fuel: nat) returns (r: Step<bool>)
    modifies ast
    ensures r == PegParse(m, t, src, fuel).result
    ensures ast.entries == old(ast.entries) + PegParse(m, t, src, fuel).appended
  {
    match t
    case Single(g) =>
      var o :- Invoke(m, g, src, ast, g.skip, fuel);
      return Ok(o.flag || o.rest == "");

    case Many(items) =>
      r := ParseMany(m, items, src, ast, fuel);
  }

  /** The loop of `PEG.parse` over a list of grammars. */
  method ParseMany(m: Matcher, items: seq<Item>, src: string, ast: AstList, fuel: nat) returns (r: Step<bool>)
    modifies ast
    ensures r == ParseList(m, items, 0, src, [], fuel).result
    ensures ast.entries == old(ast.entries) + ParseList(m, items, 0, src, [], fuel).appended
  {
    var s := src;
    ghost var done: seq<PyVal> := [];
    for i := 0 to |items|
      invariant ast.entries == old(ast.entries) + done
      invariant ParseList(m, items, i, s, done, fuel) == ParseList(m, items, 0, src, [], fuel)
    {
      if items[i].NotGrammar? {
        return Raised(InvalidGrammar);
      }
      var g := items[i].g;
      ghost var emitted := Emitted(Eval(m, g, s, true, g.skip, fuel));
      ParseListStep(m, items, i, s, done, fuel);
      var o :- Invoke(m, g, s, ast, g.skip, fuel);
      done := done + emitted;
      if !o.flag || o.rest == "" {
        return Ok(true);
      }
      s := o.rest;
    }
    return Ok(false);
  }
}
