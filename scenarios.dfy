/** Concrete runs of the grammars the repository's own tests build, with the
    regular-expression engine pinned down only on the inputs each run
    reaches. */
module Scenarios {
  import opened Values
  import opened Text
  import opened Grammar
  import opened Semantics

  /** A terminal whose pattern matches `n` characters of its (possibly
      stripped) input. */
  lemma Matches(m: Matcher, t: Grammar, src: string, skip: bool, fuel: nat, s: string, n: nat)
    requires t.Terminal? && s == SkipSpace(src, skip) && m(t.pattern, s) == Some(n)
    ensures n <= |s|
    ensures Eval(m, t, src, true, skip, fuel) == Ok(Reply(Outcome(true, s[n..]), [Entry(t.name, Str(s[..n]))]))
    ensures Eval(m, t, src, false, skip, fuel) == Ok(Reply(Outcome(true, s[n..]), []))
  {
  }

  /** A terminal whose pattern does not match its (possibly stripped) input. */
  lemma NoMatch(m: Matcher, t: Grammar, src: string, hasAst: bool, skip: bool, fuel: nat, s: string)
    requires t.Terminal? && s == SkipSpace(src, skip) && m(t.pattern, s) == None
    ensures Eval(m, t, src, hasAst, skip, fuel) == Ok(Reply(Outcome(false, s), []))
  {
  }

  /** Text that starts with a non-space character is left alone. */
  lemma NoStrip(src: string, skip: bool)
    requires src != [] && !IsSpace(src[0])
    ensures SkipSpace(src, skip) == src
  {
    assert !AllSpace(src);
  }

  /** Text with exactly one leading whitespace character loses it when
      skipping is requested. */
  lemma StripOne(src: string)
    requires |src| >= 2 && IsSpace(src[0]) && !IsSpace(src[1])
    ensures SkipSpace(src, true) == src[1..]
  {
    assert LStrip(src[1..]) == src[1..];
    assert !AllSpace(src) by { assert !IsSpace(src[1]); }
  }

  /** `PEG.grammar('x', '1 ')` on `"1 and 2"`: the match is removed and
      recorded, no whitespace is stripped by default. */
  lemma DefGrammarExample(m: Matcher, fuel: nat)
    requires m("1 ", "1 and 2") == Some(2)
    ensures Eval(m, Terminal("x", "1 ", false), "1 and 2", true, false, fuel)
         == Ok(Reply(Outcome(true, "and 2"), [Entry("x", Str("1 "))]))
  {
    assert "1 and 2"[2..] == "and 2";
    assert "1 and 2"[..2] == "1 ";
  }

  const AddOp := Terminal("a", " \\+ ", false)
  const Add := Sequence("add", [Number, AddOp, Number], true, false)

  /** The loop of the `add` sequence on `"1 + 2"`: all three children match
      and the whole input is consumed. */
  lemma AddCollects(m: Matcher, fuel: nat)
    requires m(Number.pattern, "1 + 2") == Some(1)
    requires m(AddOp.pattern, " + 2") == Some(3)
    requires m(Number.pattern, "2") == Some(1)
    ensures EvalSeq(m, Add, 0, "1 + 2", [], false, fuel)
         == Ok(Acc("", [Entry("number", Str("1")), Entry("a", Str(" + ")), Entry("number", Str("2"))]))
  {
    var e1, e2, e3 := Entry("number", Str("1")), Entry("a", Str(" + ")), Entry("number", Str("2"));
    Matches(m, Number, "1 + 2", false, fuel, "1 + 2", 1);
    assert "1 + 2"[1..] == " + 2" && "1 + 2"[..1] == "1";
    SeqStep(m, Add, 0, "1 + 2", [], false, fuel);
    Matches(m, AddOp, " + 2", false, fuel, " + 2", 3);
    assert " + 2"[3..] == "2" && " + 2"[..3] == " + ";
    assert [] + [e1] == [e1];
    SeqStep(m, Add, 1, " + 2", [e1], false, fuel);
    Matches(m, Number, "2", false, fuel, "2", 1);
    assert "2"[1..] == "" && "2"[..1] == "2";
    assert [e1] + [e2] == [e1, e2];
    SeqStep(m, Add, 2, "2", [e1, e2], false, fuel);
    assert [e1, e2] + [e3] == [e1, e2, e3];
  }

  /** `sequence('add', NUMBER, a, NUMBER, isConv=True)` consumes all of
      `"1 + 2"`, so it reports `False`, which `PEG.parse` accepts; the three
      matches are joined into one string. */
  lemma SequenceExample(m: Matcher, fuel: nat)
    requires m(Number.pattern, "1 + 2") == Some(1)
    requires m(AddOp.pattern, " + 2") == Some(3)
    requires m(Number.pattern, "2") == Some(1)
    ensures Eval(m, Add, "1 + 2", true, false, fuel) == Ok(Reply(Outcome(false, ""), [Entry("add", Str("1 + 2"))]))
    ensures PegParse(m, Single(Add), "1 + 2", fuel) == Run(Ok(true), [Entry("add", Str("1 + 2"))])
  {
    var e1, e2, e3 := Entry("number", Str("1")), Entry("a", Str(" + ")), Entry("number", Str("2"));
    var es := [e1, e2, e3];
    AddCollects(m, fuel);
    ReduceTextEntries(es);
    assert es[1..] == [e2, e3] && es[1..][1..] == [e3] && es[1..][1..][1..] == [];
    assert EntryTexts([e3]) == "2";
    assert EntryTexts([e2, e3]) == " + 2";
    assert EntryTexts(es) == "1 + 2";
    assert Value(true, es) == Ok(Str("1 + 2"));
  }

  const NumOrStr := Ordered("num or str", [Number, Strings], true, true)

  /** `ordered('num or str', NUMBER, STRINGS, isConv=True, isSkip=True)` on
      `"1 test"`: the first alternative matches, and its single entry reduces
      to its matched text. */
  lemma OrderedFirstExample(m: Matcher, fuel: nat)
    requires m(Number.pattern, "1 test") == Some(1)
    ensures PegParse(m, Single(NumOrStr), "1 test", fuel) == Run(Ok(true), [Entry("num or str", Str("1"))])
  {
    var e := Entry("number", Str("1"));
    NoStrip("1 test", true);
    Matches(m, Number, "1 test", true, fuel, "1 test", 1);
    assert "1 test"[1..] == " test" && "1 test"[..1] == "1";
    AltStep(m, NumOrStr, 0, "1 test", [], true, fuel);
    assert [] + [e] == [e];
    assert EvalAlt(m, NumOrStr, 0, "1 test", [], true, fuel) == Ok(Acc(" test", [e]));
    ReduceTextEntries([e]);
    assert EntryTexts([e]) == "1" by { assert [e][1..] == []; }
    assert Value(true, [e]) == Ok(Str("1"));
    assert Eval(m, NumOrStr, "1 test", true, true, fuel)
        == Ok(Reply(Outcome(true, " test"), [Entry("num or str", Str("1"))]));
  }

  /** The same grammar on `"test 1"`: the number fails without consuming
      anything and the second alternative matches. */
  lemma OrderedSecondExample(m: Matcher, fuel: nat)
    requires m(Number.pattern, "test 1") == None
    requires m(Strings.pattern, "test 1") == Some(4)
    ensures PegParse(m, Single(NumOrStr), "test 1", fuel) == Run(Ok(true), [Entry("num or str", Str("test"))])
  {
    var e := Entry("strings", Str("test"));
    NoStrip("test 1", true);
    NoMatch(m, Number, "test 1", true, true, fuel, "test 1");
    AltStep(m, NumOrStr, 0, "test 1", [], true, fuel);
    var none: seq<PyVal> := [];
    assert none + [] == none;
    Matches(m, Strings, "test 1", true, fuel, "test 1", 4);
    assert "test 1"[4..] == " 1" && "test 1"[..4] == "test";
    AltStep(m, NumOrStr, 1, "test 1", [], true, fuel);
    assert [] + [e] == [e];
    assert EvalAlt(m, NumOrStr, 0, "test 1", [], true, fuel) == Ok(Acc(" 1", [e]));
    ReduceTextEntries([e]);
    assert EntryTexts([e]) == "test" by { assert [e][1..] == []; }
    assert Value(true, [e]) == Ok(Str("test"));
    assert Eval(m, NumOrStr, "test 1", true, true, fuel)
        == Ok(Reply(Outcome(true, " 1"), [Entry("num or str", Str("test"))]));
  }

  const SomeStrings := OneOrMore("some", Strings, true, true)

  /** `oneOrMore('some', STRINGS, isConv=True, isSkip=True)` on
      `"qwerty1uiop"`: one match, then the loop stops at the digit. */
  lemma OneOrMoreExample(m: Matcher, fuel: nat)
    requires fuel > 0
    requires m(Strings.pattern, "qwerty1uiop") == Some(6)
    requires m(Strings.pattern, "1uiop") == None
    ensures PegParse(m, Single(SomeStrings), "qwerty1uiop", fuel) == Run(Ok(true), [Entry("some", Str("qwerty"))])
  {
    var e := Entry("strings", Str("qwerty"));
    NoStrip("qwerty1uiop", true);
    NoStrip("1uiop", true);
    Matches(m, Strings, "qwerty1uiop", true, fuel, "qwerty1uiop", 6);
    assert "qwerty1uiop"[6..] == "1uiop" && "qwerty1uiop"[..6] == "qwerty";
    NoMatch(m, Strings, "1uiop", true, true, fuel, "1uiop");
    StarStep(m, SomeStrings, "1uiop", [e], true, fuel, fuel);
    assert [e] + [] == [e];
    assert EvalStar(m, SomeStrings, "1uiop", [e], true, fuel, fuel) == Ok(Acc("1uiop", [e]));
    ReduceTextEntries([e]);
    assert EntryTexts([e]) == "qwerty" by { assert [e][1..] == []; }
    assert Value(true, [e]) == Ok(Str("qwerty"));
    assert Eval(m, SomeStrings, "qwerty1uiop", true, true, fuel)
        == Ok(Reply(Outcome(true, "1uiop"), [Entry("some", Str("qwerty"))]));
  }

  const OptionalNumber := Optional("option", Number, true, true)

  /** `optional('option', NUMBER, isConv=True, isSkip=True)` on `"1"`: the
      number is recorded. */
  lemma OptionalPresentExample(m: Matcher, fuel: nat)
    requires m(Number.pattern, "1") == Some(1)
    ensures PegParse(m, Single(OptionalNumber), "1", fuel) == Run(Ok(true), [Entry("option", Str("1"))])
  {
    var e := Entry("number", Str("1"));
    NoStrip("1", true);
    Matches(m, Number, "1", true, fuel, "1", 1);
    assert "1"[1..] == "" && "1"[..1] == "1";
    ReduceTextEntries([e]);
    assert EntryTexts([e]) == "1" by { assert [e][1..] == []; }
    assert Value(true, [e]) == Ok(Str("1"));
  }

  /** The same grammar on `" a"`: nothing is recorded, the node still
      succeeds, and the input comes back unstripped. */
  lemma OptionalAbsentExample(m: Matcher, fuel: nat)
    requires m(Number.pattern, "a") == None
    ensures Eval(m, OptionalNumber, " a", true, true, fuel) == Ok(Reply(Outcome(true, " a"), []))
    ensures PegParse(m, Single(OptionalNumber), " a", fuel) == Run(Ok(true), [])
  {
    StripOne(" a");
    assert " a"[1..] == "a";
    NoMatch(m, Number, " a", true, true, fuel, "a");
  }

  const AndTest := AndPred("andtest", Number, true, true)
  const NotTest := NotPred("nottest", Number, true, true)

  /** `andPred('andtest', NUMBER)`: accepted or rejected by the child's
      flag, nothing recorded either way. */
  lemma AndPredExamples(m: Matcher, fuel: nat)
    requires m(Number.pattern, "1") == Some(1)
    requires m(Number.pattern, "a") == None
    ensures PegParse(m, Single(AndTest), "1", fuel) == Run(Ok(true), [])
    ensures PegParse(m, Single(AndTest), "a", fuel) == Run(Ok(false), [])
  {
    NoStrip("1", true);
    NoStrip("a", true);
    Matches(m, Number, "1", true, fuel, "1", 1);
    NoMatch(m, Number, "a", false, true, fuel, "a");
  }

  /** `notPred('nottest', NUMBER)`: the opposite verdict, nothing recorded. */
  lemma NotPredExamples(m: Matcher, fuel: nat)
    requires m(Number.pattern, "1") == Some(1)
    requires m(Number.pattern, "a") == None
    ensures PegParse(m, Single(NotTest), "a", fuel) == Run(Ok(true), [])
    ensures PegParse(m, Single(NotTest), "1", fuel) == Run(Ok(false), [])
  {
    NoStrip("1", true);
    NoStrip("a", true);
    Matches(m, Number, "1", true, fuel, "1", 1);
    NoMatch(m, Number, "a", false, true, fuel, "a");
  }

  const Pair := Sequence("pair", [Number, Number], true, true)

  /** The loop of the `pair` sequence on `"1 2"`: both numbers match, the
      second after the space is stripped. */
  lemma PairCollects(m: Matcher, fuel: nat)
    requires m(Number.pattern, "1 2") == Some(1)
    requires m(Number.pattern, "2") == Some(1)
    ensures EvalSeq(m, Pair, 0, "1 2", [], true, fuel)
         == Ok(Acc("", [Entry("number", Str("1")), Entry("number", Str("2"))]))
  {
    var e1 := Entry("number", Str("1"));
    NoStrip("1 2", true);
    Matches(m, Number, "1 2", true, fuel, "1 2", 1);
    assert "1 2"[1..] == " 2" && "1 2"[..1] == "1";
    SeqStep(m, Pair, 0, "1 2", [], true, fuel);
    assert [] + [e1] == [e1];
    PairSecond(m, fuel);
  }

  /** The second turn of that loop, after the space. */
  lemma PairSecond(m: Matcher, fuel: nat)
    requires m(Number.pattern, "2") == Some(1)
    ensures EvalSeq(m, Pair, 1, " 2", [Entry("number", Str("1"))], true, fuel)
         == Ok(Acc("", [Entry("number", Str("1")), Entry("number", Str("2"))]))
  {
    var e1, e2 := Entry("number", Str("1")), Entry("number", Str("2"));
    StripOne(" 2");
    assert " 2"[1..] == "2";
    Matches(m, Number, " 2", true, fuel, "2", 1);
    assert "2"[1..] == "" && "2"[..1] == "2";
    SeqStep(m, Pair, 1, " 2", [e1], true, fuel);
    assert [e1] + [e2] == [e1, e2];
  }

  /** With exactly two collected entries, `isConv` does not join them: the
      node's value is the second entry itself. */
  lemma TwoEntriesReduceToSecond(m: Matcher, fuel: nat)
    requires m(Number.pattern, "1 2") == Some(1)
    requires m(Number.pattern, "2") == Some(1)
    ensures PegParse(m, Single(Pair), "1 2", fuel)
         == Run(Ok(true), [Entry("pair", Entry("number", Str("2")))])
  {
    var e1, e2 := Entry("number", Str("1")), Entry("number", Str("2"));
    PairCollects(m, fuel);
    ReducePair(e1, e2);
    assert Value(true, [e1, e2]) == Ok(e2);
    assert Eval(m, Pair, "1 2", true, true, fuel)
        == Ok(Reply(Outcome(false, ""), [Entry("pair", e2)]));
  }

  const Guarded := AndPred("guard", Sequence("s", [Number], false, false), false, false)

  /** A predicate hands `None` to its child: a sequence under it that
      collects anything fails with `None.append`. */
  lemma PredicateOverCollectingChild(m: Matcher, fuel: nat)
    requires m(Number.pattern, "1") == Some(1)
    ensures PegParse(m, Single(Guarded), "1", fuel) == Run(Raised(NoneAppend), [])
  {
    var s := Sequence("s", [Number], false, false);
    var e := Entry("number", Str("1"));
    Matches(m, Number, "1", false, fuel, "1", 1);
    assert "1"[1..] == "" && "1"[..1] == "1";
    SeqStep(m, s, 0, "1", [], false, fuel);
    assert [] + [e] == [e];
    assert EvalSeq(m, s, 0, "1", [], false, fuel) == Ok(Acc("", [e]));
    assert Eval(m, s, "1", false, false, fuel) == Raised(NoneAppend);
    assert Eval(m, Guarded, "1", true, false, fuel) == Raised(NoneAppend);
  }

  const NumThenStr := Sequence("s", [Number, Strings], false, false)

  /** A sequence whose second child fails keeps what the first consumed and
      recorded, and still reports `True` because input remains. */
  lemma SequenceKeepsPartialProgress(m: Matcher, fuel: nat)
    requires m(Number.pattern, "1+") == Some(1)
    requires m(Strings.pattern, "+") == None
    ensures Eval(m, NumThenStr, "1+", true, false, fuel)
         == Ok(Reply(Outcome(true, "+"), [Entry("s", List([Entry("number", Str("1"))]))]))
  {
    var e := Entry("number", Str("1"));
    Matches(m, Number, "1+", false, fuel, "1+", 1);
    assert "1+"[1..] == "+" && "1+"[..1] == "1";
    SeqStep(m, NumThenStr, 0, "1+", [], false, fuel);
    assert [] + [e] == [e];
    NoMatch(m, Strings, "+", true, false, fuel, "+");
    SeqStep(m, NumThenStr, 1, "+", [e], false, fuel);
    assert [e] + [] == [e];
    assert EvalSeq(m, NumThenStr, 0, "1+", [], false, fuel) == Ok(Acc("+", [e]));
  }
}
