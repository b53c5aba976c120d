/** Grammar values: what `defGrammar`, `PEG.grammar` and the `PEG`
    combinator constructors build. */
module Grammar {
  import opened Values

  /** Whether a matcher only ever reports a prefix of the text it is given. */
  ghost predicate PrefixMatcher(f: (string, string) -> Option<nat>)
  {
    forall pattern, text :: f(pattern, text).Some? ==> f(pattern, text).value <= |text|
  }

  /** The regular-expression engine, `re.compile(pattern).match(text)`, left
      uninterpreted: `Some(n)` when the pattern matches the first `n`
      characters of the text (possibly none, since a Python match object is
      truthy even when empty), `None` when it does not match there. */
  type Matcher = f: (string, string) -> Option<nat> | PrefixMatcher(f)
    witness (pattern: string, text: string) => None

  /** A grammar node. Every constructor carries the node's name and the
      default `isSkip` its closure was built with; the combinators also
      carry `isConv`. `AndPred` and `NotPred` accept `isConv` and ignore it. */
  datatype Grammar =
    | Terminal(name: string, pattern: string, skip: bool)
    | Sequence(name: string, children: seq<Grammar>, isConv: bool, skip: bool)
    | Ordered(name: string, children: seq<Grammar>, isConv: bool, skip: bool)
    | ZeroOrMore(name: string, child: Grammar, isConv: bool, skip: bool)
    | OneOrMore(name: string, child: Grammar, isConv: bool, skip: bool)
    | Optional(name: string, child: Grammar, isConv: bool, skip: bool)
    | AndPred(name: string, child: Grammar, isConv: bool, skip: bool)
    | NotPred(name: string, child: Grammar, isConv: bool, skip: bool)

  /** The `isSkip` a combinator hands to a child: its own effective `isSkip`
      when that is true, otherwise nothing, so the child falls back to its
      own default. */
  function ChildSkip(effective: bool, c: Grammar): bool
  {
    if effective then true else c.skip
  }

  /** The terminals predefined on the `PEG` class. */
  const BreakLine := Terminal("breakline", "\n", false)
  const Space := Terminal("space", "\\s", false)
  const Number := Terminal("number", "[+-]?[0-9]+\\.?[0-9]*", false)
  const Strings := Terminal("strings",
    "[a-zA-Z\U{3041}-\U{3093}\U{30A1}-\U{30F3}\U{4E00}-\U{9FA5}\U{FF1A}-\U{FF20}]+", false)
  const Symbols := Terminal("symbols", "[!-/:-@[-`{-~]", false)
}
