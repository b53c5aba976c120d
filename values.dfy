/** Python values as the reducer sees them, and the reducer `_toStr`
    (`_reduceListVals` is `_toStr` applied once at the top). */
module Values {

  datatype Option<+T> = None | Some(value: T)

  /** A Python value: a `str`, a `list`/`tuple` (the two are treated alike), or
      any other object. */
  datatype PyVal = Str(s: string) | List(items: seq<PyVal>) | Other

  /** The pair `(name, value)` that every node appends to an AST list. */
  function Entry(name: string, v: PyVal): PyVal
  {
    List([Str(name), v])
  }

  /** `"".join(parts)`, where `parts` is the list built by the comprehension in
      `_toStr`; `None` in `parts` is a `TypeError` raised while building it,
      and `None` as the result is the `TypeError` that `join` raises. */
  function JoinStrs(parts: seq<Option<PyVal>>): Option<string>
  {
    if |parts| == 0 then Some("")
    else match parts[0] {
      case Some(Str(t)) =>
        match JoinStrs(parts[1..]) {
          case Some(u) => Some(t + u)
          case None => None
        }
      case _ => None
    }
  }

  /** `_toStr`: `None` is the `TypeError` of `"".join` over a non-string. */
  function ToStr(v: PyVal): Option<PyVal>
  {
    match v
    case Str(_) => Some(v)
    case List(xs) =>
      if |xs| == 2 then Some(xs[1])
      else
        match JoinStrs(seq(|xs|, i requires 0 <= i < |xs| => ToStr(xs[i]))) {
          case Some(t) => Some(Str(t))
          case None => None
        }
    case Other => Some(Str(""))
  }

  /** A part that `join` accepts: a string produced without an exception. */
  predicate Joinable(p: Option<PyVal>)
  {
    p.Some? && p.value.Str?
  }

  function PartText(p: Option<PyVal>): string
    requires Joinable(p)
  {
    p.value.s
  }

  /** The concatenation of the texts of joinable parts. */
  function Texts(parts: seq<Option<PyVal>>): string
    requires forall i :: 0 <= i < |parts| ==> Joinable(parts[i])
  {
    if |parts| == 0 then "" else PartText(parts[0]) + Texts(parts[1..])
  }

  /** `join` succeeds exactly when every part is a string, and then yields
      their concatenation in order. */
  lemma {:induction false} JoinStrsSpec(parts: seq<Option<PyVal>>)
    ensures JoinStrs(parts).Some? <==> forall i :: 0 <= i < |parts| ==> Joinable(parts[i])
    ensures JoinStrs(parts).Some? ==> JoinStrs(parts).value == Texts(parts)
  {
    if |parts| > 0 {
      JoinStrsSpec(parts[1..]);
      assert forall i :: 1 <= i < |parts| ==> parts[i] == parts[1..][i - 1];
    }
  }

  /** A string is returned unchanged, so reducing an already reduced string
      is a no-op; any other value that is neither a string nor a list
      reduces to the empty string. */
  lemma ReduceStringIsIdentity(v: PyVal)
    ensures v.Str? ==> ToStr(v) == Some(v)
    ensures v.Other? ==> ToStr(v) == Some(Str(""))
    ensures ToStr(v).Some? && ToStr(v).value.Str? ==> ToStr(ToStr(v).value) == ToStr(v)
  {
  }

  /** A list of two elements reduces to its second element, whatever it is
      and without reducing it further. */
  lemma ReducePair(a: PyVal, b: PyVal)
    ensures ToStr(List([a, b])) == Some(b)
  {
  }

  /** Any other list reduces to the concatenation of its elements'
      reductions, and raises exactly when one of them is not a string. */
  lemma ReduceList(xs: seq<PyVal>)
    requires |xs| != 2
    ensures ToStr(List(xs)).Some? <==> forall i :: 0 <= i < |xs| ==> Joinable(ToStr(xs[i]))
    ensures ToStr(List(xs)).Some? ==>
      ToStr(List(xs)) == Some(Str(Texts(seq(|xs|, i requires 0 <= i < |xs| => ToStr(xs[i])))))
  {
    var parts := seq(|xs|, i requires 0 <= i < |xs| => ToStr(xs[i]));
    JoinStrsSpec(parts);
    assert forall i :: 0 <= i < |xs| ==> parts[i] == ToStr(xs[i]);
  }

  /** An entry whose value is a string. */
  predicate IsTextEntry(e: PyVal)
  {
    e.List? && |e.items| == 2 && e.items[1].Str?
  }

  /** The values of text entries, concatenated in order. */
  function EntryTexts(es: seq<PyVal>): string
    requires forall i :: 0 <= i < |es| ==> IsTextEntry(es[i])
  {
    if |es| == 0 then ""
    else
      assert IsTextEntry(es[0]);
      es[0].items[1].s + EntryTexts(es[1..])
  }

  lemma {:induction false} TextsOfTextEntries(es: seq<PyVal>, parts: seq<Option<PyVal>>)
    requires forall i :: 0 <= i < |es| ==> IsTextEntry(es[i])
    requires |parts| == |es| && forall i :: 0 <= i < |es| ==> parts[i] == ToStr(es[i])
    ensures forall i :: 0 <= i < |parts| ==> Joinable(parts[i])
    ensures Texts(parts) == EntryTexts(es)
  {
    if |es| > 0 {
      TextsOfTextEntries(es[1..], parts[1..]);
    }
  }

  /** A list of other than two entries whose values are strings reduces to
      the concatenation of those strings: the reduction a node with `isConv`
      set performs on its collected terminal matches. */
  lemma ReduceTextEntries(es: seq<PyVal>)
    requires |es| != 2
    requires forall i :: 0 <= i < |es| ==> IsTextEntry(es[i])
    ensures ToStr(List(es)) == Some(Str(EntryTexts(es)))
  {
    var parts := seq(|es|, i requires 0 <= i < |es| => ToStr(es[i]));
    TextsOfTextEntries(es, parts);
    ReduceList(es);
  }
}
