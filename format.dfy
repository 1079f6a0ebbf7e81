/** The formatting pipeline of format.go: the format symbols with their
    defaults, and `formatToString`, which renders the values along a
    chain as `Start`, the values separated by `Sep`, then `End`.

    The specification is `Formatted`, a join over the converted values.
    The conversion of one value to text is a caller-supplied function
    `conv`. */
module Format {
  import opened Impl

  /** The text put at the start, between adjacent values and at the end. */
  datatype FormatSymbols = FormatSymbols(End: string, Sep: string, Start: string)

  const DefaultEnd: string := "]"
  const DefaultSepDouble: string := " <> "
  const DefaultSepSingle: string := " > "
  const DefaultStart: string := "["

  /** `NewFormatSymbols`: the default symbols, whose separator depends on
      the kind of list. */
  function NewFormatSymbols(isSingleLink: bool): (symbols: FormatSymbols)
    ensures symbols.Start == "[" && symbols.End == "]"
    ensures isSingleLink ==> symbols.Sep == " > "
    ensures !isSingleLink ==> symbols.Sep == " <> "
  {
    var sep := if isSingleLink then DefaultSepSingle else DefaultSepDouble;
    FormatSymbols(End := DefaultEnd, Sep := sep, Start := DefaultStart)
  }

  /** The parts with `sep` between each two adjacent ones, built the way
      the formatting loop builds it: one more separator and part at a time. */
  function Join(sep: string, parts: seq<string>): string
    requires |parts| > 0
  {
    if |parts| == 1 then parts[0]
    else Join(sep, parts[..|parts| - 1]) + sep + parts[|parts| - 1]
  }

  /** `sep + p` for every part `p`, in order. */
  function Prefixed(sep: string, parts: seq<string>): string {
    if parts == [] then "" else sep + parts[0] + Prefixed(sep, parts[1..])
  }

  /** The total length of the parts. */
  function TotalLength(parts: seq<string>): nat {
    if parts == [] then 0 else |parts[0]| + TotalLength(parts[1..])
  }

  /** Each value converted to text. */
  function Converted<T>(conv: T -> string, vals: seq<T>): (parts: seq<string>)
    ensures |parts| == |vals|
    ensures forall i :: 0 <= i < |vals| ==> parts[i] == conv(vals[i])
  {
    seq(|vals|, i requires 0 <= i < |vals| => conv(vals[i]))
  }

  /** What `formatToString` returns for the values `vals` of a chain. */
  function Formatted<T>(symbols: FormatSymbols, conv: T -> string, vals: seq<T>): string
    requires |vals| > 0
  {
    symbols.Start + Join(symbols.Sep, Converted(conv, vals)) + symbols.End
  }

  lemma {:induction false} PrefixedSnoc(sep: string, parts: seq<string>, p: string)
    ensures Prefixed(sep, parts + [p]) == Prefixed(sep, parts) + sep + p
    decreases |parts|
  {
    if parts == [] {
      assert [p][1..] == [];
    } else {
      assert (parts + [p])[1..] == parts[1..] + [p];
      PrefixedSnoc(sep, parts[1..], p);
    }
  }

  /** The join in closed form: the first part, then `sep` followed by
      each later part. */
  lemma {:induction false} JoinClosedForm(sep: string, parts: seq<string>)
    requires |parts| > 0
    ensures Join(sep, parts) == parts[0] + Prefixed(sep, parts[1..])
    decreases |parts|
  {
    if |parts| > 1 {
      var init := parts[..|parts| - 1];
      JoinClosedForm(sep, init);
      assert parts[1..] == init[1..] + [parts[|parts| - 1]];
      PrefixedSnoc(sep, init[1..], parts[|parts| - 1]);
    }
  }

  /** Joining two non-empty runs of parts puts one separator between
      their joins. */
  lemma {:induction false} JoinAppend(sep: string, a: seq<string>, b: seq<string>)
    requires |a| > 0 && |b| > 0
    ensures Join(sep, a + b) == Join(sep, a) + sep + Join(sep, b)
    decreases |b|
  {
    var ab := a + b;
    assert ab[..|ab| - 1] == a + b[..|b| - 1] || |b| == 1;
    if |b| == 1 {
      assert ab[..|ab| - 1] == a;
    } else {
      assert ab[..|ab| - 1] == a + b[..|b| - 1];
      JoinAppend(sep, a, b[..|b| - 1]);
    }
  }

  lemma {:induction false} TotalLengthSnoc(parts: seq<string>, p: string)
    ensures TotalLength(parts + [p]) == TotalLength(parts) + |p|
    decreases |parts|
  {
    if parts != [] {
      assert (parts + [p])[1..] == parts[1..] + [p];
      TotalLengthSnoc(parts[1..], p);
    }
  }

  /** Exactly `|parts| - 1` separators are inserted: the join is as long
      as the parts together plus that many copies of `sep`. */
  lemma {:induction false} JoinLength(sep: string, parts: seq<string>)
    requires |parts| > 0
    ensures |Join(sep, parts)| == TotalLength(parts) + (|parts| - 1) * |sep|
    decreases |parts|
  {
    if |parts| == 1 {
      assert parts[1..] == [];
    } else {
      var init := parts[..|parts| - 1];
      JoinLength(sep, init);
      assert parts == init + [parts[|parts| - 1]];
      TotalLengthSnoc(init, parts[|parts| - 1]);
    }
  }

  /** With a one-character separator that occurs in no part, the join
      contains that character exactly `|parts| - 1` times. */
  lemma {:induction false} JoinSeparatorCount(c: char, parts: seq<string>)
    requires |parts| > 0
    requires forall i :: 0 <= i < |parts| ==> c !in parts[i]
    ensures multiset(Join([c], parts))[c] == |parts| - 1
    decreases |parts|
  {
    var last := parts[|parts| - 1];
    assert multiset(last)[c] == 0;
    if |parts| > 1 {
      var init := parts[..|parts| - 1];
      JoinSeparatorCount(c, init);
      assert Join([c], parts) == Join([c], init) + [c] + last;
    }
  }

  /** A one-node list is `Start`, its value and `End`, with no separator. */
  lemma FormattedOne<T>(symbols: FormatSymbols, conv: T -> string, v: T)
    ensures Formatted(symbols, conv, [v]) == symbols.Start + conv(v) + symbols.End
  {
  }

  /** The rendering in closed form: `Start`, the first value, `Sep` and
      the value for each later node, then `End`. */
  lemma FormattedClosedForm<T>(symbols: FormatSymbols, conv: T -> string, vals: seq<T>)
    requires |vals| > 0
    ensures Formatted(symbols, conv, vals)
         == symbols.Start + conv(vals[0]) + Prefixed(symbols.Sep, Converted(conv, vals[1..])) + symbols.End
  {
    var parts := Converted(conv, vals);
    JoinClosedForm(symbols.Sep, parts);
    assert parts[1..] == Converted(conv, vals[1..]);
  }

  /** The output starts with `Start`, ends with `End`, and is as long as
      the converted values plus `|vals| - 1` separators and the two ends. */
  lemma FormattedShape<T>(symbols: FormatSymbols, conv: T -> string, vals: seq<T>)
    requires |vals| > 0
    ensures var r := Formatted(symbols, conv, vals);
      && |r| == |symbols.Start| + TotalLength(Converted(conv, vals)) + (|vals| - 1) * |symbols.Sep| + |symbols.End|
      && r[..|symbols.Start|] == symbols.Start
      && r[|r| - |symbols.End|..] == symbols.End
  {
    JoinLength(symbols.Sep, Converted(conv, vals));
  }

  /** One more round of the formatting loop: the text for the first
      `i + 2` parts extends the text for the first `i + 1` by `sep` and
      the next part. */
  lemma JoinStep(start: string, sep: string, parts: seq<string>, i: nat)
    requires i + 1 < |parts|
    ensures start + Join(sep, parts[..i + 2]) == start + Join(sep, parts[..i + 1]) + sep + parts[i + 1]
  {
    assert parts[..i + 2][..i + 1] == parts[..i + 1];
  }

  /** The text for all the parts, closed by `End`, is the rendering. */
  lemma JoinDone<T>(symbols: FormatSymbols, conv: T -> string, vals: seq<T>, n: nat)
    requires n == |vals| > 0
    ensures symbols.Start + Join(symbols.Sep, Converted(conv, vals)[..n]) + symbols.End == Formatted(symbols, conv, vals)
  {
    assert Converted(conv, vals)[..n] == Converted(conv, vals);
  }

  /** `formatToString`: writes `Start` and the first value, then `Sep` and
      the value for every further node while the adapter has a next node,
      then `End`. The adapter is moved along the chain and ends at its
      last node. */
  method FormatToString<T>(conv: T -> string, node: CommonNode<T>, symbols: FormatSymbols,
                           ghost links: seq<Link<T>>, ghost vals: seq<T>)
    returns (s: string)
    requires IsLinkChain(links) && node.node == links[0] && LinkValues(links) == vals
    modifies node
    ensures node.node == links[|links| - 1]
    ensures s == Formatted(symbols, conv, vals)
  {
    ghost var parts := Converted(conv, vals);
    ghost var succs := Successors(links);
    AdapterOutside(node, links);
    forall k | 0 <= k < |links|
      ensures !succs[k].IsNil() <==> k < |links| - 1
      ensures k < |links| - 1 ==> succs[k] == links[k + 1]
    {
      LinkChainStep(links, k);
    }
    var builder := symbols.Start;
    builder := builder + conv(node.Val());
    var current := node;
    ghost var i := 0;
    while current.HasNext()
      invariant current == node && forall k :: 0 <= k < |links| ==> links[k].Target() != node
      invariant forall k :: 0 <= k < |links| ==> !links[k].IsNil()
      invariant forall k :: 0 <= k < |links| ==> (!succs[k].IsNil() <==> k < |links| - 1)
      invariant forall k :: 0 <= k < |links| - 1 ==> succs[k] == links[k + 1]
      invariant 0 <= i < |links| && current.node == links[i]
      invariant links[i].Successor() == succs[i] && links[i].Value() == vals[i]
      invariant builder == symbols.Start + Join(symbols.Sep, parts[..i + 1])
      decreases |links| - i
    {
      current := current.Next();
      i := i + 1;
      JoinStep(symbols.Start, symbols.Sep, parts, i - 1);
      builder := builder + symbols.Sep + conv(current.Val());
    }
    JoinDone(symbols, conv, vals, i + 1);
    builder := builder + symbols.End;
    s := builder;
  }
}
