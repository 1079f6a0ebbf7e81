/** Client scenarios that mirror what api_test.go checks: building lists,
    stepping along them by index in both directions, finding the head
    from the last node, and the rendered text for default and custom
    symbols. Integer values are rendered in decimal by `Decimal`. */
module Examples {
  import S = SinglyLinked
  import D = DoublyLinked
  import opened Format
  import opened Render

  /** The decimal digits of `n`, most significant first. */
  function Decimal(n: nat): string {
    if n < 10 then [DigitChar(n)] else Decimal(n / 10) + [DigitChar(n % 10)]
  }

  function DigitChar(d: nat): char
    requires d < 10
  {
    "0123456789"[d]
  }

  /** On a list as the builder makes it from `values`, `GetNextAt(i)` from
      the head is the node holding `values[i]`, and past the end it is nil. */
  method NextFromHead<T>(head: S.SingleLinkNode<T>, values: seq<T>, i: int, ghost chain: seq<S.SingleLinkNode<T>>)
    returns (r: S.SingleLinkNode?<T>)
    requires S.IsChain(chain) && chain[0] == head && S.Values(chain) == values
    ensures 0 <= i < |values| ==> r != null && r.Val == values[i]
    ensures i >= |values| ==> r == null
  {
    r := head.GetNextAt(i, chain);
  }

  /** The indexed walk stops after `index` steps even on a cycle: on a
      node whose `Next` is itself, `GetNextAt(3)` gives that node back. */
  method SelfLoopNextAt<T>(a: S.SingleLinkNode<T>) returns (r: S.SingleLinkNode?<T>)
    requires a.Next == a
    ensures r == a
  {
    r := a.GetNextAt(3, [a, a, a, a]);
  }

  /** On a doubly linked list as the builder makes it from `values`,
      `GetPrevAt(i)` from the last node is the node holding
      `values[|values| - 1 - i]`, and past the head it is nil. */
  method PrevFromLast<T>(head: D.DoubleLinkNode<T>, values: seq<T>, i: int, ghost chain: seq<D.DoubleLinkNode<T>>)
    returns (r: D.DoubleLinkNode?<T>)
    requires D.IsList(chain) && chain[0] == head && D.Values(chain) == values
    ensures 0 <= i < |values| ==> r != null && r.Val == values[|values| - 1 - i]
    ensures i >= |values| ==> r == null
  {
    var last := head.GetLast(chain);
    D.ListBackward(chain);
    r := last.GetPrevAt(i, D.Reversed(chain));
  }

  /** From the last node of such a list, `GetHead` gives back the head;
      the last node holds the last value. */
  method HeadFromLast<T>(head: D.DoubleLinkNode<T>, values: seq<T>, ghost chain: seq<D.DoubleLinkNode<T>>)
    returns (last: D.DoubleLinkNode<T>, head2: D.DoubleLinkNode<T>)
    requires D.IsList(chain) && chain[0] == head && D.Values(chain) == values
    ensures head2 == head
    ensures last.Val == values[|values| - 1] && last.Next == null
  {
    last := head.GetLast(chain);
    D.ListBackward(chain);
    head2 := last.GetHead(D.Reversed(chain));
  }

  /** From any node of a well-formed doubly linked list, `GetHead` and
      `GetLast` reach the two ends, so the head's last node is the node's
      last node and the last node's head is the node's head. */
  method EndsFromAnyNode<T>(n: D.DoubleLinkNode<T>, k: int, ghost chain: seq<D.DoubleLinkNode<T>>)
    returns (head: D.DoubleLinkNode<T>, last: D.DoubleLinkNode<T>, lastOfHead: D.DoubleLinkNode<T>, headOfLast: D.DoubleLinkNode<T>)
    requires D.IsList(chain) && 0 <= k < |chain| && chain[k] == n
    ensures head == chain[0] && head.Prev == null
    ensures last == chain[|chain| - 1] && last.Next == null
    ensures lastOfHead == last && headOfLast == head
  {
    D.ListFromNode(chain, k);
    head := n.GetHead(D.Reversed(chain[..k + 1]));
    last := n.GetLast(chain[k..]);
    lastOfHead := head.GetLast(chain);
    D.ListBackward(chain);
    headOfLast := last.GetHead(D.Reversed(chain));
  }

  /** A list of one value renders with no separator, as `[v]`; a nil
      pointer value whose text is `nil` gives `[nil]`. */
  method OneNode<T(0)>(v: T, conv: T -> string) returns (single: string, double: string)
    ensures single == "[" + conv(v) + "]"
    ensures double == "[" + conv(v) + "]"
  {
    var sh, schain := S.CreateSinglyLinkedListFromSlice([v]);
    single := SingleString(sh, conv, schain);
    var dh, dchain := D.CreateDoublyLinkedListFromSlice([v]);
    double := DoubleString(dh, conv, dchain);
    FormattedOne(FormatSymbols("]", " > ", "["), conv, v);
    FormattedOne(FormatSymbols("]", " <> ", "["), conv, v);
  }

  /** The singly linked list of 1, 2, 4, 8, 16 with the default symbols
      and with `$$ `, ` - `, ` $$`. */
  method SinglyRendered() returns (plain: string, custom: string)
    ensures plain == "[1 > 2 > 4 > 8 > 16]"
    ensures custom == "$$ 1 - 2 - 4 - 8 - 16 $$"
  {
    var values: seq<nat> := [1, 2, 4, 8, 16];
    var head, chain := S.CreateSinglyLinkedListFromSlice(values);
    plain := SingleString(head, Decimal, chain);
    custom := SingleFormat(head, Decimal, FormatSymbols(" $$", " - ", "$$ "), chain);
    SinglyText();
    CustomText();
  }

  /** The doubly linked list of 1, 2, 4, 8, 16 with the default symbols. */
  method DoublyRendered() returns (plain: string)
    ensures plain == "[1 <> 2 <> 4 <> 8 <> 16]"
  {
    var values: seq<nat> := [1, 2, 4, 8, 16];
    var head, chain := D.CreateDoublyLinkedListFromSlice(values);
    plain := DoubleString(head, Decimal, chain);
    DoublyText();
  }

  /** 1, 2, 4, 8, 16 rendered in decimal with any symbols. */
  lemma PowersRendered(symbols: FormatSymbols)
    ensures Formatted(symbols, Decimal, [1, 2, 4, 8, 16])
         == symbols.Start + "1" + symbols.Sep + "2" + symbols.Sep + "4" + symbols.Sep + "8" + symbols.Sep + "16" + symbols.End
  {
    PowersDecimal();
    PowersJoined(symbols.Sep);
  }

  /** The renderings of 1, 2, 4, 8, 16 that api_test.go expects. */
  lemma SinglyText()
    ensures Formatted(FormatSymbols("]", " > ", "["), Decimal, [1, 2, 4, 8, 16]) == "[1 > 2 > 4 > 8 > 16]"
  {
    PowersRendered(FormatSymbols("]", " > ", "["));
  }

  lemma DoublyText()
    ensures Formatted(FormatSymbols("]", " <> ", "["), Decimal, [1, 2, 4, 8, 16]) == "[1 <> 2 <> 4 <> 8 <> 16]"
  {
    PowersRendered(FormatSymbols("]", " <> ", "["));
  }

  lemma CustomText()
    ensures Formatted(FormatSymbols(" $$", " - ", "$$ "), Decimal, [1, 2, 4, 8, 16]) == "$$ 1 - 2 - 4 - 8 - 16 $$"
  {
    PowersRendered(FormatSymbols(" $$", " - ", "$$ "));
  }

  lemma PowersDecimal()
    ensures Converted(Decimal, [1, 2, 4, 8, 16]) == ["1", "2", "4", "8", "16"]
  {
    assert Decimal(16) == "16" by {
      assert Decimal(1) == "1";
    }
  }

  lemma PowersJoined(sep: string)
    ensures Join(sep, ["1", "2", "4", "8", "16"]) == "1" + sep + "2" + sep + "4" + sep + "8" + sep + "16"
  {
    assert ["1", "2", "4", "8", "16"][..4] == ["1", "2", "4", "8"];
    assert ["1", "2", "4", "8"][..3] == ["1", "2", "4"];
    assert ["1", "2", "4"][..2] == ["1", "2"];
    assert ["1", "2"][..1] == ["1"];
    assert Join(sep, ["1", "2"]) == "1" + sep + "2";
    assert Join(sep, ["1", "2", "4"]) == Join(sep, ["1", "2"]) + sep + "4";
    assert Join(sep, ["1", "2", "4", "8"]) == Join(sep, ["1", "2", "4"]) + sep + "8";
  }
}
