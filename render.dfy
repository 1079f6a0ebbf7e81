/** The formatting entry points of the two node types in api.go:
    `Format`, `FormatCustom` and `String`. Each wraps the node in an
    adapter and hands it to `formatToString`.

    Go's `Format(symbols)` is `FormatCustom` with the default options of
    the value-to-string library. With the conversion a parameter here,
    the two are one method per node type, taking the conversion `conv`. */
module Render {
  import S = SinglyLinked
  import D = DoublyLinked
  import opened Impl
  import opened Format

  /** `SingleLinkNode.FormatCustom`: the values from `n` to the last node,
      rendered with `symbols` and `conv`. */
  method SingleFormat<T>(n: S.SingleLinkNode<T>, conv: T -> string, symbols: FormatSymbols,
                         ghost chain: seq<S.SingleLinkNode<T>>)
    returns (s: string)
    requires S.IsChain(chain) && chain[0] == n
    ensures s == Formatted(symbols, conv, old(S.Values(chain)))
  {
    ghost var vals := S.Values(chain);
    var adapter := new CommonNode(Single(n));
    assert S.IsChain(chain) && S.Values(chain) == vals;
    SingleLinksChain(chain);
    s := FormatToString(conv, adapter, symbols, SingleLinks(chain), vals);
  }

  /** `SingleLinkNode.String`: rendered as `[v0 > v1 > ... ]`. */
  method SingleString<T>(n: S.SingleLinkNode<T>, conv: T -> string, ghost chain: seq<S.SingleLinkNode<T>>)
    returns (s: string)
    requires S.IsChain(chain) && chain[0] == n
    ensures s == Formatted(FormatSymbols("]", " > ", "["), conv, old(S.Values(chain)))
  {
    s := SingleFormat(n, conv, NewFormatSymbols(true), chain);
  }

  /** `DoubleLinkNode.FormatCustom`: the values from `n` to the last node,
      rendered with `symbols` and `conv`. */
  method DoubleFormat<T>(n: D.DoubleLinkNode<T>, conv: T -> string, symbols: FormatSymbols,
                         ghost chain: seq<D.DoubleLinkNode<T>>)
    returns (s: string)
    requires D.IsNextChain(chain) && chain[0] == n
    ensures s == Formatted(symbols, conv, old(D.Values(chain)))
  {
    ghost var vals := D.Values(chain);
    var adapter := new CommonNode(Double(n));
    assert D.IsNextChain(chain) && D.Values(chain) == vals;
    DoubleLinksChain(chain);
    s := FormatToString(conv, adapter, symbols, DoubleLinks(chain), vals);
  }

  /** `DoubleLinkNode.String`: rendered as `[v0 <> v1 <> ... ]`. */
  method DoubleString<T>(n: D.DoubleLinkNode<T>, conv: T -> string, ghost chain: seq<D.DoubleLinkNode<T>>)
    returns (s: string)
    requires D.IsNextChain(chain) && chain[0] == n
    ensures s == Formatted(FormatSymbols("]", " <> ", "["), conv, old(D.Values(chain)))
  {
    s := DoubleFormat(n, conv, NewFormatSymbols(false), chain);
  }
}
