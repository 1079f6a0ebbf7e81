# go-linked-list in Dafny

A model of the generic linked-list package `golinkedlist`. It covers:

- singly linked nodes (`SingleLinkNode`) and doubly linked nodes (`DoubleLinkNode`), with their constructors;
- the list builders `CreateSinglyLinkedListFromSlice` and `CreateDoublyLinkedListFromSlice`, which append fresh nodes behind a dummy node;
- the pointer walks `GetNextAt`, `GetPrevAt`, `GetLast` and `GetHead`;
- the formatting pipeline: `FormatSymbols` and its defaults, `NewFormatSymbols`, and `formatToString`;
- the adapters of impl.go (`hasNext`, `next`, `val`), which let one routine walk both node kinds;
- the `Format`/`FormatCustom`/`String` entry points of both node types.

Nodes are Dafny classes whose fields the methods read and write in place. The list starting at a node is described by a ghost sequence of nodes:

- `IsChain`/`IsNextChain`: each node's `Next` is the following node, and the last node's `Next` is nil.
- `IsPrevChain`: the same along `Prev`.
- `IsList`: a `Next` chain with consistent `Prev` links and a head without a predecessor.

Requiring such a sequence is how the model states that a chain is finite. Lemmas then show that its nodes are pairwise distinct and that the chain from a node is unique.

Formatting is specified by `Format.Formatted`:

    Start + Join(Sep, [conv(v0), ..., conv(vn-1)]) + End

The properties proved about it:

- its closed form (`JoinClosedForm`, `FormattedClosedForm`);
- its length and separator count;
- the one-node case.

`formatToString` is proved to produce exactly this text for the values along the chain.

Files:

- `singly.dfy` (module `SinglyLinked`)
- `doubly.dfy` (module `DoublyLinked`)
- `impl.dfy` (module `Impl`: the adapter)
- `format.dfy` (module `Format`)
- `render.dfy` (module `Render`: the per-node-type `Format`/`String` methods)
- `examples.dfy` (module `Examples`: the scenarios of api_test.go)

Notes on the Go code:

- No equality comparator or validity check exists in api.go, format.go or impl.go. The validity condition appears as the predicate `DoublyLinked.IsList`, which the builder is proved to establish.
- The Go code does not type-check as written. `commonNode.val()` is declared to return `*T` (format.go:12), but both adapters return `T` (impl.go:17, impl.go:35). `FormatCustom` passes an options value where `formatToString` expects a conversion function (api.go:40, format.go:56).
- The model takes the evident intent: `val()` returns `T`, and the caller supplies a conversion `conv: T -> string`.

## Model

| member | source | states |
|---|---|---|
| SinglyLinked.SingleLinkNode.constructor | api.go:131-134 | the new node has exactly the given `Next` and `Val` |
| SinglyLinked.NewEmptySingleLinkNode | api.go:124-129 | a fresh node with a nil `Next` |
| SinglyLinked.SingleLinkNode.GetLast | api.go:153-162 | the walk along `Next` ends at the chain's last node, whose `Next` is nil |
| SinglyLinked.SingleLinkNode.GetNextAt | api.go:164-173 | the receiver for `index <= 0`, the node `index` steps along `Next`, nil once the walk passes a nil `Next`; it needs only a `Next` path covering the steps taken, so it also holds on a cycle |
| SinglyLinked.CreateSinglyLinkedListFromSlice | api.go:187-200 | nil exactly for an empty slice; otherwise a chain of fresh nodes headed by the result whose values are the slice, in order, the last `Next` nil |
| SinglyLinked.ChainDistinct | api.go:153-162 | no node occurs twice in a nil-terminated chain, so the walks terminate |
| SinglyLinked.ChainUnique | api.go:153-162 | the chain from a node is determined by that node |
| DoublyLinked.DoubleLinkNode.constructor | api.go:12-17 | the new node has exactly the given `Prev`, `Next` and `Val` |
| DoublyLinked.NewEmptyDoubleLinkNode | api.go:19-24 | a fresh node with nil `Prev` and `Next` |
| DoublyLinked.DoubleLinkNode.GetHead | api.go:43-52 | the walk along `Prev` ends at the last node of the `Prev` chain, whose `Prev` is nil |
| DoublyLinked.DoubleLinkNode.GetNextAt | api.go:54-63 | the receiver for `index <= 0`, the node `index` steps along `Next`, nil once the walk passes a nil `Next`; also on a cycle |
| DoublyLinked.DoubleLinkNode.GetLast | api.go:65-74 | the walk along `Next` ends at the chain's last node, whose `Next` is nil |
| DoublyLinked.DoubleLinkNode.GetPrevAt | api.go:76-85 | the receiver for `index <= 0`, the node `index` steps along `Prev`, nil once the walk passes a nil `Prev`; also on a cycle |
| DoublyLinked.CreateDoublyLinkedListFromSlice | api.go:99-116 | nil exactly for an empty slice; otherwise a list of fresh nodes whose values are the slice, the head's `Prev` nil (dummy detached), and `n.Next.Prev == n` for every node with a successor |
| DoublyLinked.NextChainDistinct | api.go:65-74 | no node occurs twice in a nil-terminated `Next` chain |
| DoublyLinked.NextChainUnique | api.go:65-74 | the `Next` chain from a node is determined by that node |
| DoublyLinked.ListFromNode | api.go:43-74 | from any node of a list, `Prev` walks back to the head over the earlier nodes in reverse order, and `Next` walks on to the last node |
| DoublyLinked.ListBackward | api.go:76-85 | from the last node of a list, the `Prev` chain is the list reversed and carries the values reversed |
| Impl.CommonNode.constructor | api.go:149 | the adapter wraps exactly the given pointer |
| Impl.CommonNode.HasNext | impl.go:8-10 | true exactly when the wrapped node's `Next` is non-nil, for either kind of node |
| Impl.CommonNode.Next | impl.go:12-15 | the adapter's pointer becomes the old node's `Next`, and the same adapter is returned |
| Impl.CommonNode.Val | impl.go:17-19 | the wrapped node's `Val`, for either kind of node; reading it changes nothing |
| Impl.AdapterAt | impl.go:8-19 | at position `i` of a chain, `hasNext` holds exactly before the last position, `val` is the value at `i`, and the node's successor is position `i + 1` |
| Impl.LinkChainStep | impl.go:26-33 | along a chain of wrapped pointers, the successor is non-nil exactly before the last position and is the next pointer there |
| Impl.SingleLinksChain | impl.go:22-37 | a singly linked chain, seen through `singleImpl`, is a chain of wrapped pointers with the same values |
| Impl.DoubleLinksChain | impl.go:3-19 | a doubly linked `Next` chain, seen through `doubleImpl`, is a chain of wrapped pointers with the same values |
| Format.NewFormatSymbols | format.go:36-51 | `Start == "["` and `End == "]"`; `Sep` is `" > "` for singly and `" <> "` for doubly linked lists |
| Format.FormatToString | format.go:53-70 | the text is `Start`, the converted values separated by `Sep`, then `End`, for the values along the chain; the adapter ends at the last node |
| Format.JoinClosedForm | format.go:60-66 | the join is the first part followed by `Sep + part` for each later part |
| Format.JoinAppend | format.go:62-66 | joining two non-empty runs puts exactly one separator between their joins |
| Format.JoinLength | format.go:62-66 | the join is as long as the parts plus `n - 1` separators |
| Format.JoinSeparatorCount | format.go:62-66 | a one-character separator that occurs in no part occurs `n - 1` times in the join |
| Format.FormattedOne | format.go:59-68 | a one-node list renders as `Start + conv(v) + End`, with no separator |
| Format.FormattedClosedForm | format.go:58-69 | the rendering is `Start + conv(v0)`, then `Sep + conv(vi)` for each later value, then `End` |
| Format.FormattedShape | format.go:58-69 | the rendering starts with `Start`, ends with `End`, and has the length of the values, `n - 1` separators and the two ends |
| Render.SingleFormat | api.go:146-151 | `FormatCustom` of a singly linked node renders the values from that node to the end |
| Render.SingleString | api.go:175-179 | `String` of a singly linked node uses `[`, ` > ` and `]` |
| Render.DoubleFormat | api.go:36-41 | `FormatCustom` of a doubly linked node renders the values from that node to the end |
| Render.DoubleString | api.go:87-91 | `String` of a doubly linked node uses `[`, ` <> ` and `]` |
| Examples.NextFromHead | api_test.go:166-170 | on a built list, `GetNextAt(i)` from the head holds `values[i]`; past the end it is nil |
| Examples.SelfLoopNextAt | api.go:164-173 | on a node whose `Next` is itself, `GetNextAt(3)` stops after three steps and returns that node |
| Examples.PrevFromLast | api_test.go:117-121 | on a built doubly linked list, `GetPrevAt(i)` from the last node holds `values[len - 1 - i]`; past the head it is nil |
| Examples.HeadFromLast | api_test.go:129-131 | `GetHead` of the last node is the head pointer the builder returned |
| Examples.EndsFromAnyNode | api.go:43-74 | from any node, `GetHead` and `GetLast` reach the two ends, and the last node of the head is the last node of the node, and vice versa |
| Examples.OneNode | api_test.go:147-159 | a one-value list renders as `[` + the value's text + `]` for both kinds, hence `[nil]` for a nil pointer value |
| Examples.SinglyRendered | api_test.go:178-193 | 1, 2, 4, 8, 16 renders as `[1 > 2 > 4 > 8 > 16]` and, with custom symbols, as `$$ 1 - 2 - 4 - 8 - 16 $$` |
| Examples.DoublyRendered | api.go:87-91 | 1, 2, 4, 8, 16 in a doubly linked list renders as `[1 <> 2 <> 4 <> 8 <> 16]` |
| Examples.PowersRendered | format.go:58-69 | the rendering of 1, 2, 4, 8, 16 in decimal, for any symbols |

## Left out

- The value-to-string library (`at.NewOptions`, `at.Options`): it is a foreign dependency. The caller supplies the conversion as a function `conv`. So `Format` and `FormatCustom` are one method per node type (`Render.SingleFormat`, `Render.DoubleFormat`).
- The float expectations of api_test.go (lines 123 and 133-144): they depend on that library's float formatting. The examples use integers in decimal instead.
- example/main.go: it is console output.
- `CreateSinglyLinkedList` and `CreateDoublyLinkedList` (api.go:95-97, api.go:183-185): they only forward their variadic arguments to the `FromSlice` builders, which are modelled.
- A nil receiver of `GetNextAt`/`GetPrevAt`: Go returns nil without entering the loop. Dafny instance methods have a non-null receiver.
- Cyclic chains: `GetLast`, `GetHead` and `formatToString` do not terminate on a cycle, so they require a nil-terminated chain as a ghost argument. `GetNextAt` and `GetPrevAt` stop after `index` steps, and they require only a ghost path that covers those steps, so they are modelled on cycles too.
- Hand-corrupted but acyclic chains, such as a wrong `Prev` link: every walk terminates on them. Each walk requires only the links it follows (`Next` or `Prev`), not their consistency.
- NewEmptySingleLinkNode, NewEmptyDoubleLinkNode: the node's value is the default value of `T`, which the model leaves unspecified. Go's zero value has no counterpart for a generic `T` here.
- The Go interface `commonNode` with its two structs: traits are not used. One adapter class `Impl.CommonNode` wraps a tagged pointer `Link`, and each operation's two cases are `doubleImpl` and `singleImpl`.
- Form of `hasNext` and `val`: they are modelled as the functions `Impl.CommonNode.HasNext` and `Impl.CommonNode.Val` rather than methods, because they only read.
- `String`'s value receiver (api.go:89, api.go:177): in Go it formats a copy of the node. The copy shares the node's `Next`, so the text is the same, and the model formats the node itself.
- `strings.Builder`: the builder's text is an ordinary string that grows by concatenation.
- Strings are sequences of characters. The lengths in `Format.JoinLength` and `Format.FormattedShape` count characters, whereas Go's `len` on the result counts UTF-8 bytes. There is no encoding, so these lengths equal Go's only for single-byte (ASCII) text.
- Render.SingleFormat, Render.DoubleFormat, Render.SingleString, Render.DoubleString: the result is stated in terms of the values at the time of the call (`old`). The methods change no existing node, so these are also the values afterwards.
