# Eternal, modelled and proved

Eternal is a Go library that keeps a sorted key-value map in an (a,b)-tree. Nodes live in a store and refer to each
other by id. One store is a map in memory; the other is a file of equal blocks, with its own encoding of Go values.
This project models the library in Dafny and proves what it promises:

* **The tree.** `Tree.dfy` holds Insert, Delete and Get as imperative methods, loop for loop, with the path stack. A ghost
  function (`Shapes.Unfold`) reads the linked nodes as an inductive tree. A zipper (`Frames.dfy`) says what lies around the
  one node that is too full or too thin while a loop runs. Insert is map update, Delete is map removal, both exactly when the
  code meets that, and every operation keeps the whole invariant: strict key order, a - 1 to b - 1 values per node, uniform
  leaf depth, every stored node in the tree once, no id lost and none handed out and left behind. The node-by-node check that
  the repository's tests make, with strict order inside a node, is proved equivalent to balance, bounds and order of the
  whole (`Checker.dfy`).
* **Both storages.** The tree runs over `Storages.dfy`, which keeps its nodes in memory (`InMemory.dfy`) or as encoded blocks
  in a file (`Persistent.dfy`). `Runs.dfy` compares whole runs in memory with a plain map; `FileRuns.dfy` does so from a
  new file to a lookup, with compactions between any operations. Such a run always completes, apart from the panic below,
  and the file never has more blocks than nodes at their emptiest take for all keys ever stored (`Occupancy.dfy`).
* **The file.** `Persistent.dfy` models the file as bytes: metadata, blocks, and the list of free blocks threaded through
  the blocks themselves. Each method states its effect on the bytes of every block and on the stored nodes.
  `Defragmentation.dfy` compacts the file in place. It is proved to reach its exit, to meet none of its error
  branches, and to leave the same tree under ids without gaps (`Renaming.dfy`).
* **The encoding.** `Blueprints.dfy` says what is written for a value and what is read back, `Codec.dfy` writes and reads
  byte arrays with the offsets of the code, `RoundTrip.dfy` connects the two. `Placements.dfy` pins the bytes themselves:
  where each part of a value stands, in which form, and which bytes are left alone; `Formats.dfy` does so for the blocks and
  the metadata of the file. `Descriptions.dfy` proves that descriptions form a prefix code, and gives their text letter by
  letter. `Introspection.dfy` is the walk from types to blueprints with its cache and its set of structs in progress;
  `Declarations.dfy` says, from the declarations alone, which types it accepts, with which error it refuses the others, and
  which values, lengths and zero value the blueprint of an accepted type has.

## Where the code does not do what it says

These are proved, each with the exact condition under which the code meets its promise.

* `Insert` panics when a node has to be split and b is even, although `NewTree` accepts such a b: the middle of a node with
  b values is looked up one place too far (tree_insert.go:102-106). `Trees.Tree.Insert` panics if and only if b is even and the
  leaf where the key goes is full. `Runs.Run` panics if and only if b is even and the plain map would at some point hold b
  entries; `Runs.EvenRunPanics` is such a run for every even b.
* `Delete` of a key in an inner node writes its predecessor into that node and does not persist it (tree_delete.go:35-36).
  In memory the write is seen, because node and stored node share the slice. Over a file the predecessor is lost and the key
  stays. `Trees.Tree.Delete` is map removal if and only if the storage shares slices, or the key is in a leaf, or the key is
  absent; otherwise it removes the predecessor instead. Over a file every tree of more than one level has such a key
  (`FileRuns.DeleteExactly`); in `FileRuns.LostPredecessor` it is the key 2, after inserting 1, 2 and 3 into a new file with
  a = 2 and b = 3. Whole runs lose one entry for each deletion at most, and invent none (`FileRuns.LossesAreBounded`).
* A string with a malformed byte is written longer than it was measured, possibly past its field, although the interface asks
  for no more than size bytes (encoding/schema.go:156-165, 328-329): the stray byte counts one and is written as the three
  bytes of the replacement character. `Strings.OverrunsExactly` says when: if and only if a malformed byte is read while
  fewer than three bytes of the field are left. `Strings.StrayByte` is such a string. What is written is a
  prefix of the string if and only if no malformed byte is read (`Strings.FaithfulIsPrefix`).
* `NewTree` computes 2a - 1 in 64 bits (tree.go:45). For a beyond 2^63 it wraps, and `Trees.Tree.NewTree` states exactly which
  pairs are accepted then although 2a - 1 exceeds b; `Runs.AcceptedByWrapping` is such a pair.
* The walk over types refuses structs that contain themselves, but keeps no other type in its set of types in progress
  (encoding/introspect.go:293). For `type P *P` it never returns. `NamedTypes.NeverBack`: it never comes back if and only if
  its nested calls lead from a type to itself through pointers and arrays alone; a slice without a length ends the walk.

## Modelling choices

* Keys are 64-bit integers and stand for any type with a total order. Sizes in memory are unbounded; the encoding has the
  widths of the code, on a 64-bit system, and file offsets are signed 64-bit numbers.
* file_format.md gives the depth bytes 0-3 and the free id bytes 4-7 of the metadata on a 64-bit system. The code writes eight
  bytes for each (persistent.go:163-182), and the model follows the code.
* Go's NodeStorage interface is one class with two cases (`Storages.Backing`). Each method does what the storage of its case
  does; the methods of the tree do not know which one they run over.
* Slices are values. Where two Go slices share their cells and the code depends on it, the sharing is explicit
  (`WriteValue`). The in-place loops of slices.go are also modelled on arrays (`Slices.dfy`), against the functions that the
  tree uses.
* Go's reflect.Value is the datatype `Blueprints.Value`, reflect.Type the datatype `Introspection.Type` with a table of
  struct declarations; the tag of a field is given parsed. Floats and complex numbers are bit patterns.
* Ghost parameters and ghost results (paths, trees, renumberings) carry what the proofs know; they have no counterpart in the
  code and none of its decisions depends on them.
* Long loop bodies of the code are methods of their own here: `FindPlace`, `SplitUpwards` with `SplitChild` and `SplitRoot`,
  `BalanceTreeAfterDelete` with `MendWithRight` and `MendWithLeft`, `Defragment` with `Compact`, `Reorder` and
  `ReorderChildren`.

## Model

| member | source | states |
|---|---|---|
| Stacks.Stack.Push | internal/stack/stack.go:20-22 | The value is on top, everything below it as before. |
| Stacks.Stack.Pop | internal/stack/stack.go:13-18 | Returns the last value pushed and leaves the ones before it. |
| Slices.Pop | slices.go:11-18 | The shifting loop returns the cell at the position, leaves the list without it, and does not touch the cells behind the list. |
| Slices.Swap | slices.go:20-24 | Returns the old value; exactly one cell changes. |
| Slices.Prepend | slices.go:26-35 | The list becomes the value followed by the old list; the cells behind it stay. |
| Slices.PrependBefore | slices.go:40-55 | Succeeds exactly when the target is in the list (where Go panics otherwise), and then puts the value left of the last target. |
| Slices.PlacedBeforeOnly | slices.go:37-55 | With no target to the right of a given one, the value ends up immediately left of that one. |
| Entries.Find | tree.go:103-115 | Binary search: found exactly when the key is there, everything before the position is smaller, everything after it greater. |
| Entries.Add | tree.go:117-122 | Appending and sorting a list with a new key gives the list with the entry in its place. |
| Entries.AppendAndSort | tree.go:117-122 | Whatever algorithm sorts: a sorted list is the new list if and only if it has the old entries and the new one. |
| Entries.PutSorted | tree_insert.go:19-27 | Putting an entry in its place keeps strict order and is map update on the content. |
| Entries.DropSorted | tree_delete.go:18-25 | Dropping a key keeps strict order and is map removal on the content. |
| InMemory.InMemoryStorage.constructor | in_memory.go:19-28 | Starts with an empty leaf as root, depth 1, and ids partitioned. |
| InMemory.InMemoryStorage.Get | in_memory.go:43-49 | Finds a node exactly when it is stored, and returns that node. |
| InMemory.InMemoryStorage.Persist | in_memory.go:51-54 | Exactly the entry of the node id changes, whatever the node; live, handed-out and unused ids stay a partition. |
| Storages.NodeStorage.PersistMultiple | tree_insert.go:89-96 | The store is the old one with the nodes written one after the other. |
| InMemory.InMemoryStorage.WriteValue | tree_delete.go:35-36 | The write into a node that Get returned reaches the stored node. |
| InMemory.InMemoryStorage.Remove | in_memory.go:56-70 | The node is gone (the root never): the highest id lowers the cap, any other becomes the last hole, and the partition holds. |
| InMemory.InMemoryStorage.NewId | in_memory.go:72-80 | The last hole, which is a hole no more, or without holes the cap, which grows by one; neither stored nor handed out nor the root's, and handed out from now on. |
| InMemory.CapIsPeak | in_memory.go:56-80 | Over any run of ids asked for, stored and removed, the cap never exceeds the greatest number of ids that were stored or handed out at one time. |
| InMemory.ShrinkCap | in_memory.go:63-65 | When the highest id leaves, no hole is as high: the ids below the lower cap are still partitioned. |
| InMemory.OpenHole | in_memory.go:66-68 | Pushing a removed id as a hole keeps the partition. |
| InMemory.FillHole | in_memory.go:79 | Taking the last hole keeps the partition; that id was not in use. |
| Shapes.UnfoldStored | tree.go:90-95 | A store that holds the nodes of a uniform tree spells out exactly that tree from its root id. |
| Shapes.WeaveSplit | tree_insert.go:102-118 | Cutting values and children at a middle value cuts the in-order entries at that value. |
| Frames.PlugInOrder | tree.go:66-83 | The entries of the whole tree are those left of the path, those below the gap, and those right of the path. |
| Frames.PlugBag | tree_insert.go:30-36 | The nodes of the whole tree are those of the path and those below the gap, each once. |
| Frames.DistinctIds | tree_insert.go:30 | The ids on a path through a stored tree are all different. |
| Search.AtChild | tree.go:68-82 | Going to the child between the neighbours of the key keeps the key between everything left and right of the path. |
| Search.AtNode | tree.go:76-78 | The node that the search has come to is stored, sorted, and a leaf or with one child more than values. |
| Checker.CheckedIsOrdered | tree_test.go:192-253 | The local check (bounds from the parent's values, counts, leaf depth) accepts exactly the trees that are balanced, within bounds and strictly ordered as a whole. |
| Checker.StoredTreePasses | tree_test.go:192-253 | Every tree that the operations leave passes that check. |
| Trees.Tree.NewTree | tree.go:44-54 | Refused exactly when a < 2 or 2a - 1, computed in 64 bits, exceeds b: for a up to 2^63 the bound that is meant, beyond that the wrapped one. |
| Trees.Tree.Get | tree.go:60-83 | Answers as the plain map does, after visiting at most depth nodes. |
| Trees.Tree.FindPlace | tree_insert.go:10-37 | The descent ends at the node that holds the key, or at the leaf where it goes, with the path to it on the stack. |
| Trees.Tree.Insert | tree_insert.go:10-87 | Panics if and only if b is even and the leaf is full; otherwise the content is the old map with the key set, the whole invariant holds again, the depth changes only by a split and by one, and a file has no more blocks than nodes of a - 1 values take for all entries. |
| Trees.Tree.SplitUpwards | tree_insert.go:39-86 | From a store with one pending node of at most b values to a whole tree with the entries announced, or a panic exactly when that node has b values and b is even; the file stays within the blocks that nodes of a - 1 values take for these entries. |
| Trees.Tree.SplitChild | tree_insert.go:67-83 | One turn of the loop: both halves are stored, the parent becomes the pending node, the entries in order stay. |
| Trees.Tree.SplitRoot | tree_insert.go:45-65 | The root keeps its id, the tree is one level deeper, the entries stay. |
| Trees.Tree.NewRootOver | tree_insert.go:56-60 | The new root has the middle value and the two halves, the new node left of the old one. |
| Trees.Tree.SplitFullNode | tree_insert.go:98-121 | In range exactly for odd b; then the node is cut into b/2 values, the middle one, and b/2 values, with the children that belong to them. |
| Trees.Tree.UpdateDepth | tree.go:85-88 | Depth of tree and storage agree. |
| Trees.Tree.Delete | tree_delete.go:8-53 | The content is the old map without the key if and only if the storage shares slices, or the key is in a leaf, or it is absent; otherwise it is the old map without the key's predecessor. In every case the whole invariant holds again. |
| Trees.Tree.DeleteInner | tree_delete.go:26-37 | The predecessor leaves its leaf and takes the place of the key, or is lost where slices are not shared; what remains is a tree with at most one thin leaf. |
| Trees.Tree.PopLargest | tree_delete.go:55-79 | Walks down the rightmost children to a leaf and takes its last value; the stack holds the path to it. |
| Trees.Tree.Merge | tree_delete.go:81-111 | The exact new store in both branches: parent written, or left under the root's id and depth one less. |
| Trees.Tree.BorrowFromRight | tree_delete.go:148-159 | The values of node, parent's place and sibling read the same from left to right, the children of both too; the node has one value more, the sibling one less. |
| Trees.Tree.BorrowFromLeft | tree_delete.go:176-186 | The values of sibling, parent's place and node read the same from left to right, the children of both too; the node has one value more, the sibling one less. |
| Trees.Tree.MendWithRight | tree_delete.go:139-168 | The thin first child is mended from its right sibling; the entries in order stay, and thinness moves to the parent or the tree is whole. |
| Trees.Tree.MendWithLeft | tree_delete.go:169-196 | The same from the left sibling. |
| Trees.Tree.BalanceTreeAfterDelete | tree_delete.go:117-204 | From a store with at most one thin node at the end of the path to a whole tree with the same entries; terminates on the length of the path. |
| Splits.SplitInOrder | tree_insert.go:98-121 | Both halves and the middle value are the entries of the full node, in order, with the same subtrees. |
| Splits.HalvesFit | tree_insert.go:98-121 | For odd b at least 2a - 1 both halves of a full node are within bounds. |
| Splits.SplitStep | tree_insert.go:67-83 | A split below the root hands the pending node to the parent without changing the announced entries, the new id left of the old one. |
| Splits.RaisedTree | tree_insert.go:45-65 | After the split of the root the stored nodes are a whole tree, one level deeper, with the announced entries. |
| Splits.Settled | tree_insert.go:40-43 | Persisting a pending node with fewer than b values completes the tree. |
| Splits.Replaced | tree_insert.go:19-24 | Overwriting the value of a found key completes the tree with that map update. |
| Splits.Missing | tree.go:72-75 | A search that ends in a leaf without the key shows that the key is nowhere in the tree. |
| Balances.BorrowRight | tree_delete.go:152-159 | Borrowing from the right conserves the in-order entries of both neighbours and the value between them. |
| Balances.BorrowLeft | tree_delete.go:178-186 | Borrowing from the left conserves them too. |
| Balances.MergeInOrder | tree_delete.go:88-89 | Merging conserves them too. |
| Balances.MergeFits | tree_delete.go:88-89 | A node with a - 2 values merged with one of a - 1 has 2a - 2, within b - 1. |
| Balances.BorrowStep | tree_delete.go:146-162 | A borrow keeps the loop's invariant with the parent as the node to check. |
| Balances.MergeStep | tree_delete.go:101-110 | A merge keeps the loop's invariant with the parent, one child shorter, as the only node that may be thin. |
| Balances.CollapseStep | tree_delete.go:90-100 | A merge under a root with one value leaves a whole tree, one level lower. |
| Deletes.DeletedIsRemoval | tree_delete.go:26-37 | What Delete makes of the entries is map removal if and only if the write was in place or the key is absent. |
| Deletes.DeletedInstead | tree_delete.go:31-36 | Where the write is lost, the entry before the key is gone instead of the key. |
| Deletes.PredecessorDropped | tree_delete.go:31-36 | What is lost then is the greatest key below the given one. |
| Deletes.InnerPreceded | tree_delete.go:27-31 | A key in an inner node has a predecessor. |
| Deletes.LeafPopped | tree_delete.go:20-25 | Popping a key from its leaf leaves a tree without that key and with at most one thin leaf. |
| Deletes.PredecessorTaken | tree_delete.go:31-35 | The last value of the rightmost leaf below a separator is the entry before it: with and without the write, the exact entries that remain. |
| Links.StoredIsReachable | tree_test.go:192-253 | The stored ids are exactly those reached from the root: nothing leaks. |
| Links.HoldsClosed | tree.go:76-78 | Every link leads to a stored node other than the root: nothing dangles. |
| Links.HoldsSingleParent | persistent_defragmentation.go:43-44 | No two links lead to the same node. |
| Heights.EntryCount | tree.go:60-83 | A tree of depth d > 1 holds at least 2a^(d-1) - 1 and at most b^d - 1 entries. |
| Runs.Run | tree.go:44-83 | A run of inserts and deletes from an empty tree in memory panics if and only if b is even and the plain map would at some point hold b entries; otherwise the content is what the same operations make of a plain map. |
| Runs.EvenRunPanics | tree_insert.go:102-106 | For every even b there is such a run: b insertions of different keys. |
| Runs.LeafPanics | tree_insert.go:102-106 | A tree of one leaf has to split exactly when the plain map would hold b entries. |
| Runs.Apply | tree_insert.go:10-87 | An operation does to the content what it does to a plain map if and only if it is an insertion, or the key is absent, or Delete writes in place; otherwise the entry before the key goes instead. |
| Runs.EmptyTree | in_memory.go:19-28 | A fresh in-memory storage holds the empty tree of depth 1. |
| Runs.RunThenGet | tree.go:60-83 | After any such run that does not panic Get answers as the plain map does. |
| Runs.AcceptedByWrapping | tree.go:44-53 | Bounds that NewTree accepts although 2a - 1 exceeds b: a = 2^63 + 1 and b = 1. |
| Runs.Accounted | tree_insert.go:45-81 | In every reachable tree the stored ids are the reachable ones, each but the root with one parent, and the depth is logarithmic in the number of entries. |
| Bytes.FromToBytes | encoding/schema_gen.go:9-53 | Big-endian integers of any width are read back as written. |
| Bytes.ToFromBytes | encoding/schema_gen.go:9-53 | And bytes are written back as read. |
| Bytes.FourBytes | encoding/schema_gen.go:27-32 | For four bytes this is the shifting that the code does. |
| Bytes.ByteAt | encoding/schema_gen.go:9-53 | For every width the k-th byte is the number shifted right by the bytes behind it: the most significant one comes first. |
| Utf8.ReadEncoded | encoding/schema.go:156-165 | A code point is read back from its encoding, with its width, whatever follows. |
| Utf8.WidthTells | encoding/schema.go:156-165 | A code point is well formed exactly when its encoding is as wide as what was read. |
| Utf8.EncodedBytes | encoding/schema.go:165 | One to four bytes, by the size of the code point, with the ranges and payload bits of section 3 of RFC 3629. |
| Utf8.ReadExactly | encoding/schema.go:156 | What is read is the one code point whose encoding starts there, and the replacement character of width one where none does. |
| Strings.FaithfulIsPrefix | encoding/schema.go:151-168 | What is written is a prefix of the string if and only if no malformed byte is read. |
| Strings.OverrunsExactly | encoding/schema.go:151-168 | What is written stays within the field if and only if no malformed byte is read while fewer than three bytes of it are left. |
| Strings.FaithfulFits | encoding/schema.go:151-168 | A string in which no malformed byte is read never overruns its field. |
| Strings.StrayByte | encoding/schema.go:156-165 | One stray byte overruns a field of length 1, and is written harmlessly into one of length 3. |
| Utf8.MalformedRead | encoding/schema.go:156-165 | A byte that starts no code point counts one when read and three when written. |
| Strings.LongestPrefix | encoding/schema.go:151-168 | Of a valid string exactly the longest prefix of whole code points that fits is written. |
| Strings.WriteAgain | encoding/schema.go:140-168 | Writing what was read back writes the same bytes. |
| Strings.WritesReads | encoding/schema.go:155-166 | Of any string, valid or not, the code points read are written up to the first whose width exceeds the room that is left. |
| RoundTrip.ToThenFrom | encoding/schema.go:220-298 | For every blueprint and typed value whose strings do not overrun, whatever the buffer held: what is read back is the value with slices cut to their lengths, strings as they were written, and ignored fields zeroed. |
| RoundTrip.CutIsIdentity | encoding/schema.go:105-129 | That is the value itself if and only if everything fits, no string has malformed bytes, and every ignored field is zero. |
| RoundTrip.SliceRoundTrip | encoding/schema.go:105-125 | The slice case: the first length elements come back. |
| RoundTrip.StringRoundTrip | encoding/schema.go:140-168 | The string case: the bytes that were written come back. |
| RoundTrip.FieldsRoundTrip | encoding/schema.go:220-234 | The struct case: listed fields come back cut, the others keep what the target held. |
| Codec.WriteTo | encoding/schema.go:321-335 | Changes the Size(bp) bytes at the offset to the encoding of the value, and no other byte of the buffer. |
| Codec.WriteAll | encoding/schema.go:47-53 | The offset loop over elements writes their encodings side by side. |
| Codec.WriteSlice | encoding/schema.go:117-125 | Elements first, then the length: together the slice's encoding; the room behind the last element, and all behind it, stays as it was. |
| Codec.WriteString | encoding/schema.go:151-168 | The reading loop writes exactly the encoding of any string that does not overrun the field, malformed bytes included, and stays in the field; all behind the text stays as it was. |
| Codec.WriteFields | encoding/schema.go:228-234 | The offset loop over fields writes their encodings side by side. |
| Codec.WritePointer | encoding/schema.go:273-280 | Nil changes one byte only. |
| Codec.WriteUint | encoding/schema_gen.go:9-48 | The bytes of the number, most significant first. |
| Codec.WriteTuple | encoding/schema.go:291-294 | The second part starts where the first one ends. |
| Codec.WriteScalar | encoding/schema.go:72-77 | Booleans and numbers of every width, negative ones in two's complement. |
| Codec.ReadFrom | encoding/schema.go:321-335 | The value depends on the Size(bp) bytes at the offset alone. |
| Codec.ReadSlice | encoding/schema.go:105-115 | Reads as many elements as the length says. |
| Codec.ReadString | encoding/schema.go:140-149 | Reads as many bytes as the length says. |
| Codec.ReadFields | encoding/schema.go:220-226 | Puts each listed field in its place and leaves the others zero. |
| Codec.ReadPointer | encoding/schema.go:264-271 | A zero byte reads as nil whatever follows it. |
| Codec.ReadTuple | encoding/schema.go:286-289 | The second part is read where the first one ends. |
| Codec.ReadScalar | encoding/schema_gen.go:78-80 | Booleans and numbers of every width, negative ones from two's complement. |
| Codec.ReadUint | encoding/schema_gen.go:34-37 | The number that the bytes stand for, most significant first. |
| Codec.ReadAll | encoding/schema.go:39-45 | The offset loop reads the elements side by side. |
| Serializers.Serialize | encoding/serializer.go:18-22 | The encoding of the value into zeros: every byte that is not written for the value is zero. |
| Placements.Sizes | encoding/schema.go:51-53 | Sizes as arithmetic: length times element, four bytes more for a slice or string, one more for a pointer, sums for tuples. |
| Placements.StructSize | encoding/introspect.go:306-330 | A struct takes the sum of its listed fields. |
| Placements.WrittenOrKept | encoding/schema.go:117-125 | For every kind of value, a byte that is written does not depend on what was there, and any other byte is what was there: behind the last element, behind the text, behind nil. |
| Placements.ScalarPlaced | encoding/schema.go:72-77 | A boolean is one byte, 1 or 0; numbers are big-endian, signed ones in two's complement, floats as their bits. |
| Placements.ComplexPlaced | encoding/schema_gen.go:240-294 | Real part, then imaginary part. |
| Placements.ArrayPlaced | encoding/schema.go:43-49 | The k-th element is encoded in the k-th window. |
| Placements.SlicePlaced | encoding/schema.go:117-125 | Four bytes count the elements that have room, and the k-th follows in the k-th window behind them. |
| Placements.StringPlaced | encoding/schema.go:151-168 | Four bytes give the length of the text, and the text follows. |
| Placements.StructPlaced | encoding/schema.go:220-226 | Each listed field is encoded behind the ones before it. |
| Placements.PointerPlaced | encoding/schema.go:263-270 | Nil is a zero byte and leaves the rest; else a byte 1 and the target. |
| Placements.TuplePlaced | encoding/schema.go:281-284 | The first part and then the second. |
| Placements.TwoOfFour | encoding/schema_test.go:179-205 | Two elements of a slice with room for four, byte for byte. |
| Placements.ScalarRead | encoding/schema.go:67-70 | Any byte but zero is true; numbers are big-endian, signed ones negative exactly when the first bit is set. |
| Placements.PointerRead | encoding/schema.go:254-261 | A zero byte is nil, anything else a target read from behind it. |
| Placements.ArrayRead | encoding/schema.go:35-41 | The k-th element is read from the k-th window. |
| Placements.SliceRead | encoding/schema.go:105-115 | As many elements as the first four bytes say, each from its window. |
| Placements.StringRead | encoding/schema.go:140-149 | As many bytes as the first four say. |
| Placements.StructRead | encoding/schema.go:212-218 | Each listed field is read from its place; every other field is zero. |
| Placements.TupleRead | encoding/schema.go:276-279 | The first part and then the second. |
| Serializers.Deserialize | encoding/serializer.go:24-28 | Depends on the first Size(bp) bytes alone. |
| Serializers.SerializeThenDeserialize | encoding/serializer.go:18-28 | The value comes back, cut to its layout, whatever bytes follow. |
| Blueprints.TimesIsProduct | encoding/schema.go:55-57 | The repeated addition of offsets is the product that size returns. |
| Descriptions.Builder.WriteDescription | encoding/schema.go:333-334 | The recursive writers append exactly the description. |
| Descriptions.ScalarTexts | encoding/schema.go:62-65 | The texts of booleans, numbers of every width and strings, letter by letter. |
| Descriptions.SequenceTexts | encoding/schema.go:19-33 | The texts of arrays and slices: tag, element, length. |
| Descriptions.StructText | encoding/schema.go:177-210 | The text of a struct: its name, and its fields between brackets, with commas between them. |
| Descriptions.PairTexts | encoding/schema.go:238-248 | The texts of pointers and tuples. |
| Descriptions.NumberTexts | encoding/schema_gen.go:70-73 | The twelve literal texts of the number types. |
| Descriptions.DecimalSpells | encoding/schema.go:28 | Lengths are written as decimals: digits whose value is the number, without leading zeros. |
| Descriptions.Builder.WriteFields | encoding/schema.go:204-216 | The field loop appends the descriptions separated by commas and the closing brackets. |
| Descriptions.PrefixCode | encoding/schema.go:185-218 | A text that starts with two descriptions starts with the same one: layouts and rests agree, nested lists and decimal lengths included. |
| Descriptions.DescribeIsUnique | encoding/schema.go:333-334 | Two blueprints have the same description if and only if they have the same layout. |
| Descriptions.DecimalPrefix | encoding/schema.go:97 | A decimal length ends where the bracket stands, and tells its number. |
| Descriptions.SameLayoutSize | encoding/schema.go:331-332 | The same description means the same size. |
| Introspection.Introspector.HandleType | encoding/introspect.go:193-335 | For every table of structs gives, error for error, what the walk without a cache gives (Declarations says what that is); earlier cache entries stay. |
| NamedTypes.NeverBack | encoding/introspect.go:193-293 | With named pointer, array and slice types, the walk down never comes back if and only if its nested calls lead from a type to itself through pointers and arrays alone. |
| NamedTypes.BackAsUnrolled | encoding/introspect.go:255-281 | Where it comes back, the answer is the one for the type with its names unrolled. |
| NamedTypes.PointerToItself | encoding/introspect.go:255-258 | A pointer type whose element is itself: the walk never comes back. |
| Introspection.Introspector.HandleStruct | encoding/introspect.go:292-331 | A cached struct is answered as a fresh walk would, and only fully walked structs are stored. |
| Introspection.Introspector.HandleFields | encoding/introspect.go:307-328 | The field loop gives the listed fields with their indices, or the first error. |
| Introspection.CacheStores | encoding/introspect.go:328-331 | A fully walked struct, whose fields need only cached structs, may be cached for every later walk. |
| Introspection.RecursionIsRefused | encoding/introspect.go:293-295 | A struct from which fields lead twice to the same struct is refused, and it is refused for recursion only then. |
| Introspection.RefusedExactly | encoding/introspect.go:292-331 | Where all lengths are set and all kinds supported, a struct is refused if and only if fields lead from it twice to the same struct. |
| Declarations.AcceptedExactly | encoding/introspect.go:193-335 | A type is accepted if and only if all lengths are set and all kinds supported, in it and in every struct that its fields lead to, and no such way comes to a struct twice. |
| Declarations.RefusedWith | encoding/introspect.go:255-334 | Which error: a missing length before the end of the way through pointers, arrays and slices; at its end an unsupported kind, a struct in progress, or the error of a struct's fields. |
| Declarations.FirstFailure | encoding/introspect.go:307-322 | The error of the fields is that of the first one that fails. |
| Declarations.AllPass | encoding/introspect.go:307-322 | Fields that all pass are accepted. |
| Declarations.TypedExactly | encoding/introspect.go:193-335 | A blueprint takes exactly the values of its Go type: signed or unsigned in the range of the width, as many elements as an array has, every field that is not ignored. |
| Declarations.WalkCarries | encoding/introspect.go:255-330 | Every kind of type has its kind of blueprint; arrays carry the length of the type, slices and strings that of the tag, elements the second one; all fields that are not ignored are listed in order. |
| Declarations.WalkZero | encoding/introspect.go:193-335 | The zero value that a blueprint fills in is the one of its Go type. |
| Introspection.OnlyRecursion | encoding/introspect.go:193-335 | Where all lengths are set and all kinds supported, recursion is the only reason to refuse a type. |
| Introspection.WalkIsSound | encoding/introspect.go:193-335 | Every blueprint from the walk has consistent sizes, ascending field indices and matching zero values. |
| Introspection.Create | encoding/introspect.go:88-97 | Whatever was walked before, a new blueprint is the one of a walk of its own, and sound. |
| Persistent.CalculatePaddedNodeSize | persistent.go:346-366 | At least the node; the least multiple of the block size that holds it, or the block size halved exactly, as often as node and parity allow. |
| Persistent.OnePadding | persistent.go:346-366 | One size only satisfies what is promised of the padded size. |
| Persistent.NodeSizeIs | persistent.go:168-169 | The size of a node as arithmetic: a flag, a length and b - 1 entries, a length and b ids. |
| Persistent.PersistentStorage.WriteBlock | persistent.go:266-274 | A write at an offset within a block changes that part of that block and nothing else in the file. |
| Persistent.PersistentStorage.IdToOffset | persistent.go:342-344 | The start of the block. |
| Persistent.PersistentStorage.EndId | persistent.go:303-307 | The length of the file tells the number of blocks. |
| Blocks.PatchBlock | persistent.go:342-344 | A write within one block leaves the metadata and all other blocks byte for byte. |
| Blocks.PatchMetadata | persistent.go:181-182 | A write within the metadata leaves all blocks. |
| Persistent.PersistentStorage.constructor | persistent.go:124-148 | A new file: the header, depth 1 and no free block in eight bytes each, and one block with an empty root; the first id is the root's. |
| Persistent.PersistentStorage.NewPersistentStorage | persistent.go:154-197 | Refused exactly when b < 2 or b is at least the greatest uint32; otherwise the file is valid and holds an empty root, in blocks padded as calculatePaddedNodeSize promises for a node of 1 + (4 + (b - 1) * entry) + (4 + 8 * b) bytes. |
| Persistent.PersistentStorage.SetDepth | persistent.go:223-227 | Only the depth in memory and in the file changes: the metadata end with depth and first free id, eight bytes each. |
| Persistent.PersistentStorage.UpdateFreeId | persistent.go:336-340 | Only the head of the free list in memory and in the file changes: the metadata end with depth and first free id, eight bytes each. |
| Formats.MetadataFormat | persistent.go:163-182 | The sixteen bytes of the metadata, digit by digit. |
| Persistent.PersistentStorage.LoadMetadata | persistent.go:80-93 | Reading the metadata brings back what was last set. |
| Persistent.PersistentStorage.Get | persistent.go:231-258 | Which of the three answers, exactly; and the stored node. |
| Persistent.PersistentStorage.Persist | persistent.go:260-276 | The stored nodes are the old ones with this one, cut to the room of a block; the block is exactly flag, entries, children and what was behind them; every other block and the metadata are unchanged byte for byte. |
| Formats.NodeFormat | persistent.go:260-276 | A used block digit by digit: one, the number of entries, the entries side by side, the number of children, their ids in eight bytes each. |
| Persistent.PersistentStorage.Remove | persistent.go:278-298 | Refuses the root; otherwise the block is the first of the free list, with a zero flag, the id of the next free block and what was behind them; every other block is unchanged byte for byte. |
| Formats.FreeFormat | persistent.go:278-298 | A free block digit by digit: zero, and the next free id. |
| Persistent.PersistentStorage.NewId | persistent.go:300-334 | The id is neither stored nor handed out: the first of the free list, or a new block of zeros at the end; the error branch is not reached; stored nodes and old blocks are unchanged. |
| FreeChains.FollowedIsChain | persistent.go:318-333 | Following the free blocks from the head meets exactly the chain of the invariant, and ends. |
| StorageRuns.FreeListIsExact | persistent.go:278-340 | Following the free list meets each block that is neither in use nor handed out, once, never the root's, and ends. |
| StorageRuns.RemoveThenNewId | persistent.go:278-334 | A removed id is the next one handed out, and the free list is as before. |
| StorageRuns.PersistThenGet | persistent.go:231-276 | A node is read back as it was persisted if and only if it fits. |
| StorageRuns.TreeNodesAreStoredUnchanged | encoding/schema.go:117-118 | The nodes that the tree persists are never cut. |
| Storages.NodeStorage.InMemory | in_memory.go:19-28 | An empty root, kept in memory. |
| Storages.NodeStorage.OnFile | persistent.go:184-196 | An empty root, kept in a file; entries are encoded. |
| Storages.NodeStorage.Get | tree.go:23-25 | Found exactly when stored, and the stored node: from a file decoded anew. |
| Storages.NodeStorage.Persist | tree.go:26-28 | Exactly one node changes, in memory or in the encoded blocks of the file. |
| Storages.NodeStorage.Remove | tree.go:29-31 | Exactly one node goes, in memory or in the file; the root stays, and only the file refuses to remove it. |
| Storages.NodeStorage.NewId | tree.go:32-35 | An id that is neither stored nor handed out, from either storage; a file grows only where every block is stored or handed out. |
| Storages.NodeStorage.WriteValue | tree_delete.go:35-36 | A write into a node that Get returned reaches the store in memory, and is lost over a file. |
| Storages.NodeStorage.Defragment | persistent_defragmentation.go:13-94 | The nodes as the tree sees them after compaction: renamed injectively, the root kept, ids without gaps; the file is not longer than before. |
| Storages.EncodedFits | encoding/schema.go:117-118 | A node within the bounds of the tree is written to its block uncut. |
| Encodings.HoldsEncoded | persistent.go:260-276 | A file of the encoded nodes of a tree holds exactly the encoded tree. |
| Encodings.RenamedImages | persistent_defragmentation.go:96-113 | Renaming the blocks of a file is renaming the nodes that they stand for. |
| FileRuns.EntryCoding | persistent.go:164-165 | Entries with 64-bit keys come back from the file whenever their values do. |
| FileRuns.EntryFormat | persistent.go:164-165 | An entry in the file: the key in eight bytes, big-endian and in two's complement, then the value. |
| FileRuns.BoolsComeBack | encoding/schema.go:67-78 | Values that come back from their encoding exist: for one, the booleans. |
| FileRuns.StartOnFile | persistent.go:154-197 | A new file holds the empty tree in one block, whatever type of value comes back from its encoding. |
| FileRuns.ApplyOnFile | tree_insert.go:10-87 | One operation over a file, with or without a compaction before it: it panics if and only if b is even and the plain map would hold b entries; otherwise the file stays within the blocks that its entries need. |
| FileRuns.RunOnFile | tree_insert.go:10-87 | A run of inserts, deletes and compactions over a file completes, unless b is even and the plain map would at some point hold b entries; without deletions, or with even b, it ends with the plain map, otherwise with a content in which each deletion took its key or the one before. The file never has more blocks than nodes of a - 1 values take for all keys ever stored. |
| FileRuns.LossesAreBounded | tree_delete.go:26-37 | Nothing is invented and no old value comes back: what is left is part of what the insertions alone would leave, short of one entry for each deletion at most. |
| FileRuns.InsertsAreExact | tree_insert.go:10-87 | Without deletions only the content of the plain map can be left. |
| FileRuns.Compact | persistent_defragmentation.go:10-12 | Between any two operations over a file: no error, no gap left, the same entries in the same order, and as many blocks as there are nodes, each but one with a - 1 to b - 1 entries. |
| FileRuns.RunThenGetOnFile | tree.go:60-83 | A new file, a run with compactions, a lookup: the answer is that of a content that the run may leave, and of the plain map if nothing was deleted or b is even. |
| FileRuns.DeleteExactly | tree_delete.go:26-37 | Over a file Delete removes whatever key it is given if and only if the tree is a single leaf. |
| FileRuns.MiddleInRoot | tree_insert.go:45-65 | Three entries with a = 2 and b = 3 take two levels, the middle one alone in the root. |
| FileRuns.LostPredecessor | tree_delete.go:35-36 | Insert 1, 2 and 3 into a new file and delete 2: then 1 is not found, and 2 is. |
| FileRuns.LostBool | tree_delete.go:35-36 | The same for a file of booleans, without any condition left. |
| Occupancy.NodesFit | tree_insert.go:45-83 | Before a split there are fewer nodes than nodes of a - 1 values would be for the entries, and fewer by two before the root is split: the new ids never exceed them. |
| Occupancy.NodeCount | tree_insert.go:39-86 | Every whole tree has at most b - 1 entries in each node, and more than a - 1 for each node but one. |
| Storages.NextFits | persistent.go:300-318 | A new id lengthens the file only where all blocks are in use, and then by the one block. |
| NodeBlocks.StoredUnchanged | persistent.go:266-275 | Nothing is cut if and only if the node has fewer than b values, at most b children, fitting entries, and is a leaf exactly when childless. |
| NodeBlocks.PersistedDecodes | persistent.go:231-276 | A block after Persist decodes to the node that was persisted, cut to the room of a block. |
| NodeBlocks.ChildrenRewritten | persistent_defragmentation.go:115-133 | Rewriting the children leaves the value bytes and decodes to the node with the new children. |
| NodeBlocks.CopiedBlock | persistent_defragmentation.go:96-105 | Copying the node's bytes copies the node. |
| Defragmentation.Defragment | persistent_defragmentation.go:13-94 | For every valid file without handed-out ids that holds one tree: no error, blocks 0 to n - 1 all in use for a tree of n nodes, file length base + n * paddedNodeSize, free list empty, and the stored nodes are the old ones under an injective renumbering that fixes the root. |
| Defragmentation.Compact | persistent_defragmentation.go:31-87 | The outer loop always leaves at the first id that is not in use, and everything from there on is free. |
| Defragmentation.Reorder | persistent_defragmentation.go:39-87 | One turn of the outer loop: the children of the processed node and of all before it lie below the hole. |
| Defragmentation.ReorderChildren | persistent_defragmentation.go:50-81 | While the child list in the file is stale, the nodes in the file together with the list in memory are the renamed tree; the hole only moves up. |
| Defragmentation.NextFreeBlock | persistent_defragmentation.go:65-79 | After a move there is always a next hole, with everything below it in use. |
| Defragmentation.TruncateTo | persistent_defragmentation.go:93 | Cutting off blocks that are not in use loses no stored node. |
| Defragmentation.MoveNode | persistent_defragmentation.go:96-113 | The node is stored under the new id and no longer under the old one; all other blocks are unchanged. |
| Defragmentation.PersistWithoutValues | persistent_defragmentation.go:115-133 | Only the children of that node change; the bytes of its values stay. |
| Defragmentation.LoadWithoutValues | persistent_defragmentation.go:135-167 | Missing exactly when not stored; otherwise the node's children. |
| Defragmentation.FindEmptyBlock | persistent_defragmentation.go:169-203 | The first run of free blocks from the start on, to its end, or nothing exactly when all of them are in use. |
| Defragmentation.CheckIfInUse | persistent_defragmentation.go:205-213 | The flag of the block, or the end of the file. |
| Defragmentation.NothingBeyond | persistent_defragmentation.go:43-44 | When no node below the hole links past it, no stored node lies past it. |
| Renaming.MoveRenames | persistent_defragmentation.go:56-64 | Moving a node and telling its parent keeps the store a renaming of the original one, because it has a single parent. |
| Renaming.HoldsRenamed | persistent_defragmentation.go:10-12 | A renamed store holds exactly the renamed tree, each node once. |
| Renaming.SameTree | persistent_defragmentation.go:10-12 | The renamed store spells out the same tree from its root: same depth, same entries in the same order, same counts. |

## Left out

- I/O errors, short reads, partial failures and recovery from them: reads and writes of the file are total.
- Opening an existing file: the identifier test is inverted as written (persistent.go:56), so nothing is claimed about
  reopening; header fields are a byte string of any length, and SHA-512 signatures are not computed.
- Parsing of field tags (parseConfig), the thin variants of Create and the generator of schema_gen.go: string plumbing.
- Go reflection and its panics, and the concurrency of the cache (sync.Map).
- The arithmetic of floats: only their bit patterns are encoded.
- Capacity of slices, and sharing of cells beyond the one write that the code depends on.
- InMemory.InMemoryStorage.WriteValue: states that the stored node has the slice that Get returned; slices are values here,
  and this is not derived from shared cells.
- Wrap-around of depths and sizes beyond 64 bits, and of ids in memory.
- Persistent.PersistentStorage.NewId: asks that the longer file still has a 64-bit offset, which the code leaves to the system.
- Trees.Tree.Insert: over a file asks that offsets reach as many blocks as nodes of a - 1 values take for all entries, and
  does not say what is stored after a panic.
- Runs.Apply: for a file does not fix which of two entries a deletion takes; that depends on where the key is, and
  Trees.Tree.Delete says it.
- Storages.NodeStorage.NewId: over a file asks for an offset that reaches the new block.
- Storages.NodeStorage.Persist: over a file takes no node with more than b - 1 values or b children, which the tree never has.
- Storages.NodeStorage.WriteValue: for memory states that stored node and returned node share the slice.
- Storages.NodeStorage.Defragment: asks that no id is handed out and not yet persisted, as between two operations of the tree.
- Introspection.Introspector.HandleType: has no named pointer, array or slice types; where they make the code run forever is
  stated by NamedTypes.NeverBack, for what lies between two structs.
- Codec.WriteTo: does not write strings that overrun their field, where the code writes past it or panics.
- Codec.WriteString: does not write strings that overrun their field.
- Codec.ReadFrom: does not read lengths that exceed the declared ones; nothing that was written has them.
- Codec.ReadSlice: does not read a length above the declared one.
- Codec.ReadString: does not read a length above the declared one.
- Serializers.Deserialize: does not read lengths above the declared ones.
- Serializers.Serialize: does not serialize values with a string that overruns its field.
- Defragmentation.Defragment: asks that no id is handed out and not yet persisted, as between two operations of the tree.
- A struct name that the table of types does not declare is refused as unsupported; Go has no such types.
