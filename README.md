# merklebplus in Dafny

This project models the core of merklebplus, a B+ tree whose nodes are written to a key/value store under the SHA-256 digest of their bytes. It covers two parts:

- `Node` (lib/node.js) — a node with its keys, values and child pointers. Its operations are search, branch selection, in-place insertion, pointer unlink/relink, key promotion, splitting at `floor(B/2)`, and the binary encoding (a one-byte type tag followed by fixed-size records) with its hash.
- `Tree` (lib/tree.js) — the insert engine. It descends from the root to a leaf, inserts in place when the leaf has room, and otherwise splits and propagates the split to the parent or to a fresh root. After an insert it stores every edited node and relinks the parent to the new digest, up to the root.

Files:

| file | module | models |
|---|---|---|
| bytes.dfy | `Bytes` | `Buffer` as a sequence of bytes; `Buffer.compare` as `Compare` (byte-wise, with a proper prefix sorting first), and the order it induces |
| results.dfy | `Results`, `Arrays` | `undefined` as `None`; thrown errors and callback errors as `Err`; JavaScript `slice`, `splice` and out-of-range reads |
| node_spec.dfy | `NodeSpec` | every `Node` operation as a function on the node's serialised properties, with the properties of search, insertion, promotion and splitting |
| node_codec.dfy | `NodeCodec` | `toBuffer`, `fromBuffer` and `_sliceBuffer` as functions; the leaf round trip and what the format does not check |
| node.dfy | `Nodes` | `class Node`. Its methods update `keys`, `values` and `pointers` in place, and each is proved equal to the `NodeSpec`/`NodeCodec` function for it |
| tree.dfy | `Trees` | `class Tree`. The store is a `map` field, `db.get`/`db.put` may fail, and the digest function is a parameter. `StorePut` writes any one record. Every other method states its answer and that the store only gains content-addressed records. The store and root operations and the parentless split also state the whole new store and root. An insert into a leaf with room states three things: the leaf's new contents, the records written (the leaf's, then the relinked root's when the leaf sits below an internal root), and the new root. A split below a parent states the parent's new contents |

The model follows the code as written. Where the code departs from what a B+ tree is meant to do, a lemma states the departure:

- `search` answers "not found, index len-1" for a key above the last key. So an insert above the last key goes in before it and breaks the order (`InsertAboveLastKey`).
- `promoteKey` calls `slice` instead of `splice` on `pointers`, so neither new pointer is ever linked. The parent keeps one pointer fewer and a key out of order (`PromoteBreaksOrder`, `PropagatedShape`).
- `unlinkPointer` looks up the split child's first key in the parent. A child whose first key is not one of the parent's keys makes the propagation fail with 'Key not found', whatever the order of the parent's keys (`PropagateNeedsChildKey`).
- A propagation into a parent with one pointer more than keys leaves it with one key more than pointers. If the parent is then not split, its `toBuffer`, and so `_putNode(parent)`, always throws (`PropagatedUnencodable`). If it is split instead, with B at least 3, the right half has more keys than pointers and its `toBuffer` throws (`PropagatedSplitUnencodable`). So, with B at least 3, once the root has been split, no insert that splits a child leaf succeeds.
- An internal node is encoded with its last pointer dropped (`EncodeDropsLastPointer`). It cannot be decoded at all: `Node._sliceNodeBuffer` does not exist, which gives a `TypeError`. Every node reached through a pointer is therefore a leaf, and every parent is the root.
- `_sliceBuffer` does not check that the payload is a whole number of records (`DecodeShortRecord`). With `keySize + dataSize` equal to 0 its loop never ends, because `pos` never grows. The tree never passes a zero stride, since sizes given as 0 take their defaults.

The code also disagrees with the tree's documented design, and the model follows the code:

- A duplicate key is not reported. `Node.insert` answers `false`, and the tree stores the unchanged leaf again and succeeds.
- The root node is edited in place before its store write succeeds. A failed insert can leave the in-memory root changed.
- A full leaf is split first, and the insert is then retried from the node `_splitNode` answers with.
- `Tree` has no `get`.

## Model

| member | source | states |
|---|---|---|
| Bytes.Compare | lib/node.js:79 | `Buffer.compare` answers -1, 0 or 1, and 0 only for buffers of equal length |
| Bytes.CompareZeroIffEqual | lib/node.js:79-89 | `compare` answers 0 exactly when the buffers are equal, so the `else` branch of the search means "this is the key" |
| Bytes.CompareFlip | lib/node.js:177-180 | swapping the operands of `compare` negates the answer |
| Bytes.LessTransitive | lib/node.js:72-120 | the byte order that search relies on is transitive |
| Bytes.Trichotomy | lib/node.js:99-112 | exactly one of less, equal or greater holds for two buffers |
| Arrays.Slice | lib/node.js:45-62 | `slice(begin, end)` is the sub-array between the bounds clamped to the length: empty when `end <= begin` or when `begin` is at or past the end |
| Arrays.InsertAt | lib/node.js:203-204 | `splice(pos, 0, x)` adds one element: `x` at `pos`, or at the end when `pos` is past it |
| Arrays.RemoveAt | lib/node.js:153-155 | `splice(pos, 1)` removes exactly the element at `pos`: one fewer element, the elements before `pos` in place, those after it shifted down by one, and the multiset loses one copy of `s[pos]` |
| NodeSpec.Contents.Size | lib/node.js:31-33 | `size` is the number of keys |
| NodeSpec.Contents.IsLeaf | lib/node.js:35-37 | a node is a leaf exactly when it has no child pointers |
| NodeSpec.BinarySearch | lib/node.js:74-95 | the inner binary search answers an index within `[min, max+1]`; a found index holds the key |
| NodeSpec.BinarySearchSorted | lib/node.js:74-95 | on increasing keys the inner search finds the key exactly when it is present, and otherwise answers the insertion point |
| NodeSpec.Search | lib/node.js:72-120 | an empty node answers (false, 0); a key equal to the last key is found at len-1; a key above the last key answers (false, len-1); a found index holds the key |
| NodeSpec.SearchSorted | lib/node.js:72-120 | on increasing keys `search` finds exactly the keys present; an absent key below the last key gets its insertion point; one above gets len-1 |
| NodeSpec.SearchMatch | lib/node.js:122-129 | `searchMatch` answers an index holding the key exactly when `search` finds it, and fails with 'Key not found' otherwise |
| NodeSpec.SearchLowerBound | lib/node.js:131-138 | `searchLowerBound` fails with 'Duplicate key exists' exactly when `search` finds the key, and otherwise answers an index within the keys |
| NodeSpec.LocatePointer | lib/node.js:140-147 | `locatePointer` fails (`undefined.compare`) exactly on a node without keys, and answers a defined pointer when there are more pointers than keys |
| NodeSpec.LocatePointerSorted | lib/node.js:140-147 | on increasing keys with one more pointer than keys, the chosen pointer is the one after the number of keys that are at most the search key |
| NodeSpec.Unlink | lib/node.js:149-159 | `unlinkPointer` fails with 'Key not found' exactly when `search` misses the key. It succeeds exactly when the key is found and the left slot, or else the right slot, holds the pointer; other failures are 'Pointer not connected' or `TypeError`. On success exactly one occurrence of the pointer is removed, from the left slot or else the right slot, and keys and values are untouched. 'Pointer not connected' comes exactly when both slots exist and neither holds the pointer |
| NodeSpec.Relink | lib/node.js:161-172 | `relinkPointer` succeeds exactly when the left slot of the search index, or else the right slot, holds the old pointer. It replaces the old pointer in the left slot, or else the right slot, and nothing else. 'Pointer not connected' comes exactly when both slots exist and neither holds it |
| NodeSpec.Promote | lib/node.js:174-188 | `promoteKey` fails on a node without keys, and with 'Key already exists' exactly when the key at the search index equals the key. Otherwise it succeeds: the key is spliced in one past that index when the key there is greater, and at the index otherwise. Values and pointers are unchanged |
| NodeSpec.PromoteBreaksOrder | lib/node.js:174-188 | a successful `promoteKey` always leaves the keys out of order |
| NodeSpec.Get | lib/node.js:190-193 | `get` succeeds exactly when `search` finds the key, answers the value beside it, and fails with 'Key not found' otherwise |
| NodeSpec.GetSorted | lib/node.js:190-193 | on a leaf with increasing keys `get` succeeds exactly for the keys present, with the value at the key's index |
| NodeSpec.Insert | lib/node.js:195-206 | `insert` answers `false` and changes nothing exactly when `search` finds the key. Otherwise it splices the key and value in at the same position and leaves pointers unchanged |
| NodeSpec.InsertSorted | lib/node.js:195-206 | on increasing keys `insert` refuses exactly the keys present, and keeps the order for a new key below the last key or into an empty node |
| NodeSpec.InsertAboveLastKey | lib/node.js:98-104 | a key above the last key is inserted at len-1, just before the old last key, and the keys are no longer increasing |
| NodeSpec.Split | lib/node.js:39-67 | `split` fails its assertion exactly when the branching factor is 0, and its middle key is the key at `floor(B/2)` (`undefined` past the end) |
| NodeSpec.SplitLeaf | lib/node.js:42-53 | a leaf splits into two leaves whose keys and values concatenate to the original; both arrays are cut at the same place: the left half holds `floor(B/2)` keys and `floor(B/2)` values, and the right half starts with the middle key |
| NodeSpec.SplitInternal | lib/node.js:54-66 | an internal node's halves hold no values and their pointers concatenate to the original. Left keys, middle key and right keys rebuild the keys, and the left half holds `floor(B/2)+1` pointers |
| NodeSpec.SplitSeparates | lib/node.js:39-67 | halves of a node with increasing keys are increasing, left keys are below the middle key, and right keys are above it (a leaf's right half starts with it) |
| NodeCodec.Encode | lib/node.js:245-259 | `toBuffer` starts with the leaf tag 01 or the internal tag 00; it throws exactly when a key has no value (leaf) or no pointer (internal) beside it |
| NodeCodec.Hash | lib/node.js:27-29 | `hash` is the digest of `toBuffer`, and fails exactly when `toBuffer` throws |
| NodeCodec.SliceRecords | lib/node.js:229-243 | `_sliceBuffer` reads as many keys as values |
| NodeCodec.Decode | lib/node.js:208-227 | `fromBuffer` gives a leaf exactly for a buffer starting with 01, with as many keys as values. It fails with 'Unknown node type' exactly for an empty buffer or a tag above 01, and internal nodes fail |
| NodeCodec.RecordsLength | lib/node.js:249-251 | leaf records take `keySize + valueSize` bytes each |
| NodeCodec.EncodedLeafLength | lib/node.js:245-259 | a leaf with fixed-size keys and values encodes to 1 + n·(keySize + valueSize) bytes |
| NodeCodec.SliceRecordsAfter | lib/node.js:229-243 | `_sliceBuffer` reads back exactly the records written after any prefix |
| NodeCodec.LeafRoundTrip | lib/node.js:208-259 | decoding the encoding of a leaf with fixed-size keys and values gives the leaf back |
| NodeCodec.EncodeDropsLastPointer | lib/node.js:252-256 | two internal nodes that differ only in their last pointer have the same bytes and the same hash |
| NodeCodec.DecodeShortRecord | lib/node.js:229-243 | a leaf buffer shorter than one key decodes, without error, to one short key with an empty value |
| Nodes.Node.constructor | lib/node.js:7-20 | a node holds the keys, values, pointers, parent and pointer it is built with |
| Nodes.Node.Size | lib/node.js:31-33 | the size of the node's contents |
| Nodes.Node.IsLeaf | lib/node.js:35-37 | whether the node's contents are a leaf |
| Nodes.Node.Search | lib/node.js:72-120 | the method answers what `NodeSpec.Search` does on the node's keys |
| Nodes.Node.BinarySearch | lib/node.js:74-95 | the loop over `keys[0..len-2]` answers what `NodeSpec.BinarySearch` does over that range |
| Nodes.Node.SearchMatch | lib/node.js:122-129 | answers `NodeSpec.SearchMatch` on the node's keys |
| Nodes.Node.SearchLowerBound | lib/node.js:131-138 | answers `NodeSpec.SearchLowerBound` on the node's keys |
| Nodes.Node.LocatePointer | lib/node.js:140-147 | answers `NodeSpec.LocatePointer` on the node's contents |
| Nodes.Node.UnlinkPointer | lib/node.js:149-159 | on success the node's contents become `NodeSpec.Unlink` of the old contents; on failure the same error and untouched pointers; only `pointers` may change |
| Nodes.Node.RelinkPointer | lib/node.js:161-172 | on success the contents become `NodeSpec.Relink` of the old ones; on failure the same error and untouched pointers; only `pointers` may change |
| Nodes.Node.PromoteKey | lib/node.js:174-188 | on success the contents become `NodeSpec.Promote` of the old ones, with its position; on failure the keys are untouched; only `keys` may change |
| Nodes.Node.Get | lib/node.js:190-193 | answers `NodeSpec.Get` on the node's contents |
| Nodes.Node.Insert | lib/node.js:195-206 | the contents become `NodeSpec.Insert` of the old ones and the answer is its position; only `keys` and `values` may change |
| Nodes.Node.Split | lib/node.js:39-67 | two fresh, distinct, parentless nodes holding `NodeSpec.Split`'s halves, with its middle key; the assertion error when B is 0 |
| Nodes.Node.ToBuffer | lib/node.js:245-259 | the loop's output is `NodeCodec.Encode` of the node's contents |
| Nodes.Node.Hash | lib/node.js:27-29 | answers `NodeCodec.Hash` of the node's contents |
| Nodes.Node.FromBuffer | lib/node.js:208-217 | a fresh node holding `NodeCodec.Decode`'s leaf, with the given parent and pointer, or `Decode`'s error |
| Nodes.Node.FromBufferLeaf | lib/node.js:219-222 | a fresh leaf holding the records `_sliceBuffer` reads from offset 1 |
| Nodes.Node.SliceBuffer | lib/node.js:229-243 | the loop's keys and values are `NodeCodec.SliceRecords` from offset 1 |
| Trees.Propagated | lib/tree.js:75-81 | the parent after `_propagateSplitToParent` edits it. An unlink error is passed on, and an undefined middle key is a `TypeError`. On success the values are kept, the pointers are those after the unlink, and the keys are the old keys plus the middle key, as multisets |
| Trees.PropagatedShape | lib/tree.js:72-90 | a successful unlink-and-promote gives the parent the middle key and one key more, and one pointer fewer: exactly the unlinked one |
| Trees.PropagateNeedsChildKey | lib/tree.js:77-78 | a split child whose first key is not among the parent's keys makes the propagation fail with 'Key not found' |
| Trees.PropagatedUnencodable | lib/tree.js:77-87 | a parent with one pointer more than keys ends up internal with one key more than pointers, so its encoding throws a `TypeError` |
| Trees.PropagatedSplitUnencodable | lib/tree.js:77-85 | with B at least 3, such a parent split for holding over B-1 keys has a right half whose encoding throws a `TypeError` |
| Trees.Tree.constructor | lib/tree.js:17-24 | each option given as 0 takes its default (1000, 8, 32); a missing root is a fresh empty parentless node; the tree is valid when the given root has no parent |
| Trees.Tree.MaxLeafSize | lib/tree.js:31-33 | a node may hold B-1 keys, fewer than the branching factor, before it is split |
| Trees.Tree.Put | lib/tree.js:50-63 | a `_putNode` write adds exactly the record under the bytes' digest, keeps every other record, and extends the store |
| Trees.Tree.ExtendsKeepsAddressed | lib/tree.js:50-63 | a store whose records all sit under their digests stays so after any sequence of `_putNode` writes |
| Trees.Tree.ExtendsTransitive | lib/tree.js:65-70 | two successive store extensions are one |
| Trees.Tree.StoreGet | lib/tree.js:41-44 | `db.get` answers the stored record; a missing record, an undefined pointer or an I/O error is an error |
| Trees.Tree.StorePut | lib/tree.js:53-56 | `db.put` writes exactly the one record, or fails and changes nothing |
| Trees.Tree.SearchLeaf | lib/tree.js:35-48 | a leaf is answered as it is. Otherwise the answer is a fresh leaf decoded from the record under the located pointer, with the node as its parent and that pointer; a locate, store or decode error is passed on |
| Trees.Tree.PutNode | lib/tree.js:50-63 | the node's encoding is stored under its digest and answered with it; an encoding or store error changes nothing |
| Trees.Tree.PutNodes | lib/tree.js:65-70 | both halves are stored, left then right, and the store extends. Either error is reported, and a `toBuffer` error on the left stops before the right. On failure every record written holds one of the halves' encodings |
| Trees.Tree.PropagateSplitToParent | lib/tree.js:72-90 | the parent's contents become `Propagated`. If the parent then holds more than B-1 keys it is split as the root; otherwise it is stored. An unlink or promote error gives that error with the store and root unchanged |
| Trees.Tree.SplitNode | lib/tree.js:92-122 | a parentless node's halves and a fresh root over them are stored, and that root becomes the tree's root. On failure the root is unchanged, for a parentless node and a child alike, and a parentless node's failure wrote only the halves' encodings. A child's split is propagated into its parent with the halves' digests. The store only grows by content-addressed records |
| Trees.Tree.RaiseRoot | lib/tree.js:110-120 | a fresh parentless root with the middle key and the halves' two digests is stored and becomes the tree's root. An undefined middle key is a `TypeError`, and a failure changes neither store nor root |
| Trees.Tree.RelinkNodeParentPointer | lib/tree.js:124-138 | a parentless node becomes the root and the pointer is the answer. Otherwise the parent is relinked (`NodeSpec.Relink`) and stored, and its digest is answered as the stored root. On success the store gains exactly the parent's record; on failure neither store nor root changes |
| Trees.Tree.InsertIntoLeaf | lib/tree.js:148-156 | the leaf takes the record (`NodeSpec.Insert`) and is stored. A parentless leaf becomes the root, with its digest answered, and the store gains exactly its record. A leaf below the root has its slot in the root relinked (`NodeSpec.Relink`) to the leaf's new digest, and that root is the answer. The store gains the leaf's record, then the root's. On success the answer is the digest the root's bytes are stored under. On failure the root is unchanged; a parentless leaf's failure leaves the store unchanged, and a failure below the root leaves it unchanged or holding only the leaf's new record |
| Trees.Tree.NodeInsert | lib/tree.js:140-167 | on success the answer is the stored root's digest. A root leaf with room takes the record in place and becomes the root, with its own digest answered, and the store gains its record; its failure leaves root and store unchanged. Below an internal root, success means the located pointer's record decoded to a leaf. If that leaf had room, it took the record and the root's slot was relinked to its new digest. The store then gains the leaf's record and the root's. The retry bound gives its error |
| Trees.Tree.Insert | lib/tree.js:169-173 | a key or value of the wrong size fails its assertion with nothing changed; on success the answer is the digest the new root is stored under. A root leaf with room takes the record in place. Below an internal root, success means the located record decoded to a leaf; if it had room, the root's slot was relinked to the leaf's new digest and the store gained the leaf's record, then the root's |

## Left out

- `utils.sha256` is a parameter of the tree (any function into 32-byte strings); SHA-256 itself is not modelled, and lib/utils.js is not part of this model.
- `utils.asyncMap` concurrency: the two puts of `_putNodes` are modelled as issued left then right, with an error of either reported once both answered; the order in which concurrent callbacks arrive is not modelled.
- The levelup store is a `map` field; its I/O errors are a nondeterministic choice, and callbacks run synchronously.
- `assert(options.db)` in the `Tree` constructor: the store is always given.
- Negative or non-numeric options and non-`Buffer` keys or values: sizes are natural numbers, and buffers are byte sequences.
- Trees.Tree.NodeInsert: the split-and-retry recursion has no bound in the source and its termination depends on the store's contents; the model bounds it by `MaxRounds` (64) rounds and fails with `RetryLimit` after that.
- Trees.Tree.NodeInsert: for a leaf with room, at the root or fetched below it, a success states the leaf's contents, the records written and the new root, and a failure at a root leaf leaves root and store unchanged. A failure below an internal root states only that the store gains content-addressed records. After a split the result is described by `SplitNode` and the recursive call, not restated.
- Trees.Tree.SplitNode, Trees.Tree.PropagateSplitToParent, Trees.Tree.RelinkNodeParentPointer: they require a node with a parent to have a parentless parent, a pointer and a first key. This always holds, because only leaves are ever decoded; the `undefined` key or pointer of a malformed chain is not modelled.
- Trees.Tree.SplitNode: for a split child its contract gives the parent's new contents on success, not the full outcome of the parent's own split.
- NodeCodec.SliceRecords, NodeCodec.Decode, Nodes.Node.SliceBuffer: they require `keySize + dataSize > 0`; with a zero stride `_sliceBuffer` loops forever, which a function or a terminating method cannot express.
- Trees.Tree.Insert: it requires a root without a parent; a `Tree` built around a root node that has a parent is not modelled.
- Node `pointer` and `parent` given as other falsy values (`options.x || null`): `None` and `null` stand for all of them.
- Deletion, rebalancing, range scans and a tree-level `get`: the source has none.
- test/tree.unit.js and the repository's other files are not part of this model.
