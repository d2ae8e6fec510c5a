# rust-map in Dafny

A model of `Map<K, V>` from `map.rs`: a key/value container kept as a doubly
linked chain of heap nodes. `head` is the most recently added node; every
scan (`check_key`, `get`, `remove_item`) starts at `head` and follows
`previous_node` towards the oldest node, while `add` links a new node in
front of the old head through the old head's `next_node`.

The project has three modules:

- `Entries` (`entries.dfy`): the abstract view of a map, the list of its
  entries from the head to the oldest node, with the scan (`Find`), the
  removal of the first match (`Remove`) and the lemmas relating them.
- `LinkedMap` (`map.dfy`): the classes `Node` and `Map`. A `Map` has the
  source's fields `size` and `head`, and three ghost fields: `chain` (the
  nodes from `head` along `previousNode`), `Contents` (their entries) and
  `Repr` (the map and the nodes it owns). `Valid()` is the object invariant:
  `chain` starts at `head`, `size` is its length, each node's `previousNode`
  is the next node of `chain` and its `nextNode` the one before, no node
  occurs twice and no key occurs twice. Every operation is a method over this
  heap, with a `while` loop walking the chain like the source's loops.
- `Scenarios` (`scenarios.dfy`): calls on a fresh map and what the caller
  observes, including the behaviour of `remove_item` as written.

`remove_item` is modelled twice, because the code does not do what it
evidently means (see "## Findings"): `RemoveItemAsWritten` as map.rs is
written, and `RemoveItem` as intended, which is the version the rest of the
model uses. The `false;` at map.rs:48 and the `true;` at map.rs:63 show that
`remove_item` means to report whether it removed a node; as written it
returns `false` on every path (map.rs:67), and `RemoveItemAsWritten` follows
the code.

## Model

| member | source | states |
|---|---|---|
| LinkedMap.Node.constructor | map.rs:4-9 | a node holds the given key, value and both links |
| LinkedMap.Map.constructor | map.rs:17-22 | `new` gives a valid map with `size` 0, no `head`, an empty chain and no entries |
| LinkedMap.Map.LinksPointBack | map.rs:37-39 | in a valid map every node's `previousNode` points back to it through `nextNode` and the other way round, and exactly the head has no `nextNode` |
| LinkedMap.Map.SizeIsKeyCount | map.rs:41-42 | `size` equals the number of different keys stored, and is 0 exactly when `head` is null |
| LinkedMap.Map.CheckKey | map.rs:81-93 | `true` exactly when some node on the walk from `head` has the key; `false` on the empty map |
| LinkedMap.Map.Get | map.rs:70-79 | the value of the first node on the walk with the key (`Find` of the entries), `None` exactly when no node has it |
| LinkedMap.Map.Add | map.rs:23-44 | a present key returns `false` and changes no field of the map or of any node; a new key returns `true`, the new node is `head` with null `nextNode` and the old head as `previousNode`, the old head's `nextNode` is the new node, `size` grows by one, the entry is prepended and the invariant holds |
| LinkedMap.Map.LinkNewHead | map.rs:27-43 | for an absent key: the new head, its links, the old head's `nextNode`, `size` + 1 and the prepended chain and entries, with the invariant kept |
| LinkedMap.Map.NewFrontNode | map.rs:27-40 | the allocated node carries the key and value, has null `nextNode` and the head as `previousNode`; the head's `nextNode` now points to it and every other link is as before |
| LinkedMap.Map.PrependedChain | map.rs:37-41 | a node linked in front of a linked chain as `add` links it gives a linked chain with distinct nodes |
| LinkedMap.Map.Splice | map.rs:53-60 | the node before and the node after the unlinked node point at each other; every other link is as before; returns the saved `previous_node` |
| LinkedMap.Map.SplicedChain | map.rs:55-60 | after the splice the chain without that position is linked again and its nodes are distinct |
| LinkedMap.Map.Unlink | map.rs:53-62 | the node at position `i` leaves the chain, the entries and the footprint, the two neighbours point at each other, `size` drops by one, `head` is untouched |
| LinkedMap.Map.RemoveItem | map.rs:46-68 | returns whether the key was present; the entries become `Remove` of the old ones; on a present key exactly the first node with it leaves the chain, its neighbours are relinked and `size` drops by one; on an absent key nothing changes; the invariant holds |
| LinkedMap.Map.RemoveNode | map.rs:53-62 | unlinks the node at position `i`, moving `head` to its previous node when it was the head, and keeps the invariant |
| LinkedMap.Map.RemoveItemAsWritten | map.rs:46-68 | as written: always `false`; the entries become `Remove` of the old ones; on a present key exactly the first node with it leaves the chain and the footprint, its neighbours point at each other and `size` drops by one, on an absent key nothing changes; the map stays valid exactly when the key was not the head's, and otherwise `head` is a node the map no longer owns |
| LinkedMap.Map.WalkOn | map.rs:51-52 | the rest of the walk from position `i` reports a key match exactly when some node from `i` on has the key (after a removal `RemoveItemAsWritten` proves there is none) |
| LinkedMap.Map.RemoveMatch | map.rs:52-65 | at the first node with the key: the node is unlinked, the entries become `Remove` of the old ones, no entry has the key left, and the walk continues at the next older node |
| Entries.Find | map.rs:70-79 | a scan finds a value exactly when some entry has the key, and the entry it finds is present |
| Entries.IndexOf | map.rs:51-52 | the position of the first entry with the key |
| Entries.Remove | map.rs:51-63 | removing the first match shortens the entries by one exactly when the key occurs |
| Entries.InKeys | map.rs:81-93 | a key is in the key set exactly when some entry has it |
| Entries.FindSkip | map.rs:72-76 | skipping entries without the key does not change what the scan finds |
| Entries.FindIsFirstMatch | map.rs:72-75 | the scan returns `v` exactly when the first entry with the key holds `v` |
| Entries.FindDistinct | map.rs:70-79 | with distinct keys the scan returns `v` for `k` exactly when the entry (k, v) is stored |
| Entries.RemoveAt | map.rs:51-62 | removal deletes exactly the position of the first entry with the key, so every other entry keeps its value and order |
| Entries.RemoveAbsent | map.rs:46-49 | removing an absent key leaves the entries unchanged |
| Entries.RemoveKeys | map.rs:46-68 | after a removal the keys are still distinct and are exactly the old keys other than the removed one |
| Entries.HasKeyDelete | map.rs:53-62 | after deleting one position a key occurs exactly when it occurs at another position |
| Entries.FindAfterRemove | map.rs:46-79 | after `remove_item(k)`, `get(k)` finds nothing and `get` of every other key finds what it found before |
| Entries.DistinctKeysTail | map.rs:23-26 | the entries behind the first one have distinct keys, none equal to the first key |
| Entries.DistinctKeysDelete | map.rs:53-62 | deleting a position keeps the keys distinct |
| Entries.PrependDistinct | map.rs:23-26 | adding only absent keys keeps the keys distinct |
| Entries.FindAfterPrepend | map.rs:23-44 | after `add(k, v)`, `get(k)` finds `v` and every other key is found as before |
| Entries.DistinctKeysCount | map.rs:41-42 | with distinct keys the number of entries equals the number of keys |
| Scenarios.ThreeEntries | map.rs:23-44 | adding "a", "b", "c" to a new map gives a valid map holding them newest first |
| Scenarios.AddGetRemove | map.rs:23-79 | after those additions, with the corrected `RemoveItem` of "## Findings": size 3, `get("b")` is 2, removing "b" reports `true`, size 2, `get("b")` is none, removing "b" again reports `false` |
| Scenarios.DuplicateRejected | map.rs:23-26 | a second `add` of a key returns `false` and `get` still returns the first value |
| Scenarios.RemoveOnlyKeyAsWritten | map.rs:46-68 | as written, removing the only key returns `false` with `size` 0 while `head` is still set |

## Left out

- `print_items` (map.rs:95-102) is not modelled: it only writes text, with pointer addresses, to standard output.
- Raw allocation with `alloc`/`dealloc` and `Layout` (map.rs:1-2, 27, 61): allocation is `new Node`, and deallocation is taking the node out of `chain` and `Repr`.
- The writes into uninitialised memory at map.rs:28-29: the `Node` constructor receives the key, the value and both links at once, merging map.rs:27-29 with map.rs:34-35 and map.rs:38-39 into one step.
- The read of freed memory at map.rs:65: the walk continues from the `previous_node` saved at map.rs:54 before the node was released.
- The second part of the walk in `RemoveItemAsWritten` (`WalkOn`) compares keys as map.rs:52 does but has no unlink branch: after the removal no older node has the key, which `RemoveItemAsWritten` proves from the result of `WalkOn`, so that branch cannot run again.
- `size` is a `nat`, not a `usize`: an overflow would need more nodes than memory holds, and `size` never drops below zero because it is only decremented when a node is removed.
- `get` returns the value, not a borrowed reference into the node, and does not modify the map, although map.rs takes `&mut self`; the lifetime of the reference is not modelled.
- `unsafe`, the `Debug` bounds and the `PartialEq` bound: `K` is a Dafny equality type and `V` any type.
- `Valid()` states that `Repr` holds the map and every node of the chain, not that it holds nothing else.
- Concurrency: the map is single-threaded, and so is the model.

## Findings

| source | as written | input that shows it | evidently intended | confidence | as-written member | corrected member |
|---|---|---|---|---|---|---|
| map.rs:47-48, map.rs:63 | `false;` and `true;` are expression statements, so their values are dropped and the function always reaches the final `false` (map.rs:67) | `add(k, v)` then `remove_item(k)`: the node is removed and `size` drops to 0, but the call returns `false` | return `false` at once when `check_key` fails, and `true` after a removal | not executed | LinkedMap.Map.RemoveItemAsWritten | LinkedMap.Map.RemoveItem |
| map.rs:50-66 | `head` is never reassigned when the removed node is the head | `add(k, v)` then `remove_item(k)`: `size` is 0 but `head` still points at the released node, which a later `add` writes to (map.rs:37) | move `head` to the removed node's `previous_node` | not executed | LinkedMap.Map.RemoveItemAsWritten | LinkedMap.Map.RemoveNode |
