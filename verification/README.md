# odin-hash-map in Dafny

A model of the two classes in `index.js`. The first is `LinkedList`, a singly linked list with a `size` counter. The second is `HashMap`, a separate-chaining hash table. Its slots hold such lists of key/value entries.

`HashMap` behaves as follows:
- It picks a slot with a per-character polynomial hash, reduced modulo the capacity after every code unit.
- It creates a slot's chain lazily on the first insert.
- It scans the chain before appending, so no key is stored twice.
- It doubles the capacity and rehashes when the entry count exceeds `capacity * loadFactor`.
- After a removal it halves the capacity and rehashes when the remaining entries fit half of it, as long as half is still at least 16.
- It resets a slot to `null` once its chain is emptied.

Everything is pure functions over immutable values:
- A list is the sequence of values reachable from `head`, together with its counter (`LinkedLists.LinkedList`).
- A slot is `None` (`null`) or a chain (`Buckets.Bucket`).
- A map is its load factor, capacity and slot array (`HashMaps.HashMap`).

Every map operation is proved against `HashMaps.Contents`, the abstract key-to-value map of the slots. It reads the entries in traversal order (`Buckets.Flatten`), and the first entry holding a key wins, as the chain scan does.

The representation invariant has three layers:
- `Shaped`: one slot per unit of capacity, and every non-null chain is non-empty, correctly counted and free of duplicate keys.
- `Sound`: `Shaped`, and every entry sits in the slot its key hashes to.
- `Valid`: `Sound`, plus a capacity of the form 16·2^k, a load factor with `16 * loadFactor >= 1`, and at most `capacity * loadFactor` entries.

Keys are sequences of UTF-16 code units, the values `charCodeAt` returns (`Hashing.CodeUnits` converts a string). The load factor is an exact `real`.

Modules, leaves first:
- `Wrappers`: `Option` and `Result`.
- `LinkedLists`: the list class.
- `Hashing`: `hash` and its polynomial reference.
- `Chains`: entries, the chain scan, and the abstract map of a sequence of entries.
- `Buckets`: the slot array, its flat view and placement.
- `HashMaps`: the map class.
- `Examples`: the driver at the end of `index.js`.

Where the code dereferences `null` (indices past the end in `insertAt`, and some empty or one-node lists), the case is excluded by a precondition rather than turned into an error the code never raises.

## Model

| member | source | states |
|---|---|---|
| LinkedLists.Empty | index.js:9-13 | a new list has no nodes and counter 0 |
| LinkedLists.At | index.js:54-66 | fails exactly when `index < 0` or `index >= size`; otherwise yields the node value at that position |
| LinkedLists.Append | index.js:15-35 | the new value is at position `size`, every old position is unchanged, the counter grows by one, and the call returns the value |
| LinkedLists.Prepend | index.js:37-52 | the new value is at position 0, every old value moves up one position, the counter grows by one, and the call returns the value |
| LinkedLists.Pop | index.js:68-90 | an empty list is returned unchanged with no value; otherwise the last value is returned, the counter drops by one and the other positions are unchanged |
| LinkedLists.Contains | index.js:92-110 | true exactly when some node holds the value |
| LinkedLists.Find | index.js:112-132 | some position exactly when the value occurs; then it is the first position holding it |
| LinkedLists.ToString | index.js:134-155 | equals the rendering: `""` for an empty list, else `( v0 ) -> ( v1 ) -> ... -> null` |
| LinkedLists.InsertAt | index.js:157-183 | the value lands at `index`, earlier positions are unchanged, later ones shift up by one, and the counter grows by one |
| LinkedLists.InsertAtAsWritten | index.js:157-183 | as written, index 0 on a non-empty list leaves the chain `value` followed by the old head's successors, with `size` one more than the chain length; a negative index inserts at position 1, as index 1 does; from index 1 on it agrees with `InsertAt` |
| LinkedLists.InsertAtHeadDropsHead | index.js:163-173 | on `a -> b`, `insertAt(x, 0)` as written leaves `x -> b` with counter 3, while the intended result is `x -> a -> b` |
| LinkedLists.InsertAtNegativeLinksSecond | index.js:157-183 | `insertAt(v, i)` with `i < 0` on a non-empty list succeeds and puts `v` second, while `at(i)` and `removeAt(i)` on the result throw |
| LinkedLists.InsertAtChecked | index.js:157-183 | with the bounds check of `at` and `removeAt`: fails exactly when `index < 0` or `index > size`; otherwise the value lands at `index`, earlier positions are unchanged, later ones shift up, and the counter grows by one |
| LinkedLists.InsertAtCheckedThenRemoveAt | index.js:157-224 | the checked `insertAt` succeeds exactly for `0 <= index <= size`, and `removeAt(index)` then returns the value and restores the list |
| LinkedLists.RemoveAt | index.js:185-224 | fails exactly when `index < 0` or `index >= size`; otherwise returns the value that was at `index`, earlier positions are unchanged, later ones shift down, and the counter drops by one |
| LinkedLists.AppendThenPop | index.js:68-90 | `pop` after `append(v)` returns `v` and restores the list |
| LinkedLists.PrependThenRemoveFirst | index.js:185-224 | `removeAt(0)` after `prepend(v)` returns `v` and restores the list |
| LinkedLists.InsertAtThenRemoveAt | index.js:157-224 | `removeAt(i)` after `insertAt(v, i)` returns `v` and restores the list |
| Hashing.Hash | index.js:235-244 | the slot index is below the capacity, and the empty key hashes to 0 |
| Hashing.HashIsReducedPolynomial | index.js:235-244 | reducing after every code unit equals reducing the whole polynomial `sum key[i] * 31^(n-1-i)` once |
| Hashing.CodeUnits | index.js:239-241 | a string has at least as many code units as characters; for characters below 2^16 it is one unit per character, equal to the character code |
| Hashing.CodeUnitsInjective | index.js:239-241 | distinct strings of characters below 2^16 hash from distinct code-unit sequences |
| Chains.IndexOf | index.js:264-272 | the scan yields the first position whose entry holds the key, or nothing when no entry does |
| Chains.LookupIsToMap | index.js:264-272 | what the chain scan finds for a key is what the abstract map of the entries holds for it |
| Chains.ToMapSize | index.js:264-276 | entries with distinct keys give an abstract map with one key per entry |
| Buckets.KeysUniqueAcrossSlots | index.js:255-276 | distinct keys within each chain plus correct placement give distinct keys across the whole slot array |
| Buckets.BucketView | index.js:291-313 | under correct placement, scanning all entries finds for a key exactly what scanning its own slot finds |
| Buckets.FlattenOrderedBySlot | index.js:465-487 | in traversal order, the slot indices of the keys never decrease |
| HashMaps.New | index.js:229-233 | a fresh map is valid and empty, with the given load factor and capacity |
| HashMaps.SetInChain | index.js:259-276 | a chain with a new entry appended exactly when the key was absent; the key yields the new value and every other key what it did before |
| HashMaps.PutSpec | index.js:246-276 | before the growth check, `set` keeps placement, stores exactly `key -> value` over the old contents, and adds an entry exactly when the key was absent |
| HashMaps.ResizeSpec | index.js:279-288 | a rehash into any positive capacity keeps the entry count and the contents, and places every entry correctly |
| HashMaps.RehashNeverRegrows | index.js:285-287 | when the snapshot fits the new capacity, no prefix of the reinsertion is over the threshold, so the growth check of the nested `set` calls never fires |
| HashMaps.SnapshotStaysWithin | index.js:279-288 | the entries of a sound map rehash into any capacity they fit without any prefix of the reinsertion tripping the growth check |
| HashMaps.SetResizeStaysWithin | index.js:279-288 | when `set` grows a valid map, the nested `set` calls of its rehash into the doubled capacity never trip the growth check again |
| HashMaps.SetSound | index.js:246-289 | `set` keeps placement and stores `key -> value`; an update leaves the count and capacity alone; a new key adds one entry and, in the model's single rehash, doubles the capacity exactly when the count then exceeds `capacity * loadFactor` |
| HashMaps.SetSpec | index.js:246-289 | `set` keeps the full invariant, including at most `capacity * loadFactor` entries afterwards, with the same contents, count and capacity behaviour |
| HashMaps.SetThenGet | index.js:246-313 | after `set(k, v)`, `get(k)` is `v` and `has(k)` is true |
| HashMaps.SetKeepsOthers | index.js:246-337 | `set(k, v)` does not change `get` or `has` for any other key |
| HashMaps.SetKeepsOtherStrings | index.js:235-337 | for string keys of characters below 2^16, `set(s, v)` leaves `get(t)` and `has(t)` alone for every other string `t` |
| HashMaps.SetIdempotent | index.js:264-270 | setting a key to the value just set changes nothing at all |
| HashMaps.Get | index.js:291-313 | the stored value when the key is in the contents, otherwise nothing (`null`) |
| HashMaps.Has | index.js:315-337 | true exactly when the key is in the contents |
| HashMaps.UnlinkAt | index.js:357-375 | unlinking position `j` keeps the positions before `j`, shifts the ones after down by one, and drops the counter by one |
| HashMaps.SlotAfterUnlink | index.js:377-380 | an emptied chain becomes `null`; a non-empty one stays in the slot |
| HashMaps.UnlinkAtSpec | index.js:357-380 | the slot left behind is `null` or a well-formed chain one entry shorter, which no longer yields the key and yields every other key as before |
| HashMaps.UnlinkSpec | index.js:339-380 | the unlinking step succeeds exactly when the key is stored, and then keeps placement, removes exactly that key and one entry |
| HashMaps.RemoveSpec | index.js:339-407 | `remove` keeps the invariant and returns true exactly when the key was stored; the contents lose exactly that key, the count drops by one, and the capacity halves exactly when `count - 1 <= (capacity/2) * loadFactor` and `capacity/2 >= 16`; an absent key changes nothing |
| HashMaps.RemoveResizeStaysWithin | index.js:383-395 | when `remove` halves a valid map, the nested `set` calls of its rehash never trip the growth check |
| HashMaps.RemoveThenGet | index.js:339-407 | after `remove(k)`, `has(k)` is false and `get(k)` is nothing, and other keys keep their values |
| HashMaps.RemoveTwice | index.js:339-407 | removing a stored key returns true, and removing it again returns false |
| HashMaps.Clear | index.js:421-423 | the contents become empty and the count 0, capacity and load factor are kept, and a valid map stays valid |
| HashMaps.Length | index.js:409-419 | the sum of the counters equals the number of entries and the number of stored keys |
| HashMaps.Traverse | index.js:429-440 | the traversal yields one item per entry: position `p` is the projection of the `p`-th entry in slot order, then chain order |
| HashMaps.Keys | index.js:425-443 | every stored key exactly once, and nothing else, in traversal order |
| HashMaps.Values | index.js:445-463 | one value per entry in traversal order; the value at each position is the one stored for the key at that position |
| HashMaps.Entries | index.js:465-487 | each stored pair exactly once, covering all stored keys, ordered by non-decreasing slot index |
| Examples.ScriptKeysDistinct | index.js:491-503 | the thirteen keys of the driver are pairwise distinct |
| Examples.UpdatedValue | index.js:491-503 | after updates with distinct keys, each key holds the value set with it |
| Examples.UpdatedAll | index.js:491-503 | after updates with distinct keys, every key set holds the value set with it |
| Examples.SetAllStep | index.js:246-289 | one more `set` with a key not yet present, from a valid default map holding the first n updates (n < 24), gives a valid map with n+1 entries holding the first n+1 updates, at capacity 16 up to twelve entries and 32 after |
| Examples.SetAll | index.js:491-503 | from an empty default map, up to 24 `set` calls with distinct keys leave exactly those pairs, one entry each, each key holding the value set with it; the capacity is 16 through twelve entries and 32 from the thirteenth |
| Examples.Script | index.js:490-503 | the driver's thirteen calls leave thirteen entries, exactly the script's key/value pairs; the capacity is 16 after each of the first twelve calls and doubles to 32 at the thirteenth |
| Examples.RemoveAfterGrowthShrinks | index.js:383-395 | removing a key from a default map that has just grown to 32 with thirteen entries shrinks it straight back to 16 |
| Examples.RenderTwoNodes | index.js:134-155 | a two-node list of `dog`, `cat` renders as `( dog ) -> ( cat ) -> null` |

## Left out

- The `tail` field of `LinkedList` is not modelled. It is written but never read.
- Node identity on the heap is not modelled: a node reference held during a walk is its position.
- LinkedLists.At: returns the node's value, not the node object with its `next` link.
- LinkedLists.Pop: a one-node list is excluded. The walk to the second-to-last node dereferences `null` there.
- LinkedLists.Contains: an empty list is excluded. The head is read before the loop. Values are compared with value equality, which agrees with `===` only for primitive values other than `NaN`; objects are compared by reference in the source.
- LinkedLists.Find: an empty list, and a one-node list whose head does not match, are excluded. The do-while loop steps past the head before testing. Values are compared with value equality, which agrees with `===` only for primitive values other than `NaN`; objects are compared by reference in the source.
- LinkedLists.ToString: a one-node list is excluded, for the same do-while reason. How template interpolation renders a value is a parameter (`show`).
- LinkedLists.InsertAt: indices past the end are excluded, because the walk dereferences `null` there. Negative indices are excluded too: the source inserts at position 1 for them, which `InsertAtAsWritten` models.
- LinkedLists.InsertAtAsWritten: index 0 or a negative index on an empty list, and indices past the end, are excluded. The code dereferences `null` there.
- LinkedLists.RemoveAt: `removeAt(0)` on a one-node list is excluded. The unlinking step dereferences `null` there.
- The bounds check in `set` (index.js:250-252) has no counterpart. `Hash` is below the capacity, and the capacity equals the slot count.
- JavaScript objects as entries are not modelled: `{[key]: value}`, `hasOwnProperty`, `Object.keys` and `Object.values`. An entry is a key/value pair, and only string keys are considered.
- Floating point is not modelled. The load factor and the threshold products are exact reals. For the default configuration, every product involved is exact in doubles.
- HashMaps.SetSound: the capacity clause describes the model's single rehash. When `capacity * loadFactor < 1`, or the map was already overloaded, the nested `set` calls of the source's rehash grow the map further (`new HashMap(0.01)` ends at 128 after one `set`). `SetSpec` and `SetResizeStaysWithin` cover the configurations where the two agree.
- HashMaps.SetSpec: requires the full invariant, so capacities outside 16·2^k and load factors with `16 * loadFactor < 1` are not covered. Halving other capacities yields fractions, and tiny load factors make the rehash nest further growth.
- HashMaps.Resize: rehashes through the insertion step alone, without the growth check of the nested `set` calls. `RehashNeverRegrows` shows that check would never fire when the snapshot fits the new capacity, and `SetResizeStaysWithin` and `RemoveResizeStaysWithin` show the snapshot fits at both resize sites. The model does not carry out the nested calls themselves.
- HashMaps.Get: the `null` that `get` returns for a missing key is `None`.
- Examples.SetAll: covers at most 24 distinct keys from an empty default map, enough for the driver's thirteen.
- The driver's map is not constructed inside the model: `Examples.Script` takes any valid, empty map of the default configuration, which is what `new HashMap()` builds (`HashMaps.New`).

## Findings

| source | as written | input that shows it | evidently intended | confidence | as-written member | corrected member |
|---|---|---|---|---|---|---|
| index.js:163-173 | `insertAt(value, 0)` makes the new node the head but then links it after the old head, taking over the old head's successor; `size` still grows by one | `insertAt(x, 0)` on the list `a -> b` leaves `x -> b` with `size` 3 | `x -> a -> b` with `size` 3, as `prepend(x)` gives | high; not executed | LinkedLists.InsertAtAsWritten, LinkedLists.InsertAtHeadDropsHead | LinkedLists.InsertAt, LinkedLists.InsertAtThenRemoveAt |
| index.js:166-173 | `insertAt(value, index)` has no bounds check; with `index < 0` on a non-empty list the walk runs zero times and the new node is linked after the head, with no error | `insertAt(x, -1)` on `a -> b` gives `a -> x -> b`, while `at(-1)` and `removeAt(-1)` throw `Index out of bounds` | the same out-of-bounds error as `at` and `removeAt` for an index outside `0..size` | medium; not executed | LinkedLists.InsertAtAsWritten, LinkedLists.InsertAtNegativeLinksSecond | LinkedLists.InsertAtChecked, LinkedLists.InsertAtCheckedThenRemoveAt |
