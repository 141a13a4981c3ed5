# Skip list

A model of `skiplist.py`: an ordered key-to-value map kept as a skip list.
Each node holds a key, a value and one forward link per level it is on. A
sentinel header holds one link per level `0..max_level`, and `level` is the
highest level in use. `_find_updates` scans top-down and finds, on every
level, the last node whose key is below the target. `insert` either
overwrites a stored key's value in place, or draws a height for a new node
and splices that node in after those predecessors. `delete` unlinks the
node from every level it is on, then lowers `level` past the levels left
empty. The dictionary-style methods are thin wrappers over these.

The model is imperative, as the source is:

- `SkipLists.SkipList` is a class with the source's fields: `maxLevel`,
  `level` and `header`. The header's forward array is a `seq<Option<nat>>`.
- Nodes live in an arena `nodes: seq<Node<V>>` and are named by their index
  (a handle). A forward link is an `Option<nat>`, and `r.forward[i] = t` is
  `SetLink`.
- The scans are `while`/`for` loops that move a cursor `Ref` (the header or
  a handle). Their invariants tie the cursor to ghost state.
- Two ghost fields give the meaning:
  - `lanes[i]` is the sequence of handles met along level `i`;
  - `Contents` is the map the list stands for.
- `Valid()` is the representation invariant (`Lanes.Shaped`):
  - every level is a chain of strictly increasing keys (`Chained`);
  - a node on level `i + 1` is on level `i` and on every level below its
    height (`Nested`);
  - levels above `level` are empty, and `level` itself is not empty unless
    it is 0;
  - level 0 stands for `Contents` (`Abstracts`).
- `Insert` and `Delete` keep `Valid()` and state their new `Contents`
  and lanes, the lanes in terms of `Lanes.InsertAt` and `Reshape.Unlinked`.
  `SetItem` and `DelItem` keep `Valid()` and state their new `Contents`.
  The helpers that run one loop of `insert` or `delete` keep every level a
  sorted chain (`Chained`); `RemoveNode` ends in `Loose`, which
  `ShrinkLevel` turns back into `Valid()`.

Files:

- `lanes.dfy` (module `Lanes`) describes links and lanes as values. It
  defines where a scan stops on a level (`Rank`), and proves how rewriting
  one forward slot turns one lane into another.
- `reshape.dfy` (module `Reshape`) holds the whole-list steps of insertion
  and deletion, on values.
- `skiplist.dfy` (module `SkipLists`) holds the class and its methods.
- `demo.dfy` (module `Demo`) replays the source's demo run for any draws.

The random draws `random.random() < p` are a parameter `coin: nat -> bool`,
where `coin(j)` is the outcome of the `j`-th draw. The level they give is
the function `LevelFrom(coin, maxLevel, 0)`.

## Model

| member | source | states |
|---|---|---|
| SkipLists.NewNode | skiplist.py:7-11 | a new node has the given key and value and `level + 1` forward links, all empty |
| SkipLists.SkipList.constructor | skiplist.py:19-23 | a new list is valid and empty, with level 0 and `max_level + 1` header links |
| SkipLists.LevelFrom | skiplist.py:26-30 | the drawn level lies in `lvl..max_level`: the draw is capped at `max_level`, not resampled |
| SkipLists.LevelFromDrawn | skiplist.py:26-30 | after `lvl` won draws, `LevelFrom` is a level the draws give (won draws below it, then a lost draw or the cap), and no other level from `lvl` on is one |
| SkipLists.LevelDrawnUnique | skiplist.py:26-30 | a level is one the draws give exactly when it is `LevelFrom(coin, max_level, 0)` |
| SkipLists.SkipList.RandomLevel | skiplist.py:26-30 | the loop returns the level the draws give, so it lies in `0..max_level` |
| SkipLists.SkipList.Advance | skiplist.py:40-41 | the walk along level `i` stops at the predecessor of `key` on that level: the place after exactly the nodes whose keys are below `key` |
| SkipLists.SkipList.Descend | skiplist.py:39-41 | the predecessor on level `i` is on level `i - 1` too, no further along than the predecessor there, so the walk may resume from it |
| SkipLists.SkipList.FindUpdates | skiplist.py:32-43 | `update[i]`, for every level in use, is the place after the nodes of level `i` whose keys are below `key` |
| SkipLists.SkipList.PredecessorAt | skiplist.py:37-43 | that place is the header or a node of level `i` whose key is below `key`, and its link on level `i` is empty or leads to a key not below `key`; no other place is |
| SkipLists.SkipList.NextAtLevelZero | skiplist.py:51-52 | the node after the level-0 predecessor holds `key` exactly when `key` is stored, and then it holds its value |
| SkipLists.SkipList.Search | skiplist.py:46-52 | returns the value stored under `key`, or None exactly when `key` is not stored |
| SkipLists.SkipList.SetLink | skiplist.py:73-74 | rewrites the one forward slot `r.forward[i]` and nothing else |
| SkipLists.SkipList.Insert | skiplist.py:54-74 | keeps the invariant and maps `key` to `value`. A stored key changes only its value: no node, link, lane or `level` changes. A new key gets one node, as tall as the drawn level, placed in sorted position on each of its levels; `level` rises to the drawn level if that is higher |
| SkipLists.SkipList.SetValue | skiplist.py:56-60 | overwriting the value of the node found on level 0 keeps the invariant, changes that key's entry only, and changes no link |
| SkipLists.SkipList.AddNode | skiplist.py:62-74 | for an absent key, the new node is appended and spliced into levels `0..new_level` at the key's sorted position; the levels above keep their lanes |
| SkipLists.SkipList.RaiseUpdates | skiplist.py:64-67 | the levels between the old `level` and the drawn level are entered from the header; the other update entries stay |
| SkipLists.SkipList.LinkNode | skiplist.py:68-74 | raising `level` and splicing the node after the predecessors gives a valid list whose map has the new entry |
| SkipLists.SkipList.SpliceLevels | skiplist.py:72-74 | on each level `0..top` the lane gains the new node at the key's rank; higher levels, keys, values and heights are unchanged, and every level stays a sorted chain |
| SkipLists.SkipList.SpliceLevel | skiplist.py:73-74 | the two slot writes on level `i` insert the new node into that lane at the key's rank and leave every other lane as it was |
| SkipLists.SkipList.Delete | skiplist.py:76-90 | returns whether `key` was stored and removes exactly that key. The size drops by one when it was stored. Each lane loses exactly the node holding `key`. `level` does not rise, and it is 0 or has a non-empty header link. An absent key changes nothing |
| SkipLists.SkipList.RemoveNode | skiplist.py:82-85 | unlinking the found node from every level in use leaves sorted, nested chains that stand for the map without its key |
| SkipLists.SkipList.UnlinkLevels | skiplist.py:83-85 | every level in use loses exactly the node holding `key`, if it had it; the levels above are untouched |
| SkipLists.SkipList.UnlinkLevel | skiplist.py:84-85 | if the predecessor on level `i` points at the node, pointing it past the node removes the node from that lane; otherwise the lane had no node holding `key` and nothing changes |
| SkipLists.SkipList.ShrinkLevel | skiplist.py:87-89 | `level` drops until it is 0 or its header link is non-empty, which restores the invariant |
| SkipLists.SkipList.Len | skiplist.py:109-115 | the count of nodes reached along level 0 equals the number of stored keys |
| SkipLists.SkipList.Contains | skiplist.py:93-94 | true exactly when `key` is stored |
| SkipLists.SkipList.SetItem | skiplist.py:96-97 | maps `key` to `value`, and the size grows by one exactly when `key` was absent |
| SkipLists.SkipList.GetItem | skiplist.py:99-103 | gives the stored value, and a KeyError exactly when `key` is absent |
| SkipLists.SkipList.DelItem | skiplist.py:105-107 | removes `key`, and gives a KeyError exactly when `key` was absent |
| Lanes.Relink | skiplist.py:73-74 | a slot write changes one link of the header or of one node; every other node stays |
| Lanes.Rank | skiplist.py:40-41 | where the walk along a level stops: every earlier handle has a key below the target, and the handle there (if any) does not |
| Lanes.RankSplits | skiplist.py:40-41 | on a sorted level every handle from the rank on has a key at or above the target |
| Lanes.RankPrecedes | skiplist.py:40-42 | the place the walk stops at is a predecessor of the target on that level |
| Lanes.PrecedesAtRank | skiplist.py:40-42 | on a sorted chain a predecessor of the target is that place: there is only one |
| Lanes.KeyAtRank | skiplist.py:51-52 | on a sorted level the handle holding the target key sits exactly at the rank |
| Lanes.SpliceAscending | skiplist.py:72-74 | putting a key that lies between its neighbours into a sorted level keeps it sorted |
| Lanes.SpliceKeepsChain | skiplist.py:73-74 | the two slot writes of a splice turn the chain of a level into the chain with the new node at its place |
| Lanes.UnlinkKeepsChain | skiplist.py:84-85 | the slot write of an unlink turns the chain of a level into the chain without that node |
| Lanes.RelinkKeepsOtherChains | skiplist.py:73-74 | a slot write on level `i` leaves the chain of every other level unchanged |
| Lanes.LaneKeysCount | skiplist.py:109-115 | a sorted level holds as many distinct keys as it has nodes |
| Lanes.AbstractsOnlyLaneKeys | skiplist.py:51-52 | the map that level 0 stands for holds exactly the keys of level 0's nodes |
| Lanes.NestedAt | skiplist.py:39-42 | a node on level `i` is on level 0 and is taller than `i` |
| Lanes.NestedBelow | skiplist.py:39-42 | a node is on every level below its height |
| Lanes.InsertNested | skiplist.py:72-74 | adding a node of height `h` to levels `0..h-1` keeps every level a subset of the one below |
| Lanes.RemoveNested | skiplist.py:83-85 | removing a node from every level keeps every level a subset of the one below |
| Reshape.UnlinkedMembers | skiplist.py:83-85 | on a sorted level unlinking a key removes exactly the handle that holds it |
| Reshape.AbsentOffLanes | skiplist.py:56-58 | a key the map lacks is on no level |
| Reshape.HolderOnLanes | skiplist.py:84 | the node found on level 0 is the only node holding its key on any level, so the `is x` test picks out exactly that key |
| Reshape.InsertAbstracts | skiplist.py:70-74 | a node for a new key, placed anywhere on level 0, stands for the map with the new entry |
| Reshape.UnlinkAbstracts | skiplist.py:83-85 | unlinking a key from level 0 stands for removing it from the map |
| Reshape.AppendKeepsChains | skiplist.py:70 | creating a node leaves every chain as it was |
| Reshape.SpliceStep | skiplist.py:72-74 | one pass of the splicing loop: the level gains the new node at the key's rank, and every level stays a sorted chain |
| Reshape.UnlinkStep | skiplist.py:83-85 | one pass of the unlinking loop: the level loses the node, and every level stays a sorted chain |
| Reshape.InsertShaped | skiplist.py:62-74 | the result of inserting a new key satisfies the whole invariant for the map with the new entry |
| Reshape.DeleteLoose | skiplist.py:82-85 | the result of unlinking a stored key is sorted and nested, and stands for the map without the key, before `level` is lowered |
| Reshape.SetValueShaped | skiplist.py:58-60 | overwriting a stored node's value keeps every chain, and the list stands for the map with that key's entry replaced |
| Demo.Fill | skiplist.py:127-129 | inserting 20, 5, 15, 30, 10, 25 with "val_k", whatever the draws, gives a list holding exactly those six keys with those values |
| Demo.Overwrite | skiplist.py:137-138 | inserting 10 again with "TEN" makes search give "TEN" and leaves the size unchanged |
| Demo.Remove | skiplist.py:141 | deleting 20 succeeds and leaves five keys; as a check beyond the demo, which deletes 20 only once, deleting it again gives False |
| Demo.Scenario | skiplist.py:126-142 | the demo's outcomes hold for every draw: search 15 gives "val_15", search 99 gives None, 10 becomes "TEN", and deleting 20 gives True; beyond the demo, the sizes are six and then five, and a second deletion of 20 gives False |

## Left out

- `random.random()` and the probability `p` (skiplist.py:21, 28) are floating point and random. The draws are the parameter `coin`, so the geometric distribution and the average O(log n) cost are not modelled.
- `display` (skiplist.py:117-123) only prints, and the printing in the demo (skiplist.py:131-142) is left out. `Demo` checks the values the demo prints rather than the printed text.
- Object references are arena handles. The deleted node stays in the arena, unreachable from the header, where the source leaves it to garbage collection. Aliasing between nodes is not modelled beyond what handles give.
- Keys are `int`, because the source only compares keys with `<` and `==`. Values are of any type `V`. `Search` returns `Option<V>`, so the source's quirk where a value `None` reads as absent (skiplist.py:94, 101) does not arise in the model.
- `max_level` is a `nat`. A negative `max_level`, which the source accepts, is not modelled.
- SkipLists.SkipList.FindUpdates: entries above `level` are left unspecified. The model fills them with the header, where the source fills them with None. No caller reads them before `insert` sets them to the header.
- SkipLists.SkipList.Insert: it takes the draws `coin` even for a stored key, where the source draws nothing; the model then does not use them.
