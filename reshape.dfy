/** Whole-list rewrites on values: how appending a node to the arena, linking
    it in level by level, unlinking a node level by level and overwriting a
    value carry the representation invariant `Shaped` from one state of the
    skip list to the next. */
module Reshape {
  import opened Lanes

  /** A lane with the handle that holds `key`, if there is one, taken out. */
  function Unlinked(keys: seq<int>, lane: seq<nat>, key: int): (lane': seq<nat>)
    requires InArena(keys, lane)
    ensures InArena(keys, lane') && |lane'| <= |lane|
  {
    var c := Rank(keys, lane, key);
    if c < |lane| && keys[lane[c]] == key then RemoveAt(lane, c) else lane
  }

  /** No handle on the lane holds `key`. */
  ghost predicate KeyOff(keys: seq<int>, lane: seq<nat>, key: int) {
    && InArena(keys, lane)
    && forall j {:trigger keys[lane[j]]} :: 0 <= j < |lane| ==> keys[lane[j]] != key
  }

  /** `x` is the only handle on the lane that holds `key`. */
  ghost predicate OnlyHolder(keys: seq<int>, lane: seq<nat>, key: int, x: nat) {
    && InArena(keys, lane)
    && forall j {:trigger keys[lane[j]]} :: 0 <= j < |lane| && keys[lane[j]] == key ==> lane[j] == x
  }

  /** The next handle the arena hands out is on no lane. */
  lemma FreshHandle(keys: seq<int>, lane: seq<nat>)
    requires InArena(keys, lane)
    ensures |keys| !in lane
  {
  }

  lemma InsertAtMembers(lane: seq<nat>, c: nat, n: nat, h: nat)
    requires c <= |lane|
    ensures h in InsertAt(lane, c, n) <==> h in lane || h == n
  {
    assert lane == lane[..c] + lane[c..];
  }

  /** On a sorted lane, unlinking `key` takes out exactly the handle that holds it. */
  lemma UnlinkedMembers(keys: seq<int>, lane: seq<nat>, key: int, h: nat)
    requires Ascending(keys, lane)
    ensures h in Unlinked(keys, lane, key) <==> h in lane && keys[h] != key
  {
    var c := Rank(keys, lane, key);
    var lane' := Unlinked(keys, lane, key);
    if c < |lane| && keys[lane[c]] == key {
      if h in lane' {
        var q :| 0 <= q < |lane'| && lane'[q] == h;
        if q < c {
          assert keys[lane[q]] < keys[lane[c]];
        } else {
          assert keys[lane[c]] < keys[lane[q + 1]];
        }
      }
      if h in lane && keys[h] != key {
        var q :| 0 <= q < |lane| && lane[q] == h;
        if q < c {
          assert lane'[q] == h;
        } else {
          assert lane'[q - 1] == h;
        }
      }
    }
  }

  /** A value stored under a key the map lacks: the node appended to the
      arena, linked in anywhere on level 0, stands for the new entry. */
  lemma InsertAbstracts<V>(keys: seq<int>, values: seq<V>, lane: seq<nat>, m: map<int, V>,
                           c: nat, key: int, value: V)
    requires InArena(keys, lane) && Abstracts(keys, values, lane, m)
    requires key !in m && c <= |lane| && |keys| == |values|
    ensures Abstracts(keys + [key], values + [value], InsertAt(lane, c, |keys|), m[key := value])
  {
    var keys', values', lane' := keys + [key], values + [value], InsertAt(lane, c, |keys|);
    forall j | 0 <= j < |lane'|
      ensures lane'[j] < |keys'| && lane'[j] < |values'|
      ensures keys'[lane'[j]] in m[key := value] && m[key := value][keys'[lane'[j]]] == values'[lane'[j]]
    {
      if j < c {
        assert lane'[j] == lane[j] && keys[lane[j]] in m;
      } else if c < j {
        assert lane'[j] == lane[j - 1] && keys[lane[j - 1]] in m;
      }
    }
  }

  /** Unlinking `key` from a sorted level 0 stands for removing it from the map. */
  lemma UnlinkAbstracts<V>(keys: seq<int>, values: seq<V>, lane: seq<nat>, m: map<int, V>, key: int)
    requires Ascending(keys, lane) && Abstracts(keys, values, lane, m)
    ensures Abstracts(keys, values, Unlinked(keys, lane, key), m - {key})
  {
    var c := Rank(keys, lane, key);
    var lane' := Unlinked(keys, lane, key);
    if c < |lane| && keys[lane[c]] == key {
      assert keys[lane[c]] in m;
      assert |m - {key}| == |m| - 1;
      forall j | 0 <= j < |lane'|
        ensures keys[lane'[j]] != key
      {
        if j < c {
          assert keys[lane[j]] < keys[lane[c]];
        } else {
          assert keys[lane[c]] < keys[lane[j + 1]];
        }
      }
    } else {
      AbstractsOnlyLaneKeys(keys, values, lane, m, key);
      assert m - {key} == m;
    }
  }

  /** A key the map lacks is on no level. */
  lemma AbsentOffLanes<V>(maxLevel: nat, level: nat, header: seq<Option<nat>>, nodes: seq<Node<V>>,
                          lanes: seq<seq<nat>>, m: map<int, V>, key: int)
    requires Shaped(maxLevel, level, header, nodes, lanes, m) && key !in m
    ensures forall i :: 0 <= i <= maxLevel ==> KeyOff(KeysOf(nodes), lanes[i], key)
  {
    var keys := KeysOf(nodes);
    forall i | 0 <= i <= maxLevel
      ensures KeyOff(keys, lanes[i], key)
    {
      assert Chained(header, nodes, lanes[i], i);
      forall j | 0 <= j < |lanes[i]|
        ensures keys[lanes[i][j]] != key
      {
        NestedAt(HeightsOf(nodes), lanes, i, j);
        var q :| 0 <= q < |lanes[0]| && lanes[0][q] == lanes[i][j];
        assert keys[lanes[0][q]] in m;
      }
    }
  }

  /** The node of level 0 that holds `key` is the only node holding it on any level. */
  lemma HolderOnLanes<V>(maxLevel: nat, level: nat, header: seq<Option<nat>>, nodes: seq<Node<V>>,
                         lanes: seq<seq<nat>>, m: map<int, V>, key: int, c: nat)
    requires Shaped(maxLevel, level, header, nodes, lanes, m)
    requires c < |lanes[0]| && lanes[0][c] < |nodes| && nodes[lanes[0][c]].key == key
    ensures forall i :: 0 <= i <= maxLevel ==> OnlyHolder(KeysOf(nodes), lanes[i], key, lanes[0][c])
  {
    var keys := KeysOf(nodes);
    assert Chained(header, nodes, lanes[0], 0);
    KeyAtRank(keys, lanes[0], key, c);
    forall i | 0 <= i <= maxLevel
      ensures OnlyHolder(keys, lanes[i], key, lanes[0][c])
    {
      assert Chained(header, nodes, lanes[i], i);
      forall j | 0 <= j < |lanes[i]| && keys[lanes[i][j]] == key
        ensures lanes[i][j] == lanes[0][c]
      {
        NestedAt(HeightsOf(nodes), lanes, i, j);
        var q :| 0 <= q < |lanes[0]| && lanes[0][q] == lanes[i][j];
        KeyAtRank(keys, lanes[0], key, q);
      }
    }
  }

  /** Appending a node to the arena leaves every chain as it was. */
  lemma AppendKeepsChains<V>(header: seq<Option<nat>>, nodes: seq<Node<V>>, lanes: seq<seq<nat>>, node: Node<V>)
    requires forall i :: 0 <= i < |lanes| ==> Chained(header, nodes, lanes[i], i)
    ensures KeysOf(nodes + [node]) == KeysOf(nodes) + [node.key]
    ensures ValuesOf(nodes + [node]) == ValuesOf(nodes) + [node.value]
    ensures HeightsOf(nodes + [node]) == HeightsOf(nodes) + [|node.forward|]
    ensures forall i :: 0 <= i < |lanes| ==> Chained(header, nodes + [node], lanes[i], i)
  {
    var nodes' := nodes + [node];
    assert KeysOf(nodes') == KeysOf(nodes) + [node.key];
    assert ValuesOf(nodes') == ValuesOf(nodes) + [node.value];
    assert HeightsOf(nodes') == HeightsOf(nodes) + [|node.forward|];
    forall i | 0 <= i < |lanes|
      ensures Chained(header, nodes', lanes[i], i)
    {
      assert Chained(header, nodes, lanes[i], i);
      forall j | 0 <= j < |lanes[i]|
        ensures nodes'[lanes[i][j]] == nodes[lanes[i][j]]
      {
        assert lanes[i][j] < |KeysOf(nodes)|;
      }
    }
  }

  /** One level of `insert`: the appended node `n`, holding a key no node of
      level `i` holds, is pointed at its successor on that level and its
      predecessor is pointed at it. Level `i` gains `n` at the key's rank and
      every other level keeps its chain. */
  lemma SpliceStep<V>(keys: seq<int>, header: seq<Option<nat>>, nodes: seq<Node<V>>, lanes: seq<seq<nat>>,
                      i: nat, n: nat, key: int,
                      header1: seq<Option<nat>>, nodes1: seq<Node<V>>, header2: seq<Option<nat>>, nodes2: seq<Node<V>>,
                      lanes': seq<seq<nat>>)
    requires i < |lanes| && forall k :: 0 <= k < |lanes| ==> Chained(header, nodes, lanes[k], k)
    requires n == |keys| && |nodes| == n + 1 && KeysOf(nodes) == keys + [key] && i < |nodes[n].forward|
    requires KeyOff(keys, lanes[i], key)
    requires (header1, nodes1) == Relink(header, nodes, At(n), i, After(lanes[i], Rank(keys, lanes[i], key)))
    requires Linkable(header1, nodes1, RefAt(lanes[i], Rank(keys, lanes[i], key)), i)
    requires (header2, nodes2) == Relink(header1, nodes1, RefAt(lanes[i], Rank(keys, lanes[i], key)), i, Some(n))
    requires lanes' == lanes[i := InsertAt(lanes[i], Rank(keys, lanes[i], key), n)]
    ensures KeysOf(nodes2) == KeysOf(nodes) && ValuesOf(nodes2) == ValuesOf(nodes)
    ensures HeightsOf(nodes2) == HeightsOf(nodes) && |header2| == |header|
    ensures forall k :: 0 <= k < |lanes'| ==> Chained(header2, nodes2, lanes'[k], k)
  {
    var lane := lanes[i];
    var c := Rank(keys, lane, key);
    assert Chained(header, nodes, lane, i);
    RankFrame(keys, KeysOf(nodes), lane, key);
    RankSplits(KeysOf(nodes), lane, key);
    FreshHandle(keys, lane);
    assert nodes[n].key == KeysOf(nodes)[n] == key;
    forall j | 0 <= j < c
      ensures nodes[lane[j]].key < nodes[n].key
    {
      assert keys[lane[j]] < key;
      assert KeysOf(nodes)[lane[j]] == keys[lane[j]];
    }
    forall j | c <= j < |lane|
      ensures nodes[n].key < nodes[lane[j]].key
    {
      assert keys[lane[j]] != key;
      assert KeysOf(nodes)[lane[j]] == keys[lane[j]];
      assert key <= KeysOf(nodes)[lane[j]];
    }
    SpliceKeepsChain(header, nodes, lane, i, c, n, header1, nodes1, header2, nodes2);
    forall k | 0 <= k < |lanes| && k != i
      ensures Chained(header2, nodes2, lanes[k], k)
    {
      RelinkKeepsOtherChains(header, nodes, lanes[k], k, At(n), i, After(lane, c), header1, nodes1);
      RelinkKeepsOtherChains(header1, nodes1, lanes[k], k, RefAt(lane, c), i, Some(n), header2, nodes2);
    }
    assert KeysOf(nodes2) == KeysOf(nodes);
    assert ValuesOf(nodes2) == ValuesOf(nodes);
    assert HeightsOf(nodes2) == HeightsOf(nodes);
  }

  /** One level of `delete`: the predecessor of the `c`-th node of level `i`
      is pointed past it. Level `i` loses that node, every other level keeps
      its chain, and the unlinked node itself is untouched. */
  lemma UnlinkStep<V>(header: seq<Option<nat>>, nodes: seq<Node<V>>, lanes: seq<seq<nat>>, i: nat, c: nat,
                      header': seq<Option<nat>>, nodes': seq<Node<V>>, lanes': seq<seq<nat>>)
    requires i < |lanes| && forall k :: 0 <= k < |lanes| ==> Chained(header, nodes, lanes[k], k)
    requires c < |lanes[i]| && lanes[i][c] < |nodes| && i < |nodes[lanes[i][c]].forward|
    requires Linkable(header, nodes, RefAt(lanes[i], c), i)
    requires (header', nodes') == Relink(header, nodes, RefAt(lanes[i], c), i, nodes[lanes[i][c]].forward[i])
    requires lanes' == lanes[i := RemoveAt(lanes[i], c)]
    ensures KeysOf(nodes') == KeysOf(nodes) && ValuesOf(nodes') == ValuesOf(nodes)
    ensures HeightsOf(nodes') == HeightsOf(nodes) && |header'| == |header|
    ensures nodes'[lanes[i][c]] == nodes[lanes[i][c]]
    ensures forall k :: 0 <= k < |lanes'| ==> Chained(header', nodes', lanes'[k], k)
  {
    var lane := lanes[i];
    assert Chained(header, nodes, lane, i);
    if c > 0 {
      assert KeysOf(nodes)[lane[c - 1]] < KeysOf(nodes)[lane[c]];
    }
    UnlinkKeepsChain(header, nodes, lane, i, c, header', nodes');
    forall k | 0 <= k < |lanes| && k != i
      ensures Chained(header', nodes', lanes[k], k)
    {
      RelinkKeepsOtherChains(header, nodes, lanes[k], k, RefAt(lane, c), i, nodes[lane[c]].forward[i], header', nodes');
    }
    assert KeysOf(nodes') == KeysOf(nodes);
    assert ValuesOf(nodes') == ValuesOf(nodes);
    assert HeightsOf(nodes') == HeightsOf(nodes);
  }

  /** The end of `insert` for a new key: with the node of height `height`
      appended and linked in at the key's rank on each of its levels, and the
      level raised to cover it, the list is whole again and stands for the
      map with the new entry. */
  lemma InsertShaped<V>(maxLevel: nat, level: nat, header: seq<Option<nat>>, nodes: seq<Node<V>>,
                        lanes: seq<seq<nat>>, m: map<int, V>, key: int, value: V, height: nat,
                        level': nat, header': seq<Option<nat>>, nodes': seq<Node<V>>, lanes': seq<seq<nat>>)
    requires Shaped(maxLevel, level, header, nodes, lanes, m) && key !in m
    requires 1 <= height <= maxLevel + 1 && level' == if height - 1 > level then height - 1 else level
    requires |header'| == maxLevel + 1 && |lanes'| == maxLevel + 1
    requires KeysOf(nodes') == KeysOf(nodes) + [key] && ValuesOf(nodes') == ValuesOf(nodes) + [value]
    requires HeightsOf(nodes') == HeightsOf(nodes) + [height]
    requires forall i :: 0 <= i <= maxLevel ==> Chained(header', nodes', lanes'[i], i)
    requires forall i :: 0 <= i < height ==> lanes'[i] == InsertAt(lanes[i], Rank(KeysOf(nodes), lanes[i], key), |nodes|)
    requires forall i :: height <= i <= maxLevel ==> lanes'[i] == lanes[i]
    ensures Shaped(maxLevel, level', header', nodes', lanes', m[key := value])
  {
    var keys := KeysOf(nodes);
    var n := |nodes|;
    forall i, h | 0 <= i < |lanes|
      ensures h in lanes'[i] <==> h in lanes[i] || (h == n && i < height)
    {
      if i < height {
        InsertAtMembers(lanes[i], Rank(keys, lanes[i], key), n, h);
      } else {
        assert Chained(header, nodes, lanes[i], i);
        FreshHandle(keys, lanes[i]);
      }
    }
    InsertNested(HeightsOf(nodes), lanes, lanes', n, height);
    assert Chained(header, nodes, lanes[0], 0);
    InsertAbstracts(keys, ValuesOf(nodes), lanes[0], m, Rank(keys, lanes[0], key), key, value);
    assert lanes'[height - 1] != [];
  }

  /** The end of the unlinking in `delete` for a stored key: with its node
      unlinked from every level, the list stands for the map without the key,
      though its top level in use may now be empty. */
  lemma DeleteLoose<V>(maxLevel: nat, level: nat, header: seq<Option<nat>>, nodes: seq<Node<V>>,
                       lanes: seq<seq<nat>>, m: map<int, V>, key: int,
                       header': seq<Option<nat>>, nodes': seq<Node<V>>, lanes': seq<seq<nat>>)
    requires Shaped(maxLevel, level, header, nodes, lanes, m) && key in m
    requires |header'| == maxLevel + 1 && |lanes'| == maxLevel + 1
    requires KeysOf(nodes') == KeysOf(nodes) && ValuesOf(nodes') == ValuesOf(nodes)
    requires HeightsOf(nodes') == HeightsOf(nodes)
    requires forall i :: 0 <= i <= maxLevel ==> Chained(header', nodes', lanes'[i], i)
    requires forall i :: 0 <= i <= maxLevel ==> lanes'[i] == Unlinked(KeysOf(nodes), lanes[i], key)
    ensures Loose(maxLevel, level, header', nodes', lanes', m - {key})
  {
    var keys := KeysOf(nodes);
    assert Chained(header, nodes, lanes[0], 0);
    AbstractsOnlyLaneKeys(keys, ValuesOf(nodes), lanes[0], m, key);
    var c :| 0 <= c < |lanes[0]| && keys[lanes[0][c]] == key;
    var x := lanes[0][c];
    HolderOnLanes(maxLevel, level, header, nodes, lanes, m, key, c);
    forall i, h | 0 <= i < |lanes|
      ensures h in lanes'[i] <==> h in lanes[i] && h != x
    {
      assert Chained(header, nodes, lanes[i], i);
      UnlinkedMembers(keys, lanes[i], key, h);
      if h in lanes[i] {
        var q :| 0 <= q < |lanes[i]| && lanes[i][q] == h;
        assert OnlyHolder(keys, lanes[i], key, x);
        assert keys[lanes[i][q]] == key ==> h == x;
      }
    }
    RemoveNested(HeightsOf(nodes), lanes, lanes', x);
    UnlinkAbstracts(keys, ValuesOf(nodes), lanes[0], m, key);
    forall i | level < i <= maxLevel
      ensures lanes'[i] == []
    {
      assert lanes[i] == [];
    }
  }

  /** Overwriting the value of a node on level 0 stands for overwriting its
      key's entry; the links and the keys, and with them every chain, stay. */
  lemma SetValueShaped<V>(maxLevel: nat, level: nat, header: seq<Option<nat>>, nodes: seq<Node<V>>,
                          lanes: seq<seq<nat>>, m: map<int, V>, c: nat, value: V)
    requires Shaped(maxLevel, level, header, nodes, lanes, m)
    requires c < |lanes[0]| && lanes[0][c] < |nodes|
    ensures var x := lanes[0][c];
      Shaped(maxLevel, level, header, nodes[x := nodes[x].(value := value)], lanes, m[nodes[x].key := value])
  {
    var x := lanes[0][c];
    var nodes' := nodes[x := nodes[x].(value := value)];
    var keys := KeysOf(nodes);
    var m' := m[nodes[x].key := value];
    assert KeysOf(nodes') == keys;
    assert HeightsOf(nodes') == HeightsOf(nodes);
    assert ValuesOf(nodes') == ValuesOf(nodes)[x := value];
    forall i | 0 <= i <= maxLevel
      ensures Chained(header, nodes', lanes[i], i)
    {
      assert Chained(header, nodes, lanes[i], i);
    }
    assert Chained(header, nodes, lanes[0], 0);
    assert keys[lanes[0][c]] in m;
    forall j | 0 <= j < |lanes[0]|
      ensures keys[lanes[0][j]] in m' && m'[keys[lanes[0][j]]] == ValuesOf(nodes')[lanes[0][j]]
    {
      if j != c {
        assert lanes[0][j] != x && keys[lanes[0][j]] != keys[x] by {
          if j < c {
            assert keys[lanes[0][j]] < keys[lanes[0][c]];
          } else {
            assert keys[lanes[0][c]] < keys[lanes[0][j]];
          }
        }
      }
    }
  }
}
