/** The link graph of a skip list, described on values.

    Nodes live in an arena (a sequence) and are named by their index, their
    handle. Level `i` of the structure is a chain: the header's slot `i` leads
    to the first node on that level, each node's `forward[i]` leads to the
    next one, and the last one's leads nowhere. A ghost "lane" is the sequence
    of handles met along that chain. The predicates here say when a lane
    spells out the links of one level, and the lemmas say how rewriting one
    forward slot, as insertion and deletion do, turns one lane into another. */
module Lanes {

  datatype Option<T> = None | Some(value: T)

  /** One stored key/value pair and its forward links, one per level it is
      linked on: `forward[i]` is the handle of the next node on level `i`. */
  datatype Node<V> = Node(key: int, value: V, forward: seq<Option<nat>>)

  /** Where a scan stands: on the header sentinel or on a node of the arena. */
  datatype Ref = Head | At(handle: nat)

  function KeysOf<V>(nodes: seq<Node<V>>): seq<int> {
    seq(|nodes|, h requires 0 <= h < |nodes| => nodes[h].key)
  }

  function ValuesOf<V>(nodes: seq<Node<V>>): seq<V> {
    seq(|nodes|, h requires 0 <= h < |nodes| => nodes[h].value)
  }

  /** The number of levels each node is linked on. */
  function HeightsOf<V>(nodes: seq<Node<V>>): seq<nat> {
    seq(|nodes|, h requires 0 <= h < |nodes| => |nodes[h].forward|)
  }

  /** The link that follows the first `c` handles of a lane. */
  function After(lane: seq<nat>, c: nat): Option<nat> {
    if c < |lane| then Some(lane[c]) else None
  }

  /** The place reached after stepping over the first `c` handles of a lane. */
  function RefAt(lane: seq<nat>, c: nat): Ref
    requires c <= |lane|
  {
    if c == 0 then Head else At(lane[c - 1])
  }

  predicate Linkable<V>(header: seq<Option<nat>>, nodes: seq<Node<V>>, r: Ref, i: nat) {
    match r
    case Head => i < |header|
    case At(h) => h < |nodes| && i < |nodes[h].forward|
  }

  /** `r.forward[i]`, where `r` may be the header. */
  function Link<V>(header: seq<Option<nat>>, nodes: seq<Node<V>>, r: Ref, i: nat): Option<nat>
    requires Linkable(header, nodes, r, i)
  {
    match r
    case Head => header[i]
    case At(h) => nodes[h].forward[i]
  }

  /** The header and arena after `r.forward[i] = t`: that one slot changes. */
  function Relink<V>(header: seq<Option<nat>>, nodes: seq<Node<V>>, r: Ref, i: nat, t: Option<nat>)
    : (res: (seq<Option<nat>>, seq<Node<V>>))
    requires Linkable(header, nodes, r, i)
    ensures |res.0| == |header| && |res.1| == |nodes|
    ensures res.0 == if r == Head then header[i := t] else header
    ensures forall h :: 0 <= h < |nodes| && r != At(h) ==> res.1[h] == nodes[h]
    ensures r.At? ==> res.1[r.handle] == nodes[r.handle].(forward := nodes[r.handle].forward[i := t])
  {
    match r
    case Head => (header[i := t], nodes)
    case At(h) => (header, nodes[h := nodes[h].(forward := nodes[h].forward[i := t])])
  }

  ghost predicate InArena(keys: seq<int>, lane: seq<nat>) {
    forall j :: 0 <= j < |lane| ==> lane[j] < |keys|
  }

  /** Keys strictly increase along the lane (so no handle and no key occurs twice). */
  ghost predicate Ascending(keys: seq<int>, lane: seq<nat>) {
    && InArena(keys, lane)
    && forall j, k {:trigger keys[lane[j]], keys[lane[k]]} :: 0 <= j < k < |lane| ==> keys[lane[j]] < keys[lane[k]]
  }

  /** `lane` is exactly the chain of level `i`: the header's link starts it
      and each node's link leads to the next handle, the last to nothing. */
  ghost predicate Linked<V>(header: seq<Option<nat>>, nodes: seq<Node<V>>, lane: seq<nat>, i: nat) {
    && i < |header|
    && header[i] == After(lane, 0)
    && InArena(KeysOf(nodes), lane)
    && forall j {:trigger nodes[lane[j]]} :: 0 <= j < |lane| ==>
         i < |nodes[lane[j]].forward| && nodes[lane[j]].forward[i] == After(lane, j + 1)
  }

  /** `lane` is exactly the chain of level `i`, and it is sorted. */
  ghost predicate Chained<V>(header: seq<Option<nat>>, nodes: seq<Node<V>>, lane: seq<nat>, i: nat) {
    Linked(header, nodes, lane, i) && Ascending(KeysOf(nodes), lane)
  }

  /** The lanes of all levels: a node on any level is on level 0 and is
      taller than that level, and a node on level 0 is on every level below
      its height, which does not exceed the number of levels. */
  ghost predicate Nested(heights: seq<nat>, lanes: seq<seq<nat>>) {
    && |lanes| > 0
    && (forall i, j {:trigger heights[lanes[i][j]]} :: 0 <= i < |lanes| && 0 <= j < |lanes[i]| ==>
          lanes[i][j] in lanes[0] && lanes[i][j] < |heights| && i < heights[lanes[i][j]])
    && (forall j {:trigger heights[lanes[0][j]]} :: 0 <= j < |lanes[0]| ==>
          lanes[0][j] < |heights| && heights[lanes[0][j]] <= |lanes|)
    && (forall i, j {:trigger heights[lanes[0][j]], lanes[i]} ::
          0 <= i < |lanes| && 0 <= j < |lanes[0]| && lanes[0][j] < |heights| && i < heights[lanes[0][j]] ==>
          lanes[0][j] in lanes[i])
  }

  /** The map a lane stands for: each node's key maps to its value, and `m`
      has no more entries than the lane has nodes. */
  ghost predicate Abstracts<V>(keys: seq<int>, values: seq<V>, lane: seq<nat>, m: map<int, V>) {
    && |m| == |lane|
    && forall j {:trigger keys[lane[j]]} :: 0 <= j < |lane| ==>
         lane[j] < |keys| && lane[j] < |values| && keys[lane[j]] in m && m[keys[lane[j]]] == values[lane[j]]
  }

  /** The representation invariant of a whole skip list with levels
      `0..maxLevel`, `level` of them in use, short of its demand on the top
      level in use: every level is a sorted chain, the lanes nest by node
      height, the levels above `level` are empty, and level 0 stands for the
      map `m`. */
  ghost predicate Loose<V>(maxLevel: nat, level: nat, header: seq<Option<nat>>, nodes: seq<Node<V>>,
                           lanes: seq<seq<nat>>, m: map<int, V>) {
    && |header| == maxLevel + 1
    && |lanes| == maxLevel + 1
    && level <= maxLevel
    && (forall i :: 0 <= i <= maxLevel ==> Chained(header, nodes, lanes[i], i))
    && Nested(HeightsOf(nodes), lanes)
    && (forall i :: level < i <= maxLevel ==> lanes[i] == [])
    && Abstracts(KeysOf(nodes), ValuesOf(nodes), lanes[0], m)
  }

  /** The representation invariant of a whole skip list: `Loose`, and level
      `level` (unless it is 0) is not empty. */
  ghost predicate Shaped<V>(maxLevel: nat, level: nat, header: seq<Option<nat>>, nodes: seq<Node<V>>,
                            lanes: seq<seq<nat>>, m: map<int, V>) {
    Loose(maxLevel, level, header, nodes, lanes, m) && (level == 0 || lanes[level] != [])
  }

  /** Where the scan stands before it walks a level: the header, or a node of
      the lane whose key is below the target. */
  ghost predicate OnLaneBelow(keys: seq<int>, lane: seq<nat>, r: Ref, key: int) {
    r.At? ==> r.handle in lane && r.handle < |keys| && keys[r.handle] < key
  }

  /** The predecessor of `key` on level `i`: it stands on the lane below the
      key, and its link on that level is absent or leads to a key not below. */
  ghost predicate Precedes<V>(header: seq<Option<nat>>, nodes: seq<Node<V>>, lane: seq<nat>, i: nat, r: Ref, key: int) {
    && OnLaneBelow(KeysOf(nodes), lane, r, key)
    && Linkable(header, nodes, r, i)
    && (Link(header, nodes, r, i).Some? ==>
          Link(header, nodes, r, i).value < |nodes| && key <= nodes[Link(header, nodes, r, i).value].key)
  }

  /** Where a walk along the lane that starts after `c` handles stops: at
      the first handle from there whose key is not below `key`, or at the end. */
  function RankFrom(keys: seq<int>, lane: seq<nat>, key: int, c: nat): (r: nat)
    requires InArena(keys, lane) && c <= |lane|
    ensures c <= r <= |lane|
    ensures forall j {:trigger keys[lane[j]]} :: c <= j < r ==> keys[lane[j]] < key
    ensures r < |lane| ==> key <= keys[lane[r]]
    decreases |lane| - c
  {
    if c == |lane| || key <= keys[lane[c]] then c else RankFrom(keys, lane, key, c + 1)
  }

  /** How many handles at the front of the lane have keys below `key`: the
      length of the walk the scan makes on that level. */
  function Rank(keys: seq<int>, lane: seq<nat>, key: int): (c: nat)
    requires InArena(keys, lane)
    ensures c <= |lane|
    ensures forall j {:trigger keys[lane[j]]} :: 0 <= j < c ==> keys[lane[j]] < key
    ensures c < |lane| ==> key <= keys[lane[c]]
  {
    RankFrom(keys, lane, key, 0)
  }

  /** On a sorted lane, every handle from the rank on has a key at or above the target. */
  lemma RankSplits(keys: seq<int>, lane: seq<nat>, key: int)
    requires Ascending(keys, lane)
    ensures forall j {:trigger keys[lane[j]]} :: Rank(keys, lane, key) <= j < |lane| ==> key <= keys[lane[j]]
  {
    var c := Rank(keys, lane, key);
    forall j | c <= j < |lane| ensures key <= keys[lane[j]] {
      if c < j {
        assert keys[lane[c]] < keys[lane[j]];
      }
    }
  }

  /** On a sorted lane, a handle whose key is below `key` lies before the rank. */
  lemma BelowRank(keys: seq<int>, lane: seq<nat>, key: int, q: nat)
    requires Ascending(keys, lane) && q < |lane| && keys[lane[q]] < key
    ensures q < Rank(keys, lane, key)
  {
    RankSplits(keys, lane, key);
  }

  /** A walk still short of the rank passes a key below `key`. */
  lemma RankPasses(keys: seq<int>, lane: seq<nat>, key: int, c: nat)
    requires InArena(keys, lane) && c < |lane| && c <= Rank(keys, lane, key)
    requires keys[lane[c]] < key
    ensures c + 1 <= Rank(keys, lane, key)
  {
  }

  /** A walk that has not passed the rank and stops at the lane's end or at a
      key not below `key` has walked exactly the rank. */
  lemma RankStops(keys: seq<int>, lane: seq<nat>, key: int, c: nat)
    requires InArena(keys, lane) && c <= Rank(keys, lane, key)
    requires c < |lane| ==> key <= keys[lane[c]]
    ensures c == Rank(keys, lane, key)
  {
  }

  /** Rank reads only the keys of the lane's own nodes. */
  lemma {:induction false} RankFrame(keys: seq<int>, keys': seq<int>, lane: seq<nat>, key: int)
    requires InArena(keys, lane) && |keys| <= |keys'|
    requires forall h :: 0 <= h < |keys| ==> keys'[h] == keys[h]
    ensures InArena(keys', lane) && Rank(keys', lane, key) == Rank(keys, lane, key)
  {
    RankFromFrame(keys, keys', lane, key, 0);
  }

  lemma {:induction false} RankFromFrame(keys: seq<int>, keys': seq<int>, lane: seq<nat>, key: int, c: nat)
    requires InArena(keys, lane) && |keys| <= |keys'| && c <= |lane|
    requires forall h :: 0 <= h < |keys| ==> keys'[h] == keys[h]
    ensures InArena(keys', lane) && RankFrom(keys', lane, key, c) == RankFrom(keys, lane, key, c)
    decreases |lane| - c
  {
    if c < |lane| && keys[lane[c]] < key {
      RankFromFrame(keys, keys', lane, key, c + 1);
    }
  }

  /** Following link `i` from the place reached after `c` handles gives the next handle. */
  lemma LinkAfter<V>(header: seq<Option<nat>>, nodes: seq<Node<V>>, lane: seq<nat>, i: nat, c: nat)
    requires Linked(header, nodes, lane, i) && c <= |lane|
    ensures Linkable(header, nodes, RefAt(lane, c), i)
    ensures Link(header, nodes, RefAt(lane, c), i) == After(lane, c)
    ensures c < |lane| ==> lane[c] < |nodes| && KeysOf(nodes)[lane[c]] == nodes[lane[c]].key
  {
    if c > 0 {
      assert lane[c - 1] < |KeysOf(nodes)|;
    }
  }

  /** The place reached after stepping over exactly the handles whose keys
      are below `key` is a predecessor of `key` on that level. */
  lemma RankPrecedes<V>(header: seq<Option<nat>>, nodes: seq<Node<V>>, lane: seq<nat>, i: nat, key: int)
    requires Linked(header, nodes, lane, i)
    ensures Precedes(header, nodes, lane, i, RefAt(lane, Rank(KeysOf(nodes), lane, key)), key)
  {
    var c := Rank(KeysOf(nodes), lane, key);
    LinkAfter(header, nodes, lane, i, c);
    if c > 0 {
      assert lane[c - 1] in lane;
    }
  }

  /** A predecessor of `key` on a level is that place: there is only one. */
  lemma PrecedesAtRank<V>(header: seq<Option<nat>>, nodes: seq<Node<V>>, lane: seq<nat>, i: nat, r: Ref, key: int)
    requires Chained(header, nodes, lane, i)
    requires Precedes(header, nodes, lane, i, r, key)
    ensures r == RefAt(lane, Rank(KeysOf(nodes), lane, key))
  {
    var keys := KeysOf(nodes);
    RankSplits(keys, lane, key);
    var q := 0;
    if r.At? {
      q :| 0 <= q < |lane| && lane[q] == r.handle;
      q := q + 1;
    }
    LinkAfter(header, nodes, lane, i, q);
    assert r == RefAt(lane, q);
    if q < |lane| {
      assert key <= keys[lane[q]];
    }
    if q > 0 {
      assert keys[lane[q - 1]] < key;
    }
  }

  /** On a sorted lane, the one node whose key equals the target sits exactly at the rank. */
  lemma KeyAtRank(keys: seq<int>, lane: seq<nat>, key: int, q: nat)
    requires Ascending(keys, lane) && q < |lane| && keys[lane[q]] == key
    ensures q == Rank(keys, lane, key)
  {
    RankSplits(keys, lane, key);
  }

  /** Rewriting a slot of level `i` leaves the chain of every other level as it was. */
  lemma RelinkKeepsOtherChains<V>(header: seq<Option<nat>>, nodes: seq<Node<V>>, lane: seq<nat>, k: nat,
                                  r: Ref, i: nat, t: Option<nat>,
                                  header': seq<Option<nat>>, nodes': seq<Node<V>>)
    requires Chained(header, nodes, lane, k) && i != k && Linkable(header, nodes, r, i)
    requires (header', nodes') == Relink(header, nodes, r, i, t)
    ensures Chained(header', nodes', lane, k)
  {
    assert KeysOf(nodes') == KeysOf(nodes);
  }

  /** `lane` with handle `n` inserted at position `c`. */
  function InsertAt(lane: seq<nat>, c: nat, n: nat): (lane': seq<nat>)
    requires c <= |lane|
    ensures |lane'| == |lane| + 1 && lane'[c] == n
    ensures forall j :: 0 <= j < c ==> lane'[j] == lane[j]
    ensures forall j :: c < j < |lane'| ==> lane'[j] == lane[j - 1]
  {
    lane[..c] + [n] + lane[c..]
  }

  /** `lane` without the handle at position `c`. */
  function RemoveAt(lane: seq<nat>, c: nat): (lane': seq<nat>)
    requires c < |lane|
    ensures |lane'| == |lane| - 1
    ensures forall j :: 0 <= j < c ==> lane'[j] == lane[j]
    ensures forall j :: c <= j < |lane'| ==> lane'[j] == lane[j + 1]
  {
    lane[..c] + lane[c + 1..]
  }

  /** Putting a handle whose key lies strictly between its neighbours' into a sorted lane keeps it sorted. */
  lemma SpliceAscending(keys: seq<int>, lane: seq<nat>, c: nat, n: nat)
    requires Ascending(keys, lane) && c <= |lane| && n < |keys|
    requires forall j :: 0 <= j < c ==> keys[lane[j]] < keys[n]
    requires forall j :: c <= j < |lane| ==> keys[n] < keys[lane[j]]
    ensures Ascending(keys, InsertAt(lane, c, n))
  {
    var lane' := InsertAt(lane, c, n);
    forall j, k | 0 <= j < k < |lane'| ensures keys[lane'[j]] < keys[lane'[k]] {
      if k < c {
      } else if j < c && k == c {
      } else if j < c {
        assert keys[lane[j]] < keys[lane[k - 1]];
      } else if j == c {
      } else {
        assert keys[lane[j - 1]] < keys[lane[k - 1]];
      }
    }
  }

  /** The forward slots of level `i` after a splice, handle by handle. */
  lemma SpliceLinks<V>(keys: seq<int>, nodes: seq<Node<V>>, nodes2: seq<Node<V>>, lane: seq<nat>, i: nat, c: nat, n: nat)
    requires Ascending(keys, lane) && |keys| == |nodes| == |nodes2| && c <= |lane| && n < |nodes| && n !in lane
    requires forall j :: 0 <= j < |lane| ==>
      i < |nodes[lane[j]].forward| && nodes[lane[j]].forward[i] == After(lane, j + 1)
    requires forall h :: 0 <= h < |nodes| && h != n && (c == 0 || h != lane[c - 1]) ==> nodes2[h] == nodes[h]
    requires i < |nodes2[n].forward| && nodes2[n].forward[i] == After(lane, c)
    requires c > 0 ==> i < |nodes2[lane[c - 1]].forward| && nodes2[lane[c - 1]].forward[i] == Some(n)
    ensures var lane' := InsertAt(lane, c, n);
      forall j :: 0 <= j < |lane'| ==>
        i < |nodes2[lane'[j]].forward| && nodes2[lane'[j]].forward[i] == After(lane', j + 1)
  {
    var lane' := InsertAt(lane, c, n);
    forall j | 0 <= j < |lane'|
      ensures i < |nodes2[lane'[j]].forward| && nodes2[lane'[j]].forward[i] == After(lane', j + 1)
    {
      if j < c - 1 {
        var h := lane[j];
        assert h != lane[c - 1] by { assert keys[h] < keys[lane[c - 1]]; }
        assert h != n by { assert h in lane; }
      } else if j == c - 1 {
      } else if j == c {
        assert After(lane', j + 1) == After(lane, c);
      } else {
        var h := lane[j - 1];
        assert h != n by { assert h in lane; }
        if c > 0 {
          assert h != lane[c - 1] by { assert keys[lane[c - 1]] < keys[h]; }
        }
        assert After(lane', j + 1) == After(lane, j);
      }
    }
  }

  /** Splicing node `n` into level `i` after the first `c` handles, by first
      copying the predecessor's link into `n` and then pointing the
      predecessor at `n`, gives the lane with `n` inserted at position `c`. */
  lemma SpliceKeepsChain<V>(header: seq<Option<nat>>, nodes: seq<Node<V>>, lane: seq<nat>, i: nat, c: nat, n: nat,
                            header1: seq<Option<nat>>, nodes1: seq<Node<V>>,
                            header2: seq<Option<nat>>, nodes2: seq<Node<V>>)
    requires Chained(header, nodes, lane, i)
    requires c <= |lane| && n < |nodes| && i < |nodes[n].forward| && n !in lane
    requires forall j :: 0 <= j < c ==> nodes[lane[j]].key < nodes[n].key
    requires forall j :: c <= j < |lane| ==> nodes[n].key < nodes[lane[j]].key
    requires (header1, nodes1) == Relink(header, nodes, At(n), i, After(lane, c))
    requires Linkable(header1, nodes1, RefAt(lane, c), i)
    requires (header2, nodes2) == Relink(header1, nodes1, RefAt(lane, c), i, Some(n))
    ensures Chained(header2, nodes2, InsertAt(lane, c, n), i)
  {
    var keys := KeysOf(nodes);
    var lane' := InsertAt(lane, c, n);
    assert KeysOf(nodes1) == keys;
    assert KeysOf(nodes2) == keys;
    SpliceAscending(keys, lane, c, n);
    assert c > 0 ==> lane[c - 1] != n by {
      if c > 0 {
        assert lane[c - 1] in lane;
      }
    }
    SpliceLinks(keys, nodes, nodes2, lane, i, c, n);
    assert header2[i] == After(lane', 0) by {
      if c > 0 {
        assert lane[0] in lane;
      }
    }
  }

  /** Unlinking the node at position `c` of level `i`, by pointing its
      predecessor at the node's own successor, gives the lane without it. */
  lemma UnlinkKeepsChain<V>(header: seq<Option<nat>>, nodes: seq<Node<V>>, lane: seq<nat>, i: nat, c: nat,
                            header': seq<Option<nat>>, nodes': seq<Node<V>>)
    requires Chained(header, nodes, lane, i) && c < |lane|
    requires Linkable(header, nodes, RefAt(lane, c), i)
    requires (header', nodes') == Relink(header, nodes, RefAt(lane, c), i, nodes[lane[c]].forward[i])
    ensures Chained(header', nodes', RemoveAt(lane, c), i)
  {
    var keys := KeysOf(nodes);
    var lane' := RemoveAt(lane, c);
    assert KeysOf(nodes') == keys;
    assert Ascending(keys, lane') by {
      forall j, k | 0 <= j < k < |lane'| ensures keys[lane'[j]] < keys[lane'[k]] {
        if k < c {
        } else if j < c {
          assert keys[lane[j]] < keys[lane[k + 1]];
        } else {
          assert keys[lane[j + 1]] < keys[lane[k + 1]];
        }
      }
    }
    assert header'[i] == After(lane', 0) by {
      if c > 0 {
        assert lane[0] in lane;
      }
    }
    forall j | 0 <= j < |lane'|
      ensures i < |nodes'[lane'[j]].forward| && nodes'[lane'[j]].forward[i] == After(lane', j + 1)
    {
      if j < c - 1 {
        assert lane[j] != lane[c - 1] by { assert keys[lane[j]] < keys[lane[c - 1]]; }
      } else if j == c - 1 {
      } else {
        if c > 0 {
          assert lane[j + 1] != lane[c - 1] by { assert keys[lane[c - 1]] < keys[lane[j + 1]]; }
        }
      }
    }
  }

  /** The set of keys met along a lane. */
  function LaneKeys(keys: seq<int>, lane: seq<nat>): set<int>
    requires InArena(keys, lane)
  {
    if lane == [] then {} else {keys[lane[0]]} + LaneKeys(keys, lane[1..])
  }

  /** A lane meets exactly the keys of its handles. */
  lemma {:induction false} LaneKeysMembers(keys: seq<int>, lane: seq<nat>, k: int)
    requires InArena(keys, lane)
    ensures k in LaneKeys(keys, lane) <==> exists j :: 0 <= j < |lane| && keys[lane[j]] == k
  {
    if lane != [] {
      var tail := lane[1..];
      LaneKeysMembers(keys, tail, k);
      if k in LaneKeys(keys, tail) {
        var j :| 0 <= j < |tail| && keys[tail[j]] == k;
        assert keys[lane[j + 1]] == k;
      }
      if exists j :: 0 <= j < |lane| && keys[lane[j]] == k {
        var j :| 0 <= j < |lane| && keys[lane[j]] == k;
        if j > 0 {
          assert keys[tail[j - 1]] == k;
        }
      }
    }
  }

  /** A sorted lane meets as many distinct keys as it has handles. */
  lemma {:induction false} LaneKeysCount(keys: seq<int>, lane: seq<nat>)
    requires Ascending(keys, lane)
    ensures |LaneKeys(keys, lane)| == |lane|
  {
    if lane != [] {
      var tail := lane[1..];
      LaneKeysCount(keys, tail);
      LaneKeysMembers(keys, tail, keys[lane[0]]);
      forall j | 0 <= j < |tail| ensures keys[tail[j]] != keys[lane[0]] {
        assert keys[lane[0]] < keys[lane[j + 1]];
      }
    }
  }

  /** A map that a sorted lane abstracts holds nothing but the lane's keys. */
  lemma AbstractsOnlyLaneKeys<V>(keys: seq<int>, values: seq<V>, lane: seq<nat>, m: map<int, V>, k: int)
    requires Ascending(keys, lane) && Abstracts(keys, values, lane, m)
    ensures k in m <==> exists j :: 0 <= j < |lane| && keys[lane[j]] == k
  {
    var ks := LaneKeys(keys, lane);
    LaneKeysCount(keys, lane);
    LaneKeysMembers(keys, lane, k);
    assert ks <= m.Keys by {
      forall k' | k' in ks ensures k' in m.Keys {
        LaneKeysMembers(keys, lane, k');
        var j :| 0 <= j < |lane| && keys[lane[j]] == k';
      }
    }
    var rest := m.Keys - ks;
    assert m.Keys == ks + rest;
    assert |m.Keys| == |ks| + |rest|;
    assert |m.Keys| == |m|;
    assert rest == {};
  }

  /** A node on level `i` is on level 0 and taller than `i`. */
  lemma NestedAt(heights: seq<nat>, lanes: seq<seq<nat>>, i: nat, j: nat)
    requires Nested(heights, lanes) && i < |lanes| && j < |lanes[i]|
    ensures lanes[i][j] in lanes[0] && lanes[i][j] < |heights| && i < heights[lanes[i][j]]
    ensures heights[lanes[i][j]] <= |lanes|
  {
    var h := lanes[i][j];
    assert heights[h] == heights[lanes[i][j]] ==> i < heights[h];
    var q :| 0 <= q < |lanes[0]| && lanes[0][q] == h;
    assert heights[lanes[0][q]] <= |lanes|;
  }

  /** A node on level 0 is on every level below its height. */
  lemma NestedBelow(heights: seq<nat>, lanes: seq<seq<nat>>, i: nat, h: nat)
    requires Nested(heights, lanes) && i < |lanes| && h in lanes[0] && h < |heights| && i < heights[h]
    ensures h in lanes[i]
  {
    var q :| 0 <= q < |lanes[0]| && lanes[0][q] == h;
    assert i < heights[lanes[0][q]];
  }

  /** Handles added to or removed from lanes while the height relation is kept. */
  lemma InsertNested(heights: seq<nat>, lanes: seq<seq<nat>>, lanes': seq<seq<nat>>, n: nat, height: nat)
    requires Nested(heights, lanes) && n == |heights| && 1 <= height <= |lanes| && |lanes'| == |lanes|
    requires forall i, h :: 0 <= i < |lanes| ==> (h in lanes'[i] <==> h in lanes[i] || (h == n && i < height))
    ensures Nested(heights + [height], lanes')
  {
    var heights' := heights + [height];
    forall i, j | 0 <= i < |lanes'| && 0 <= j < |lanes'[i]|
      ensures lanes'[i][j] in lanes'[0] && lanes'[i][j] < |heights'| && i < heights'[lanes'[i][j]]
    {
      var h := lanes'[i][j];
      assert h in lanes'[i];
      if h != n {
        var q :| 0 <= q < |lanes[i]| && lanes[i][q] == h;
        NestedAt(heights, lanes, i, q);
      } else {
        forall q | 0 <= q < |lanes[i]| ensures lanes[i][q] != n {
          NestedAt(heights, lanes, i, q);
        }
        assert i < height && heights'[n] == height;
      }
    }
    forall j | 0 <= j < |lanes'[0]|
      ensures lanes'[0][j] < |heights'| && heights'[lanes'[0][j]] <= |lanes'|
    {
      var h := lanes'[0][j];
      assert h in lanes'[0];
      if h != n {
        var q :| 0 <= q < |lanes[0]| && lanes[0][q] == h;
        NestedAt(heights, lanes, 0, q);
      }
    }
    forall i, j | 0 <= i < |lanes'| && 0 <= j < |lanes'[0]| && lanes'[0][j] < |heights'| && i < heights'[lanes'[0][j]]
      ensures lanes'[0][j] in lanes'[i]
    {
      var h := lanes'[0][j];
      assert h in lanes'[0];
      if h != n {
        var q :| 0 <= q < |lanes[0]| && lanes[0][q] == h;
        NestedAt(heights, lanes, 0, q);
        NestedBelow(heights, lanes, i, h);
      } else {
        assert i < height;
      }
    }
  }

  lemma RemoveNested(heights: seq<nat>, lanes: seq<seq<nat>>, lanes': seq<seq<nat>>, x: nat)
    requires Nested(heights, lanes) && |lanes'| == |lanes|
    requires forall i, h :: 0 <= i < |lanes| ==> (h in lanes'[i] <==> h in lanes[i] && h != x)
    ensures Nested(heights, lanes')
  {
    forall i, j | 0 <= i < |lanes'| && 0 <= j < |lanes'[i]|
      ensures lanes'[i][j] in lanes'[0] && lanes'[i][j] < |heights| && i < heights[lanes'[i][j]]
    {
      var h := lanes'[i][j];
      assert h in lanes'[i];
      var q :| 0 <= q < |lanes[i]| && lanes[i][q] == h;
      NestedAt(heights, lanes, i, q);
    }
    forall j | 0 <= j < |lanes'[0]|
      ensures lanes'[0][j] < |heights| && heights[lanes'[0][j]] <= |lanes'|
    {
      var h := lanes'[0][j];
      assert h in lanes'[0];
      var q :| 0 <= q < |lanes[0]| && lanes[0][q] == h;
      NestedAt(heights, lanes, 0, q);
    }
    forall i, j | 0 <= i < |lanes'| && 0 <= j < |lanes'[0]| && lanes'[0][j] < |heights| && i < heights[lanes'[0][j]]
      ensures lanes'[0][j] in lanes'[i]
    {
      var h := lanes'[0][j];
      assert h in lanes'[0];
      var q :| 0 <= q < |lanes[0]| && lanes[0][q] == h;
      NestedAt(heights, lanes, 0, q);
      NestedBelow(heights, lanes, i, h);
    }
  }
}
