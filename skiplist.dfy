/** An ordered key-to-value map kept as a skip list.

    The nodes live in an arena addressed by handles; a node's `forward`
    sequence holds one link per level it is on, and the sentinel header's
    links (one per level up to `maxLevel`) start every level. The ghost
    `lanes` give, for each level, the handles met along its chain, and the
    ghost `Contents` is the map the structure stands for. */
module SkipLists {
  import opened Lanes
  import opened Reshape

  datatype KeyError = KeyError(key: int)

  /** What `__getitem__` gives: the value, or the KeyError it raises. */
  datatype Lookup<V> = Found(value: V) | Missing(error: KeyError)

  /** What `__delitem__` gives: nothing, or the KeyError it raises. */
  datatype Outcome = Pass | Fail(error: KeyError)

  /** `lvl` is what the draws `coin(0), coin(1), ...` give: one level for
      each leading successful draw, capped at `maxLevel`, where the loop's
      last draw is ignored. */
  ghost predicate LevelDrawn(coin: nat -> bool, maxLevel: nat, lvl: nat) {
    && lvl <= maxLevel
    && (forall j :: 0 <= j < lvl ==> coin(j))
    && (lvl == maxLevel || !coin(lvl))
  }

  /** The level the draws give when `lvl` levels are already won: keep
      drawing while a draw succeeds and `maxLevel` is not reached. */
  function LevelFrom(coin: nat -> bool, maxLevel: nat, lvl: nat): (r: nat)
    requires lvl <= maxLevel
    ensures lvl <= r <= maxLevel
    decreases maxLevel - lvl
  {
    if coin(lvl) && lvl < maxLevel then LevelFrom(coin, maxLevel, lvl + 1) else lvl
  }

  /** Drawing from `lvl` on, after `lvl` successful draws, gives a drawn
      level, and the only one. */
  lemma {:induction false} LevelFromDrawn(coin: nat -> bool, maxLevel: nat, lvl: nat)
    requires lvl <= maxLevel && forall j :: 0 <= j < lvl ==> coin(j)
    ensures LevelDrawn(coin, maxLevel, LevelFrom(coin, maxLevel, lvl))
    ensures forall l :: lvl <= l && LevelDrawn(coin, maxLevel, l) ==> l == LevelFrom(coin, maxLevel, lvl)
    decreases maxLevel - lvl
  {
    if coin(lvl) && lvl < maxLevel {
      LevelFromDrawn(coin, maxLevel, lvl + 1);
      forall l | lvl <= l && LevelDrawn(coin, maxLevel, l) ensures l == LevelFrom(coin, maxLevel, lvl) {
        assert l != lvl;
      }
    }
  }

  /** The draws name exactly one level: `LevelFrom` from no level won. */
  lemma LevelDrawnUnique(coin: nat -> bool, maxLevel: nat, l: nat)
    ensures LevelDrawn(coin, maxLevel, l) <==> l == LevelFrom(coin, maxLevel, 0)
  {
    LevelFromDrawn(coin, maxLevel, 0);
  }

  /** `_Node(level, key, value)`: a node on levels `0..level`, not yet
      linked to anything on any of them. */
  method NewNode<V>(level: nat, key: int, value: V) returns (node: Node<V>)
    ensures node.key == key && node.value == value && |node.forward| == level + 1
    ensures forall i :: 0 <= i <= level ==> node.forward[i] == None
  {
    node := Node(key, value, seq(level + 1, _ => None));
  }

  class SkipList<V> {
    /** The highest level a node may be on (levels are 0..maxLevel). */
    const maxLevel: nat
    /** The highest level currently in use. */
    var level: nat
    /** The header sentinel's forward links. */
    var header: seq<Option<nat>>
    /** The node arena. */
    var nodes: seq<Node<V>>

    ghost var lanes: seq<seq<nat>>
    ghost var Contents: map<int, V>

    ghost predicate Valid()
      reads this
    {
      Shaped(maxLevel, level, header, nodes, lanes, Contents)
    }

    /** `update[i]` of the scan: the predecessor of `key` on level `i`. */
    ghost predicate IsPredecessor(r: Ref, i: nat, key: int)
      reads this
    {
      i < |lanes| && Precedes(header, nodes, lanes[i], i, r, key)
    }

    constructor (maxLevel: nat := 16)
      ensures Valid() && this.maxLevel == maxLevel
      ensures level == 0 && Contents == map[]
    {
      this.maxLevel := maxLevel;
      level := 0;
      header := seq(maxLevel + 1, _ => None);
      nodes := [];
      lanes := seq(maxLevel + 1, _ => []);
      Contents := map[];
      new;
      assert lanes[0] == [];
      assert Abstracts(KeysOf(nodes), ValuesOf(nodes), lanes[0], Contents);
    }

    /** `_random_level`, with the draws `random() < p` given as `coin`. */
    method RandomLevel(coin: nat -> bool) returns (lvl: nat)
      ensures lvl == LevelFrom(coin, maxLevel, 0)
    {
      lvl := 0;
      while coin(lvl) && lvl < maxLevel
        invariant lvl <= maxLevel
        invariant LevelFrom(coin, maxLevel, lvl) == LevelFrom(coin, maxLevel, 0)
        decreases maxLevel - lvl
      {
        lvl := lvl + 1;
      }
    }

    /** Walks level `i` from `start`, the place after `from` handles of that
        level, while the next key is below `key`. */
    method Advance(start: Ref, i: nat, key: int, ghost from: nat) returns (x: Ref)
      requires i < |lanes| && Linked(header, nodes, lanes[i], i)
      requires from <= Rank(KeysOf(nodes), lanes[i], key) && start == RefAt(lanes[i], from)
      ensures IsPredecessor(x, i, key)
      ensures x == RefAt(lanes[i], Rank(KeysOf(nodes), lanes[i], key))
    {
      ghost var lane := lanes[i];
      ghost var keys := KeysOf(nodes);
      ghost var c: nat := from;
      x := start;
      LinkAfter(header, nodes, lane, i, c);
      var next := Link(header, nodes, x, i);
      while next.Some? && nodes[next.value].key < key
        invariant c <= Rank(keys, lane, key) && x == RefAt(lane, c) && next == After(lane, c)
        decreases |lane| - c
      {
        RankPasses(keys, lane, key, c);
        x := At(next.value);
        c := c + 1;
        LinkAfter(header, nodes, lane, i, c);
        next := Link(header, nodes, x, i);
      }
      RankStops(keys, lane, key, c);
      RankPrecedes(header, nodes, lane, i, key);
    }

    /** Every level of a valid list is linked along its lane. */
    lemma LinkedAt(i: nat)
      requires Valid() && i <= maxLevel
      ensures Linked(header, nodes, lanes[i], i)
    {
      assert Chained(header, nodes, lanes[i], i);
    }

    /** The predecessor of `key` on level `i` stands on level `i - 1` too, no
        further along than the predecessor there: the place to resume from. */
    lemma Descend(i: nat, key: int) returns (from: nat)
      requires Valid() && 0 < i <= maxLevel
      ensures from <= Rank(KeysOf(nodes), lanes[i - 1], key)
      ensures RefAt(lanes[i - 1], from) == RefAt(lanes[i], Rank(KeysOf(nodes), lanes[i], key))
    {
      var keys := KeysOf(nodes);
      var c := Rank(keys, lanes[i], key);
      from := 0;
      if c > 0 {
        var h := lanes[i][c - 1];
        NestedAt(HeightsOf(nodes), lanes, i, c - 1);
        NestedBelow(HeightsOf(nodes), lanes, i - 1, h);
        assert Chained(header, nodes, lanes[i - 1], i - 1);
        var q :| 0 <= q < |lanes[i - 1]| && lanes[i - 1][q] == h;
        BelowRank(keys, lanes[i - 1], key, q);
        from := q + 1;
      }
    }

    /** `_find_updates`: top-down, on every level in use, the place after the
        nodes whose keys are below `key`; `PredecessorAt` shows that place is
        the predecessor of `key` there. */
    method FindUpdates(key: int) returns (update: seq<Ref>)
      requires Valid()
      ensures |update| == maxLevel + 1
      ensures forall i :: 0 <= i <= level ==> update[i] == RefAt(lanes[i], Rank(KeysOf(nodes), lanes[i], key))
    {
      update := seq(maxLevel + 1, _ => Head);
      var x := Head;
      ghost var keys, from: nat := KeysOf(nodes), 0;
      for i := level + 1 downto 0
        invariant |update| == maxLevel + 1
        invariant forall j :: i <= j <= level ==> update[j] == RefAt(lanes[j], Rank(keys, lanes[j], key))
        invariant i > 0 ==> from <= Rank(keys, lanes[i - 1], key) && x == RefAt(lanes[i - 1], from)
      {
        LinkedAt(i);
        x := Advance(x, i, key, from);
        update := update[i := x];
        if i > 0 {
          from := Descend(i, key);
        }
      }
    }

    /** On a valid list the place after the nodes of level `i` whose keys are
        below `key` is the predecessor of `key` there, and the only one. */
    lemma PredecessorAt(i: nat, key: int)
      requires Valid() && i <= maxLevel
      ensures IsPredecessor(RefAt(lanes[i], Rank(KeysOf(nodes), lanes[i], key)), i, key)
      ensures forall r :: IsPredecessor(r, i, key) ==> r == RefAt(lanes[i], Rank(KeysOf(nodes), lanes[i], key))
    {
      assert Chained(header, nodes, lanes[i], i);
      RankPrecedes(header, nodes, lanes[i], i, key);
      forall r | IsPredecessor(r, i, key)
        ensures r == RefAt(lanes[i], Rank(KeysOf(nodes), lanes[i], key))
      {
        PrecedesAtRank(header, nodes, lanes[i], i, r, key);
      }
    }

    /** On a valid list, the node after the level-0 predecessor holds `key`
        exactly when `key` is stored, and then it holds its value. */
    lemma NextAtLevelZero(key: int)
      requires Valid()
      ensures var c := Rank(KeysOf(nodes), lanes[0], key);
        && (key in Contents <==> c < |lanes[0]| && nodes[lanes[0][c]].key == key)
        && (key in Contents ==> Contents[key] == nodes[lanes[0][c]].value)
    {
      var keys := KeysOf(nodes);
      var lane := lanes[0];
      var c := Rank(keys, lane, key);
      assert Chained(header, nodes, lane, 0);
      AbstractsOnlyLaneKeys(keys, ValuesOf(nodes), lane, Contents, key);
      if key in Contents {
        var q :| 0 <= q < |lane| && keys[lane[q]] == key;
        KeyAtRank(keys, lane, key, q);
      }
    }

    /** `search`: the value stored under `key`, if any. */
    method Search(key: int) returns (r: Option<V>)
      requires Valid()
      ensures r == if key in Contents then Some(Contents[key]) else None
    {
      var x := Head;
      ghost var from: nat := 0;
      var i := level + 1;
      while i > 0
        invariant 0 <= i <= level + 1
        invariant i > 0 ==> from <= Rank(KeysOf(nodes), lanes[i - 1], key) && x == RefAt(lanes[i - 1], from)
        invariant i == 0 ==> x == RefAt(lanes[0], Rank(KeysOf(nodes), lanes[0], key))
      {
        i := i - 1;
        LinkedAt(i);
        x := Advance(x, i, key, from);
        if i > 0 {
          from := Descend(i, key);
        }
      }
      assert Chained(header, nodes, lanes[0], 0);
      LinkAfter(header, nodes, lanes[0], 0, Rank(KeysOf(nodes), lanes[0], key));
      NextAtLevelZero(key);
      var y := Link(header, nodes, x, 0);
      if y.Some? && nodes[y.value].key == key {
        r := Some(nodes[y.value].value);
      } else {
        r := None;
      }
    }

    /** `r.forward[i] = t` on the header or a node. */
    method SetLink(r: Ref, i: nat, t: Option<nat>)
      requires Linkable(header, nodes, r, i)
      modifies this`header, this`nodes
      ensures (header, nodes) == Relink(old(header), old(nodes), r, i, t)
    {
      match r
      case Head =>
        header := header[i := t];
      case At(h) =>
        nodes := nodes[h := nodes[h].(forward := nodes[h].forward[i := t])];
    }

    /** `insert`: stores `value` under `key`. A stored key keeps its node and
        only that node's value changes. A new key gets a node as tall as the
        level `coin` draws, linked in on each of its levels right after the
        key's predecessor there, and the level in use grows to cover it. */
    method Insert(key: int, value: V, coin: nat -> bool)
      requires Valid()
      modifies this
      ensures Valid() && Contents == old(Contents)[key := value]
      ensures key in old(Contents) ==>
        && level == old(level) && header == old(header) && lanes == old(lanes)
        && |nodes| == old(|nodes|) && KeysOf(nodes) == old(KeysOf(nodes))
        && forall h :: 0 <= h < |nodes| ==> nodes[h].forward == old(nodes[h].forward)
      ensures key !in old(Contents) ==>
        var n, top := old(|nodes|), LevelFrom(coin, maxLevel, 0);
        && |nodes| == n + 1 && KeysOf(nodes) == old(KeysOf(nodes)) + [key] && nodes[n].value == value
        && |nodes[n].forward| == top + 1
        && level == (if top > old(level) then top else old(level))
        && (forall i :: 0 <= i <= top ==>
             lanes[i] == InsertAt(old(lanes[i]), Rank(old(KeysOf(nodes)), old(lanes[i]), key), n))
        && (forall i :: top < i <= maxLevel ==> lanes[i] == old(lanes[i]))
    {
      var update := FindUpdates(key);
      ghost var keys0, lanes0 := KeysOf(nodes), lanes;
      ghost var c0 := Rank(keys0, lanes0[0], key);
      assert Chained(header, nodes, lanes[0], 0);
      LinkAfter(header, nodes, lanes[0], 0, c0);
      NextAtLevelZero(key);
      var x := Link(header, nodes, update[0], 0);
      if x.Some? && nodes[x.value].key == key {
        SetValue(x.value, c0, value);
        return;
      }

      AbsentOffLanes(maxLevel, level, header, nodes, lanes, Contents, key);
      var newLevel := RandomLevel(coin);
      AddNode(update, key, value, newLevel);
    }

    /** The first half of `insert`, for a key already stored in node `x`,
        the `c`-th of level 0: only that node's value changes. */
    method SetValue(x: nat, ghost c: nat, value: V)
      requires Valid() && c < |lanes[0]| && lanes[0][c] == x
      modifies this`nodes, this`Contents
      ensures Valid() && Contents == old(Contents)[old(KeysOf(nodes)[x]) := value]
      ensures |nodes| == old(|nodes|) && KeysOf(nodes) == old(KeysOf(nodes))
      ensures forall h :: 0 <= h < |nodes| ==> nodes[h].forward == old(nodes[h].forward)
      ensures nodes[x].value == value
      ensures forall h :: 0 <= h < |nodes| && h != x ==> nodes[h] == old(nodes[h])
    {
      assert Chained(header, nodes, lanes[0], 0);
      SetValueShaped(maxLevel, level, header, nodes, lanes, Contents, c, value);
      nodes, Contents := nodes[x := nodes[x].(value := value)], Contents[nodes[x].key := value];
    }

    /** The second half of `insert`, for a key not stored yet: a node of a
        height `newLevel + 1` is made for it, the level in use is raised
        to `newLevel`, and the node is spliced in after `update[i]` on each of its
        levels. */
    method AddNode(update: seq<Ref>, key: int, value: V, newLevel: nat)
      requires Valid() && key !in Contents && |update| == maxLevel + 1 && newLevel <= maxLevel
      requires forall i :: 0 <= i <= maxLevel ==> KeyOff(KeysOf(nodes), lanes[i], key)
      requires forall i :: 0 <= i <= level ==>
        update[i] == RefAt(lanes[i], Rank(KeysOf(nodes), lanes[i], key))
      modifies this
      ensures Valid() && Contents == old(Contents)[key := value]
      ensures var n := old(|nodes|);
        && |nodes| == n + 1 && KeysOf(nodes) == old(KeysOf(nodes)) + [key] && nodes[n].value == value
        && |nodes[n].forward| == newLevel + 1
        && level == (if newLevel > old(level) then newLevel else old(level))
        && (forall i :: 0 <= i <= newLevel ==>
             lanes[i] == InsertAt(old(lanes[i]), Rank(old(KeysOf(nodes)), old(lanes[i]), key), n))
        && (forall i :: newLevel < i <= maxLevel ==> lanes[i] == old(lanes[i]))
    {
      ghost var keys0, lanes0 := KeysOf(nodes), lanes;
      assert forall i :: level < i <= maxLevel ==> lanes0[i] == [];
      var node := NewNode(newLevel, key, value);
      var ups := RaiseUpdates(update, newLevel);
      forall j | level < j <= newLevel
        ensures ups[j] == RefAt(lanes0[j], Rank(keys0, lanes0[j], key))
      {
        assert lanes0[j] == [];
      }
      LinkNode(ups, node, newLevel);
    }

    /** The splicing half of `insert`: `node`, of height `top + 1` and
        holding a key not stored yet, joins the arena, the level in use rises
        to `top`, and the node is spliced in after `ups[i]` on each of its
        levels. */
    method LinkNode(ups: seq<Ref>, node: Node<V>, top: nat)
      requires Valid() && node.key !in Contents && |ups| == maxLevel + 1 && top <= maxLevel
      requires |node.forward| == top + 1
      requires forall i :: 0 <= i <= maxLevel ==> KeyOff(KeysOf(nodes), lanes[i], node.key)
      requires forall i :: 0 <= i <= top ==>
        ups[i] == RefAt(lanes[i], Rank(KeysOf(nodes), lanes[i], node.key))
      modifies this
      ensures Valid() && Contents == old(Contents)[node.key := node.value]
      ensures var n := old(|nodes|);
        && |nodes| == n + 1 && KeysOf(nodes) == old(KeysOf(nodes)) + [node.key] && nodes[n].value == node.value
        && |nodes[n].forward| == top + 1
        && level == (if top > old(level) then top else old(level))
        && (forall i :: 0 <= i <= top ==>
             lanes[i] == InsertAt(old(lanes[i]), Rank(old(KeysOf(nodes)), old(lanes[i]), node.key), n))
        && (forall i :: top < i <= maxLevel ==> lanes[i] == old(lanes[i]))
    {
      ghost var keys0 := KeysOf(nodes);
      var n := |nodes|;
      AppendKeepsChains(header, nodes, lanes, node);
      level, nodes, Contents := if top > level then top else level, nodes + [node], Contents[node.key := node.value];
      ghost var heights, values := HeightsOf(nodes), ValuesOf(nodes);
      assert heights[n] == top + 1 && values[n] == node.value;
      SpliceLevels(ups, n, top, keys0, node.key);
      assert HeightsOf(nodes)[n] == |nodes[n].forward| == top + 1;
      assert ValuesOf(nodes)[n] == nodes[n].value == node.value;
      InsertShaped(maxLevel, old(level), old(header), old(nodes), old(lanes), old(Contents), node.key, node.value,
                   top + 1, level, header, nodes, lanes);
    }

    /** The levels a new node of height `newLevel + 1` adds above the level
        in use are entered from the header. */
    method RaiseUpdates(update: seq<Ref>, newLevel: nat) returns (ups: seq<Ref>)
      requires |update| == maxLevel + 1 && newLevel <= maxLevel
      ensures |ups| == maxLevel + 1
      ensures forall j :: 0 <= j <= maxLevel && (j <= level || newLevel < j) ==> ups[j] == update[j]
      ensures forall j :: level < j <= newLevel ==> ups[j] == Head
    {
      ups := update;
      if newLevel > level {
        for i := level + 1 to newLevel + 1
          invariant |ups| == maxLevel + 1
          invariant forall j :: 0 <= j <= maxLevel && (j <= level || i <= j) ==> ups[j] == update[j]
          invariant forall j :: level < j < i ==> ups[j] == Head
        {
          ups := ups[i := Head];
        }
      }
    }

    /** The splicing loop of `insert`: on each level `0..top`, the new node
        `n`, which holds `key`, is spliced in after `update[i]`. `keys` are
        the keys of the arena before `n` was appended. */
    method SpliceLevels(update: seq<Ref>, n: nat, top: nat, ghost keys: seq<int>, ghost key: int)
      requires |header| == maxLevel + 1 && |lanes| == maxLevel + 1 && top <= maxLevel && top < |update|
      requires n == |keys| && |nodes| == n + 1 && KeysOf(nodes) == keys + [key]
      requires |nodes[n].forward| == top + 1
      requires forall k :: 0 <= k <= maxLevel ==> Chained(header, nodes, lanes[k], k)
      requires forall k :: 0 <= k <= top ==> InArena(keys, lanes[k])
      requires forall k :: 0 <= k <= top ==> KeyOff(keys, lanes[k], key)
      requires forall k :: 0 <= k <= top ==> update[k] == RefAt(lanes[k], Rank(keys, lanes[k], key))
      modifies this`header, this`nodes, this`lanes
      ensures level == old(level) && Contents == old(Contents)
      ensures |header| == maxLevel + 1 && |lanes| == maxLevel + 1 && |nodes| == n + 1
      ensures KeysOf(nodes) == old(KeysOf(nodes)) && ValuesOf(nodes) == old(ValuesOf(nodes))
      ensures HeightsOf(nodes) == old(HeightsOf(nodes))
      ensures forall k :: 0 <= k <= maxLevel ==> Chained(header, nodes, lanes[k], k)
      ensures forall k :: 0 <= k <= top ==> lanes[k] == old(InsertAt(lanes[k], Rank(keys, lanes[k], key), n))
      ensures forall k :: top < k <= maxLevel ==> lanes[k] == old(lanes[k])
    {
      ghost var lanes0 := lanes;
      for i := 0 to top + 1
        invariant |header| == maxLevel + 1 && |lanes| == maxLevel + 1 && |nodes| == n + 1
        invariant KeysOf(nodes) == keys + [key] && ValuesOf(nodes) == old(ValuesOf(nodes))
        invariant HeightsOf(nodes) == old(HeightsOf(nodes))
        invariant forall k :: 0 <= k <= maxLevel ==> Chained(header, nodes, lanes[k], k)
        invariant |nodes[n].forward| == top + 1
        invariant forall k :: 0 <= k < i ==> lanes[k] == InsertAt(lanes0[k], Rank(keys, lanes0[k], key), n)
        invariant forall k :: i <= k <= maxLevel ==> lanes[k] == lanes0[k]
        invariant level == old(level) && Contents == old(Contents)
      {
        ghost var heights := HeightsOf(nodes);
        assert heights[n] == top + 1;
        SpliceLevel(update[i], i, n, keys, key);
        assert HeightsOf(nodes)[n] == |nodes[n].forward|;
      }
    }

    /** One pass of `insert`'s splicing loop, on level `i`: the new node `n`
        is pointed at what the predecessor `p` of `key` points at, and `p` at
        `n`. The level gains `n` at `key`'s rank. */
    method SpliceLevel(p: Ref, i: nat, n: nat, ghost keys: seq<int>, ghost key: int)
      requires |header| == maxLevel + 1 && |lanes| == maxLevel + 1 && i <= maxLevel
      requires n == |keys| && |nodes| == n + 1 && KeysOf(nodes) == keys + [key] && i < |nodes[n].forward|
      requires forall k :: 0 <= k <= maxLevel ==> Chained(header, nodes, lanes[k], k)
      requires KeyOff(keys, lanes[i], key)
      requires p == RefAt(lanes[i], Rank(keys, lanes[i], key))
      modifies this`header, this`nodes, this`lanes
      ensures level == old(level) && Contents == old(Contents) && |header| == maxLevel + 1 && |nodes| == n + 1
      ensures KeysOf(nodes) == keys + [key] && ValuesOf(nodes) == old(ValuesOf(nodes))
      ensures HeightsOf(nodes) == old(HeightsOf(nodes))
      ensures lanes == old(lanes)[i := InsertAt(old(lanes[i]), Rank(keys, old(lanes[i]), key), n)]
      ensures forall k :: 0 <= k <= maxLevel ==> Chained(header, nodes, lanes[k], k)
    {
      ghost var c := Rank(keys, lanes[i], key);
      LinkAfter(header, nodes, lanes[i], i, c);
      ghost var header0, nodes0, lanes' := header, nodes, lanes[i := InsertAt(lanes[i], c, n)];
      SetLink(At(n), i, Link(header, nodes, p, i));
      ghost var header1, nodes1 := header, nodes;
      SetLink(p, i, Some(n));
      SpliceStep(keys, header0, nodes0, lanes, i, n, key, header1, nodes1, header, nodes, lanes');
      lanes := lanes';
    }

    /** `delete`: removes `key` and tells whether it was stored. Its node is
        unlinked from every level, each level losing exactly the node that
        holds `key`, and the level in use drops past the levels left empty.
        A missing key changes nothing. */
    method Delete(key: int) returns (found: bool)
      requires Valid()
      modifies this
      ensures Valid() && found == (key in old(Contents)) && Contents == old(Contents) - {key}
      ensures |Contents| == if found then old(|Contents|) - 1 else old(|Contents|)
      ensures level <= old(level) && (level == 0 || header[level].Some?)
      ensures KeysOf(nodes) == old(KeysOf(nodes)) && ValuesOf(nodes) == old(ValuesOf(nodes))
      ensures forall i :: 0 <= i <= maxLevel ==> lanes[i] == Unlinked(old(KeysOf(nodes)), old(lanes[i]), key)
      ensures !found ==> level == old(level) && header == old(header) && nodes == old(nodes) && lanes == old(lanes)
    {
      var update := FindUpdates(key);
      ghost var c0 := Rank(KeysOf(nodes), lanes[0], key);
      assert Chained(header, nodes, lanes[0], 0);
      LinkAfter(header, nodes, lanes[0], 0, c0);
      NextAtLevelZero(key);
      var x := Link(header, nodes, update[0], 0);
      if !(x.Some? && nodes[x.value].key == key) {
        AbsentOffLanes(maxLevel, level, header, nodes, lanes, Contents, key);
        return false;
      }
      RemoveNode(update, x.value, c0);
      ShrinkLevel();
      return true;
    }

    /** The removal in `delete`, once its key is found in node `x`, the
        `c`-th of level 0: `x` is unlinked from every level in use, and the
        list stands for the map without `x`'s key, though its top level in
        use may now be empty. */
    method RemoveNode(update: seq<Ref>, x: nat, ghost c: nat)
      requires Valid() && c < |lanes[0]| && lanes[0][c] == x && |update| == maxLevel + 1
      requires forall i :: 0 <= i <= level ==>
        update[i] == RefAt(lanes[i], Rank(KeysOf(nodes), lanes[i], KeysOf(nodes)[x]))
      modifies this`header, this`nodes, this`lanes, this`Contents
      ensures Loose(maxLevel, level, header, nodes, lanes, Contents)
      ensures Contents == old(Contents) - {old(KeysOf(nodes)[x])}
      ensures KeysOf(nodes) == old(KeysOf(nodes)) && ValuesOf(nodes) == old(ValuesOf(nodes))
      ensures forall i :: 0 <= i <= maxLevel ==>
        lanes[i] == Unlinked(old(KeysOf(nodes)), old(lanes[i]), old(KeysOf(nodes)[x]))
    {
      assert Chained(header, nodes, lanes[0], 0);
      ghost var keys, lanes0, key := KeysOf(nodes), lanes, KeysOf(nodes)[x];
      HolderOnLanes(maxLevel, level, header, nodes, lanes, Contents, key, c);
      assert forall k :: 0 <= k <= maxLevel ==> OnlyHolder(keys, lanes0[k], key, x);
      UnlinkLevels(update, x, keys, key);
      forall k | level < k <= maxLevel
        ensures lanes[k] == Unlinked(keys, lanes0[k], key)
      {
        assert lanes0[k] == [];
      }
      Contents := Contents - {key};
      DeleteLoose(maxLevel, level, old(header), old(nodes), lanes0, old(Contents), key, header, nodes, lanes);
    }

    /** The unlinking loop of `delete`: on each level in use, a predecessor
        `update[i]` of `key` that points at node `x` is pointed past it. As
        `x` is the only node holding `key`, each level in use loses exactly
        the node holding `key`, if it held it. */
    method UnlinkLevels(update: seq<Ref>, x: nat, ghost keys: seq<int>, ghost key: int)
      requires |header| == maxLevel + 1 && |lanes| == maxLevel + 1 && level <= maxLevel && |update| == maxLevel + 1
      requires KeysOf(nodes) == keys && x < |keys| && keys[x] == key
      requires forall k :: 0 <= k <= maxLevel ==> Chained(header, nodes, lanes[k], k)
      requires forall k :: 0 <= k <= maxLevel ==> InArena(keys, lanes[k]) && OnlyHolder(keys, lanes[k], key, x)
      requires forall i :: 0 <= i <= level ==> update[i] == RefAt(lanes[i], Rank(keys, lanes[i], key))
      modifies this`header, this`nodes, this`lanes
      ensures |header| == maxLevel + 1 && |lanes| == maxLevel + 1
      ensures KeysOf(nodes) == keys && ValuesOf(nodes) == old(ValuesOf(nodes))
      ensures HeightsOf(nodes) == old(HeightsOf(nodes))
      ensures forall k :: 0 <= k <= maxLevel ==> Chained(header, nodes, lanes[k], k)
      ensures forall k :: 0 <= k <= level ==> lanes[k] == Unlinked(keys, old(lanes[k]), key)
      ensures forall k :: level < k <= maxLevel ==> lanes[k] == old(lanes[k])
    {
      ghost var lanes0 := lanes;
      for i := 0 to level + 1
        invariant |header| == maxLevel + 1 && |lanes| == maxLevel + 1
        invariant KeysOf(nodes) == keys && ValuesOf(nodes) == old(ValuesOf(nodes))
        invariant HeightsOf(nodes) == old(HeightsOf(nodes))
        invariant forall k :: 0 <= k <= maxLevel ==> Chained(header, nodes, lanes[k], k)
        invariant forall k :: 0 <= k < i ==> lanes[k] == Unlinked(keys, lanes0[k], key)
        invariant forall k :: i <= k <= maxLevel ==> lanes[k] == lanes0[k]
      {
        UnlinkLevel(update[i], i, x, keys, key);
      }
    }

    /** One pass of `delete`'s unlinking loop, on level `i`: if the
        predecessor `p` of `key` points at `x`, it is pointed past `x`.
        The level loses the one node holding `key`, if it held it. */
    method UnlinkLevel(p: Ref, i: nat, x: nat, ghost keys: seq<int>, ghost key: int)
      requires |header| == maxLevel + 1 && |lanes| == maxLevel + 1 && i <= maxLevel
      requires KeysOf(nodes) == keys && x < |keys| && keys[x] == key
      requires forall k :: 0 <= k <= maxLevel ==> Chained(header, nodes, lanes[k], k)
      requires OnlyHolder(keys, lanes[i], key, x)
      requires p == RefAt(lanes[i], Rank(keys, lanes[i], key))
      modifies this`header, this`nodes, this`lanes
      ensures level == old(level) && Contents == old(Contents) && |header| == maxLevel + 1
      ensures KeysOf(nodes) == keys && ValuesOf(nodes) == old(ValuesOf(nodes))
      ensures HeightsOf(nodes) == old(HeightsOf(nodes))
      ensures lanes == old(lanes)[i := Unlinked(keys, old(lanes[i]), key)]
      ensures forall k :: 0 <= k <= maxLevel ==> Chained(header, nodes, lanes[k], k)
    {
      ghost var c := Rank(keys, lanes[i], key);
      LinkAfter(header, nodes, lanes[i], i, c);
      if Link(header, nodes, p, i) == Some(x) {
        ghost var header0, nodes0, lanes' := header, nodes, lanes[i := RemoveAt(lanes[i], c)];
        SetLink(p, i, nodes[x].forward[i]);
        UnlinkStep(header0, nodes0, lanes, i, c, header, nodes, lanes');
        lanes := lanes';
      }
    }

    /** The closing loop of `delete`: the level in use drops while it is above
        0 and its header link is empty. */
    method ShrinkLevel()
      requires Loose(maxLevel, level, header, nodes, lanes, Contents)
      modifies this`level
      ensures Valid()
      ensures level <= old(level) && (level == 0 || header[level].Some?)
    {
      while level > 0 && header[level].None?
        invariant Loose(maxLevel, level, header, nodes, lanes, Contents) && level <= old(level)
        decreases level
      {
        assert Linked(header, nodes, lanes[level], level);
        level := level - 1;
      }
      assert Linked(header, nodes, lanes[level], level);
    }

    /** `len`: the number of nodes met along level 0. */
    method Len() returns (n: nat)
      requires Valid()
      ensures n == |lanes[0]| && n == |Contents|
    {
      assert Chained(header, nodes, lanes[0], 0);
      n := 0;
      var x := header[0];
      while x.Some?
        invariant n <= |lanes[0]| && x == After(lanes[0], n)
        decreases |lanes[0]| - n
      {
        n := n + 1;
        x := nodes[x.value].forward[0];
      }
    }

    /** `__contains__`: whether `key` is stored. */
    method Contains(key: int) returns (b: bool)
      requires Valid()
      ensures b <==> key in Contents
    {
      var r := Search(key);
      b := r.Some?;
    }

    /** `__getitem__`: the stored value, or a KeyError when `key` is absent. */
    method GetItem(key: int) returns (r: Lookup<V>)
      requires Valid()
      ensures r == if key in Contents then Found(Contents[key]) else Missing(KeyError(key))
    {
      var v := Search(key);
      if v.None? {
        r := Missing(KeyError(key));
      } else {
        r := Found(v.value);
      }
    }
    /** `__setitem__`: `insert`. */
    method SetItem(key: int, value: V, coin: nat -> bool)
      requires Valid()
      modifies this
      ensures Valid() && Contents == old(Contents)[key := value]
      ensures |Contents| == if key in old(Contents) then old(|Contents|) else old(|Contents|) + 1
    {
      Insert(key, value, coin);
    }

    /** `__delitem__`: `delete`, raising a KeyError when `key` is not stored. */
    method DelItem(key: int) returns (r: Outcome)
      requires Valid()
      modifies this
      ensures Valid() && Contents == old(Contents) - {key}
      ensures r == if key in old(Contents) then Pass else Fail(KeyError(key))
    {
      var found := Delete(key);
      r := if found then Pass else Fail(KeyError(key));
    }
  }
}
