/** The demo run of the skip list module, with its level draws given. */
module Demo {
  import opened Lanes
  import opened SkipLists

  /** The keys the demo inserts, in order, and the value each goes in with. */
  const DemoKeys: seq<int> := [20, 5, 15, 30, 10, 25]
  const DemoValues: seq<string> := ["val_20", "val_5", "val_15", "val_30", "val_10", "val_25"]

  /** No key is inserted twice by the demo. */
  lemma DemoKeysDistinct(t: nat)
    requires t < |DemoKeys|
    ensures forall j :: 0 <= j < |DemoKeys| && j != t ==> DemoKeys[j] != DemoKeys[t]
  {
  }

  /** The demo's list: levels 0..8, and `DemoKeys` inserted in order, the
      `t`-th with its own draws `coin(t)` and under the `t`-th of `DemoValues`. */
  method Fill(coin: nat -> nat -> bool) returns (sl: SkipList<string>)
    ensures fresh(sl) && sl.Valid() && sl.maxLevel == 8
    ensures |sl.Contents| == |DemoKeys|
    ensures forall k :: k in sl.Contents <==> k in DemoKeys
    ensures forall j :: 0 <= j < |DemoKeys| ==> DemoKeys[j] in sl.Contents && sl.Contents[DemoKeys[j]] == DemoValues[j]
  {
    sl := new SkipList<string>(8);
    for t := 0 to |DemoKeys|
      invariant fresh(sl) && sl.Valid() && sl.maxLevel == 8
      invariant |sl.Contents| == t
      invariant forall k :: k in sl.Contents ==> k in DemoKeys
      invariant forall j :: 0 <= j < t ==> DemoKeys[j] in sl.Contents && sl.Contents[DemoKeys[j]] == DemoValues[j]
      invariant forall j :: t <= j < |DemoKeys| ==> DemoKeys[j] !in sl.Contents
    {
      DemoKeysDistinct(t);
      sl.Insert(DemoKeys[t], DemoValues[t], coin(t));
    }
  }

  /** The demo's update, with the draws `coin`: 10 is overwritten with
      "TEN", and the size does not change. */
  method Overwrite(sl: SkipList<string>, coin: nat -> bool) returns (at10: Option<string>, size: nat)
    requires sl.Valid() && 10 in sl.Contents
    modifies sl
    ensures sl.Valid() && sl.Contents == old(sl.Contents)[10 := "TEN"] && |sl.Contents| == old(|sl.Contents|)
    ensures at10 == Some("TEN") && size == old(|sl.Contents|)
  {
    sl.Insert(10, "TEN", coin);
    at10 := sl.Search(10);
    size := sl.Len();
  }

  /** The demo's deletion: 20 goes and of the six keys five remain. The
      sizes and the second deletion of 20, which finds nothing, are checks
      beyond the demo, which deletes 20 once and prints the list. */
  method Remove(sl: SkipList<string>) returns (deleted: bool, size: nat, again: bool)
    requires sl.Valid() && 20 in sl.Contents && |sl.Contents| == 6
    modifies sl
    ensures deleted && size == 5 && !again
  {
    deleted := sl.Delete(20);
    size := sl.Len();
    again := sl.Delete(20);
  }

  /** The whole demo: on the filled list 15 is found and 99 is not; then
      10 is overwritten and 20 is deleted. Beyond what the demo does, the
      sizes after the update (six) and after the deletion (five) are
      counted, and deleting 20 a second time finds nothing. Whatever the
      draws, the outcome is the same. */
  method Scenario(coin: nat -> nat -> bool)
    returns (at15: Option<string>, at99: Option<string>, at10: Option<string>, sizeAfterUpdate: nat,
             deleted: bool, sizeAfterDelete: nat, deletedAgain: bool)
    ensures at15 == Some("val_15") && at99 == None
    ensures at10 == Some("TEN") && sizeAfterUpdate == 6
    ensures deleted && sizeAfterDelete == 5 && !deletedAgain
  {
    var sl := Fill(coin);
    assert DemoKeys[2] == 15 && DemoKeys[4] == 10 && DemoKeys[0] == 20;
    at15 := sl.Search(15);
    at99 := sl.Search(99);
    at10, sizeAfterUpdate := Overwrite(sl, coin(6));
    deleted, sizeAfterDelete, deletedAgain := Remove(sl);
  }
}
