/** The purchase rule of `POST /buy` over the inventory table.

    The handler looks up the first row for the (character, item) pair; if
    it exists with a positive count, every row of the pair gets that count
    plus one (the requested count is ignored); otherwise a new row with the
    requested count, possibly NULL, is appended. */
module Inventory {
  import opened Common

  /** A row of `inventory`; `count` may be NULL. */
  datatype InvRow = InvRow(charId: int, itemId: int, count: Option<int>)

  predicate Holds(row: InvRow, charId: int, itemId: int) {
    row.charId == charId && row.itemId == itemId
  }

  predicate NoRowFor(inv: seq<InvRow>, charId: int, itemId: int) {
    forall k :: 0 <= k < |inv| ==> !Holds(inv[k], charId, itemId)
  }

  /** `get_already_item`: the first row of the pair, if any. */
  function AlreadyItem(inv: seq<InvRow>, charId: int, itemId: int): (r: Option<InvRow>)
    ensures r.None? <==> NoRowFor(inv, charId, itemId)
    ensures r.Some? ==> exists k :: && 0 <= k < |inv| && inv[k] == r.value && Holds(inv[k], charId, itemId)
                                    && forall j :: 0 <= j < k ==> !Holds(inv[j], charId, itemId)
  {
    if inv == [] then None
    else if Holds(inv[0], charId, itemId) then Some(inv[0])
    else
      var r := AlreadyItem(inv[1..], charId, itemId);
      if r.Some? then
        var k :| && 0 <= k < |inv[1..]| && inv[1..][k] == r.value && Holds(inv[1..][k], charId, itemId)
                 && forall j :: 0 <= j < k ==> !Holds(inv[1..][j], charId, itemId);
        assert inv[k + 1] == r.value;
        r
      else
        r
  }

  /** `add_already_item`: the UPDATE sets the count of every row of the pair. */
  function SetCount(inv: seq<InvRow>, charId: int, itemId: int, count: int): (r: seq<InvRow>)
    ensures |r| == |inv|
    ensures forall k :: 0 <= k < |inv| ==>
      r[k] == if Holds(inv[k], charId, itemId) then inv[k].(count := Some(count)) else inv[k]
  {
    if inv == [] then []
    else
      [if Holds(inv[0], charId, itemId) then inv[0].(count := Some(count)) else inv[0]] +
      SetCount(inv[1..], charId, itemId, count)
  }

  /** The pair already has a row taken for a purchase: the first one has a
      positive count. */
  predicate Owned(inv: seq<InvRow>, charId: int, itemId: int) {
    var a := AlreadyItem(inv, charId, itemId);
    a.Some? && a.value.count.Some? && a.value.count.value > 0
  }

  /** The inventory after a purchase request for the pair. */
  function Buy(inv: seq<InvRow>, charId: int, itemId: int, count: Option<int>): (r: seq<InvRow>)
    ensures |r| == if Owned(inv, charId, itemId) then |inv| else |inv| + 1
    ensures forall j :: 0 <= j < |inv| && !Holds(inv[j], charId, itemId) ==> r[j] == inv[j]
  {
    if Owned(inv, charId, itemId) then
      SetCount(inv, charId, itemId, AlreadyItem(inv, charId, itemId).value.count.value + 1)
    else
      inv + [InvRow(charId, itemId, count)]
  }

  /** An owned pair gets the count of its first row + 1 on all its rows,
      whatever count was requested, and no row is added; otherwise exactly
      one row with the requested count is appended. Rows of other pairs
      never change. */
  lemma BuyRule(inv: seq<InvRow>, charId: int, itemId: int, count: Option<int>)
    ensures var r := Buy(inv, charId, itemId, count);
      if Owned(inv, charId, itemId) then
        |r| == |inv| &&
        exists k :: && 0 <= k < |inv| && Holds(inv[k], charId, itemId)
                    && (forall j :: 0 <= j < k ==> !Holds(inv[j], charId, itemId))
                    && inv[k].count.Some? && inv[k].count.value > 0
                    && (forall j :: 0 <= j < |inv| && Holds(inv[j], charId, itemId) ==>
                          r[j] == inv[j].(count := Some(inv[k].count.value + 1)))
      else
        r == inv + [InvRow(charId, itemId, count)]
    ensures var r := Buy(inv, charId, itemId, count);
      forall j :: 0 <= j < |inv| && !Holds(inv[j], charId, itemId) ==> r[j] == inv[j]
    ensures Owned(inv, charId, itemId) ==>
      forall other :: Buy(inv, charId, itemId, other) == Buy(inv, charId, itemId, count)
  {
  }

  /** Buying the same item twice, starting with no row and a requested count
      of 1, leaves one row with count 2. */
  lemma BuyTwiceIncrements(inv: seq<InvRow>, charId: int, itemId: int, second: Option<int>)
    requires NoRowFor(inv, charId, itemId)
    ensures Buy(Buy(inv, charId, itemId, Some(1)), charId, itemId, second) == inv + [InvRow(charId, itemId, Some(2))]
  {
    var once := inv + [InvRow(charId, itemId, Some(1))];
    assert AlreadyItem(once, charId, itemId) == Some(InvRow(charId, itemId, Some(1))) by {
      var a := AlreadyItem(once, charId, itemId);
      assert Holds(once[|inv|], charId, itemId);
      var k :| && 0 <= k < |once| && once[k] == a.value && Holds(once[k], charId, itemId)
               && forall j :: 0 <= j < k ==> !Holds(once[j], charId, itemId);
      assert k == |inv|;
    }
    var twice := SetCount(once, charId, itemId, 2);
    assert twice == inv + [InvRow(charId, itemId, Some(2))];
  }

  /** A row whose count is NULL or not positive is not incremented: a second
      purchase appends a second row for the same pair. */
  lemma BuyDuplicatesNonPositive(inv: seq<InvRow>, charId: int, itemId: int, first: Option<int>, second: Option<int>)
    requires NoRowFor(inv, charId, itemId)
    requires first.None? || first.value <= 0
    ensures Buy(Buy(inv, charId, itemId, first), charId, itemId, second) ==
      inv + [InvRow(charId, itemId, first), InvRow(charId, itemId, second)]
  {
    var once := inv + [InvRow(charId, itemId, first)];
    assert AlreadyItem(once, charId, itemId) == Some(InvRow(charId, itemId, first)) by {
      var a := AlreadyItem(once, charId, itemId);
      assert Holds(once[|inv|], charId, itemId);
      var k :| && 0 <= k < |once| && once[k] == a.value && Holds(once[k], charId, itemId)
               && forall j :: 0 <= j < k ==> !Holds(once[j], charId, itemId);
      assert k == |inv|;
    }
  }

  /** Buying two different items for a character adds two rows. */
  lemma BuyDistinctItems(inv: seq<InvRow>, charId: int, item1: int, item2: int, n1: Option<int>, n2: Option<int>)
    requires item1 != item2
    requires NoRowFor(inv, charId, item1) && NoRowFor(inv, charId, item2)
    ensures Buy(Buy(inv, charId, item1, n1), charId, item2, n2) ==
      inv + [InvRow(charId, item1, n1), InvRow(charId, item2, n2)]
  {
    var once := inv + [InvRow(charId, item1, n1)];
    assert NoRowFor(once, charId, item2);
  }
}
