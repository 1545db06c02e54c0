/** The world snapshot of `GET /world/all/<id>`.

    The handler fetches joined world/NPC rows as dictionaries and splits
    them in one loop: NPC-typed rows are appended to `npc`, and any other
    row becomes `player`, after its five NPC columns have been deleted in
    place. A missing key raises, and the handler answers 500. */
module World {
  import opened Common

  /** A column value as the driver hands it over. */
  datatype Value = Null | Int(i: int) | Str(s: string) | Bool(b: bool)

  /** A fetched row: column name to value (a dictionary cursor). */
  type Row = map<string, Value>

  datatype WorldData = WorldData(npc: seq<Row>, player: Option<Row>)

  /** The columns `get_world_data` deletes from the player row. */
  const NpcColumns: set<string> := {"npc_id", "name", "career", "entity_img", "detail_img"}

  predicate IsNpcRow(d: Row) {
    "entity_type" in d && d["entity_type"] == Str("npc")
  }

  /** Any row whose type is not the string "npc" is taken for the player. */
  predicate IsPlayerRow(d: Row) {
    "entity_type" in d && d["entity_type"] != Str("npc")
  }

  /** A row on which the loop raises: no `entity_type`, or a player row
      lacking one of the columns to delete. */
  predicate Faulty(d: Row) {
    "entity_type" !in d || (IsPlayerRow(d) && !(NpcColumns <= d.Keys))
  }

  /** The player record: the row without the NPC columns. */
  function Strip(d: Row): Row {
    d - NpcColumns
  }

  /** The NPC rows, in fetch order. */
  function NpcRows(rows: seq<Row>): seq<Row> {
    if rows == [] then []
    else NpcRows(Init(rows)) + (if IsNpcRow(Last(rows)) then [Last(rows)] else [])
  }

  /** Each player row overwrites the previous one: the last one wins. */
  function LastPlayer(rows: seq<Row>): Option<Row> {
    if rows == [] then None
    else if IsPlayerRow(Last(rows)) then Some(Strip(Last(rows)))
    else LastPlayer(Init(rows))
  }

  /** What the loop yields; None is the 500 answer. */
  function Partition(rows: seq<Row>): Option<WorldData> {
    if exists i :: 0 <= i < |rows| && Faulty(rows[i]) then None
    else Some(WorldData(NpcRows(rows), LastPlayer(rows)))
  }

  /** The loop of `get_world_data`. */
  method PartitionWorld(datas: seq<Row>) returns (r: Option<WorldData>)
    ensures r == Partition(datas)
  {
    var npc: seq<Row> := [];
    var player: Option<Row> := None;
    var i := 0;
    while i < |datas|
      invariant 0 <= i <= |datas|
      invariant npc == NpcRows(datas[..i])
      invariant player == LastPlayer(datas[..i])
      invariant forall t :: 0 <= t < i ==> !Faulty(datas[t])
    {
      PrefixStep(datas, i);
      var d := datas[i];
      if "entity_type" !in d {
        return None;
      }
      if d["entity_type"] == Str("npc") {
        npc := npc + [d];
      } else {
        var p := d;
        if "npc_id" !in p { return None; }
        p := p - {"npc_id"};
        if "name" !in p { return None; }
        p := p - {"name"};
        if "career" !in p { return None; }
        p := p - {"career"};
        if "entity_img" !in p { return None; }
        p := p - {"entity_img"};
        if "detail_img" !in p { return None; }
        p := p - {"detail_img"};
        assert p == Strip(d);
        player := Some(p);
      }
      i := i + 1;
    }
    assert datas[..i] == datas;
    r := Some(WorldData(npc, player));
  }

  // ---------------------------------------------------------------------
  // Properties of the specification.

  /** The NPC list keeps fetch order: splitting the rows splits the list. */
  lemma {:induction false} NpcRowsAppend(a: seq<Row>, b: seq<Row>)
    ensures NpcRows(a + b) == NpcRows(a) + NpcRows(b)
  {
    if b != [] {
      assert Init(a + b) == a + Init(b);
      assert Last(a + b) == Last(b);
      NpcRowsAppend(a, Init(b));
    } else {
      assert a + b == a;
    }
  }

  /** The NPC list holds exactly the NPC-typed rows. */
  lemma {:induction false} NpcRowsMember(rows: seq<Row>, d: Row)
    ensures d in NpcRows(rows) <==> d in rows && IsNpcRow(d)
  {
    if rows != [] {
      NpcRowsMember(Init(rows), d);
      assert rows == Init(rows) + [Last(rows)];
    }
  }

  /** `player` is None exactly when no row is player-typed; otherwise it is
      the last player-typed row with the NPC columns removed. */
  lemma {:induction false} LastPlayerIsLast(rows: seq<Row>)
    ensures LastPlayer(rows).None? <==> forall i :: 0 <= i < |rows| ==> !IsPlayerRow(rows[i])
    ensures LastPlayer(rows).Some? ==>
      exists i :: && 0 <= i < |rows| && IsPlayerRow(rows[i])
                  && LastPlayer(rows).value == Strip(rows[i])
                  && forall j :: i < j < |rows| ==> !IsPlayerRow(rows[j])
  {
    if rows != [] {
      var n := |rows| - 1;
      LastPlayerIsLast(Init(rows));
      if IsPlayerRow(Last(rows)) {
        assert rows[n] == Last(rows);
      } else {
        forall i | 0 <= i < n ensures rows[i] == Init(rows)[i] { }
        if LastPlayer(Init(rows)).Some? {
          var i :| && 0 <= i < n && IsPlayerRow(Init(rows)[i])
                   && LastPlayer(Init(rows)).value == Strip(Init(rows)[i])
                   && forall j :: i < j < n ==> !IsPlayerRow(Init(rows)[j]);
          assert forall j :: i < j < |rows| ==> !IsPlayerRow(rows[j]);
        }
      }
    }
  }

  /** The player record keeps every column but the five NPC ones. */
  lemma StripKeepsOtherColumns(d: Row)
    ensures Strip(d).Keys == d.Keys - NpcColumns
    ensures forall k :: k in Strip(d) ==> Strip(d)[k] == d[k]
    ensures "entity_type" in d ==> "entity_type" in Strip(d)
  {
  }

  /** On success every fetched row is accounted for: NPC rows in `npc`, and
      the others are player rows, the last of which is `player`. */
  lemma PartitionComplete(rows: seq<Row>)
    requires Partition(rows).Some?
    ensures forall i :: 0 <= i < |rows| ==> IsNpcRow(rows[i]) != IsPlayerRow(rows[i])
    ensures var w := Partition(rows).value;
      (forall d :: d in w.npc <==> d in rows && IsNpcRow(d)) &&
      (w.player.None? <==> forall i :: 0 <= i < |rows| ==> IsNpcRow(rows[i]))
  {
    forall d {
      NpcRowsMember(rows, d);
    }
    LastPlayerIsLast(rows);
  }
}
