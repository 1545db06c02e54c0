/** The class-hierarchy listing of `GET /class/all`.

    The handler selects the visible classes with one SQL query (a class and
    its direct parent, joined with LEFT JOIN) and then turns the flat rows
    into a map from each root class id to its name, colour and list of
    children, in two passes over the rows. A visible child whose parent is
    not a root among the selected rows makes the second pass raise, and the
    handler answers 500 instead of a map. */
module ClassTree {
  import opened Common

  type ClassId = int

  /** A row of `character_class`; `includeClass` is the parent class id. */
  datatype ClassRow = ClassRow(classId: ClassId, includeClass: Option<ClassId>, name: string, color: string, openFlag: bool)

  /** An element of a root's `child` list. */
  datatype Child = Child(id: ClassId, name: string, color: string)

  /** The value stored under a root class id. */
  datatype Node = Node(name: string, color: string, child: seq<Child>)

  /** `class_id` is the primary key of the class table. */
  predicate Keyed(table: seq<ClassRow>) {
    forall i, j :: 0 <= i < j < |table| ==> table[i].classId != table[j].classId
  }

  predicate IsRoot(c: ClassRow) {
    c.includeClass.None?
  }

  /** Some row of the table with this id has `open_flag` set: the LEFT JOIN
      found an open parent. */
  predicate OpenClassExists(table: seq<ClassRow>, id: ClassId) {
    exists p :: p in table && p.classId == id && p.openFlag
  }

  /** The WHERE clause of the listing query: an open root, or an open class
      whose direct parent is open. Only one ancestor level is looked at. */
  predicate Visible(table: seq<ClassRow>, c: ClassRow) {
    (IsRoot(c) && c.openFlag) ||
    (!IsRoot(c) && c.openFlag && OpenClassExists(table, c.includeClass.value))
  }

  /** The rows of `rows` that pass the WHERE clause, in their order. */
  function Select(table: seq<ClassRow>, rows: seq<ClassRow>): (r: seq<ClassRow>)
    ensures forall c :: c in r <==> c in rows && Visible(table, c)
  {
    if rows == [] then []
    else (if Visible(table, rows[0]) then [rows[0]] else []) + Select(table, rows[1..])
  }

  /** The result set of the listing query over the class table. The LEFT
      JOIN yields each row once because `class_id` is the primary key: a
      table with duplicate ids would repeat a child per matching parent. */
  function ClassQuery(table: seq<ClassRow>): seq<ClassRow>
    requires Keyed(table)
  {
    Select(table, table)
  }

  // ---------------------------------------------------------------------
  // Specification of the two-pass build, stated on the fetched rows.

  /** Ids of the root rows: the keys of the resulting map. */
  function RootIds(rows: seq<ClassRow>): set<ClassId>
  {
    if rows == [] then {}
    else RootIds(Init(rows)) + (if IsRoot(Last(rows)) then {Last(rows).classId} else {})
  }

  /** The root row with id `k` whose name and colour end up in the map: the
      first pass overwrites, so it is the last such row. */
  function LastRoot(rows: seq<ClassRow>, k: ClassId): ClassRow
    requires k in RootIds(rows)
  {
    if IsRoot(Last(rows)) && Last(rows).classId == k then Last(rows)
    else LastRoot(Init(rows), k)
  }

  function ChildEntry(c: ClassRow): Child {
    Child(c.classId, c.name, c.color)
  }

  /** The children appended under root `k`, in row order. */
  function ChildrenOf(rows: seq<ClassRow>, k: ClassId): seq<Child>
  {
    if rows == [] then []
    else ChildrenOf(Init(rows), k) + (if Last(rows).includeClass == Some(k) then [ChildEntry(Last(rows))] else [])
  }

  /** Some non-root row names a parent that is not a root row: the lookup
      `data[c["include_class"]]` raises. */
  predicate Broken(rows: seq<ClassRow>) {
    exists i :: 0 <= i < |rows| && !IsRoot(rows[i]) && rows[i].includeClass.value !in RootIds(rows)
  }

  /** The map after the first pass over `rows` (every root, no children yet). */
  function RootsOnly(rows: seq<ClassRow>): map<ClassId, Node> {
    map k | k in RootIds(rows) :: Node(LastRoot(rows, k).name, LastRoot(rows, k).color, [])
  }

  /** The map once the second pass has handled the first `n` rows. */
  function WithChildren(rows: seq<ClassRow>, n: nat): map<ClassId, Node>
    requires n <= |rows|
  {
    map k | k in RootIds(rows) :: Node(LastRoot(rows, k).name, LastRoot(rows, k).color, ChildrenOf(rows[..n], k))
  }

  /** What the build yields: None is the 500 answer, with no partial map. */
  function Tree(rows: seq<ClassRow>): Option<map<ClassId, Node>> {
    if Broken(rows) then None else Some(WithChildren(rows, |rows|))
  }

  /** One step of the first pass. */
  lemma FirstPassStep(rows: seq<ClassRow>, i: nat)
    requires i < |rows|
    ensures RootsOnly(rows[..i + 1]) ==
      if IsRoot(rows[i]) then RootsOnly(rows[..i])[rows[i].classId := Node(rows[i].name, rows[i].color, [])]
      else RootsOnly(rows[..i])
  {
    PrefixStep(rows, i);
  }

  lemma ChildrenStep(rows: seq<ClassRow>, j: nat, k: ClassId)
    requires j < |rows|
    ensures ChildrenOf(rows[..j + 1], k) ==
      ChildrenOf(rows[..j], k) + (if rows[j].includeClass == Some(k) then [ChildEntry(rows[j])] else [])
  {
    PrefixStep(rows, j);
  }

  /** One step of the second pass, when the parent lookup succeeds. */
  lemma SecondPassStep(rows: seq<ClassRow>, j: nat)
    requires j < |rows|
    requires !IsRoot(rows[j]) ==> rows[j].includeClass.value in RootIds(rows)
    ensures var data := WithChildren(rows, j);
      WithChildren(rows, j + 1) ==
        if IsRoot(rows[j]) then data
        else
          var p := rows[j].includeClass.value;
          data[p := data[p].(child := data[p].child + [ChildEntry(rows[j])])]
  {
    var data := WithChildren(rows, j);
    var next := WithChildren(rows, j + 1);
    var expected := if IsRoot(rows[j]) then data
      else
        var p := rows[j].includeClass.value;
        data[p := data[p].(child := data[p].child + [ChildEntry(rows[j])])];
    assert next.Keys == expected.Keys;
    forall k | k in next.Keys
      ensures next[k] == expected[k]
    {
      ChildrenStep(rows, j, k);
    }
  }

  /** The two passes of `get_all_class`. */
  method BuildTree(rows: seq<ClassRow>) returns (r: Option<map<ClassId, Node>>)
    ensures r == Tree(rows)
  {
    var data: map<ClassId, Node> := map[];
    var i := 0;
    while i < |rows|
      invariant 0 <= i <= |rows|
      invariant data == RootsOnly(rows[..i])
    {
      FirstPassStep(rows, i);
      var c := rows[i];
      if c.includeClass.None? {
        data := data[c.classId := Node(c.name, c.color, [])];
      }
      i := i + 1;
    }
    assert rows[..i] == rows;
    var j := 0;
    while j < |rows|
      invariant 0 <= j <= |rows|
      invariant data == WithChildren(rows, j)
      invariant forall t :: 0 <= t < j && !IsRoot(rows[t]) ==> rows[t].includeClass.value in RootIds(rows)
    {
      var c := rows[j];
      if c.includeClass.Some? {
        var p := c.includeClass.value;
        if p !in data {
          return None;
        }
        SecondPassStep(rows, j);
        data := data[p := data[p].(child := data[p].child + [ChildEntry(c)])];
      } else {
        SecondPassStep(rows, j);
      }
      j := j + 1;
    }
    assert rows[..j] == rows;
    r := Some(data);
  }

  // ---------------------------------------------------------------------
  // Properties of the specification.

  /** The keys are exactly the ids of the root rows. */
  lemma {:induction false} RootIdsMember(rows: seq<ClassRow>, k: ClassId)
    ensures k in RootIds(rows) <==> exists i :: 0 <= i < |rows| && IsRoot(rows[i]) && rows[i].classId == k
  {
    if rows != [] {
      var n := |rows| - 1;
      RootIdsMember(Init(rows), k);
      if k in RootIds(Init(rows)) {
        var i :| 0 <= i < n && IsRoot(Init(rows)[i]) && Init(rows)[i].classId == k;
        assert rows[i] == Init(rows)[i];
      }
      if i :| 0 <= i < |rows| && IsRoot(rows[i]) && rows[i].classId == k {
        if i < n {
          assert Init(rows)[i] == rows[i];
        }
      }
    }
  }

  /** A root's name and colour come from the last root row carrying its id. */
  lemma {:induction false} LastRootIsLast(rows: seq<ClassRow>, k: ClassId)
    requires k in RootIds(rows)
    ensures exists i ::
      && 0 <= i < |rows| && rows[i] == LastRoot(rows, k) && IsRoot(rows[i]) && rows[i].classId == k
      && forall j :: i < j < |rows| ==> !(IsRoot(rows[j]) && rows[j].classId == k)
  {
    var n := |rows| - 1;
    if IsRoot(Last(rows)) && Last(rows).classId == k {
      assert rows[n] == LastRoot(rows, k);
    } else {
      LastRootIsLast(Init(rows), k);
      var i :| 0 <= i < n && Init(rows)[i] == LastRoot(Init(rows), k) && IsRoot(Init(rows)[i]) && Init(rows)[i].classId == k &&
        forall j :: i < j < n ==> !(IsRoot(Init(rows)[j]) && Init(rows)[j].classId == k);
      assert rows[i] == Init(rows)[i];
      forall j | i < j < |rows| ensures !(IsRoot(rows[j]) && rows[j].classId == k) {
        if j < n { assert rows[j] == Init(rows)[j]; }
      }
    }
  }

  /** Children lists are built in row order: splitting the rows splits the list. */
  lemma {:induction false} ChildrenAppend(a: seq<ClassRow>, b: seq<ClassRow>, k: ClassId)
    ensures ChildrenOf(a + b, k) == ChildrenOf(a, k) + ChildrenOf(b, k)
  {
    if b != [] {
      assert Init(a + b) == a + Init(b);
      assert Last(a + b) == Last(b);
      ChildrenAppend(a, Init(b), k);
    } else {
      assert a + b == a;
    }
  }

  /** An entry is under root `k` exactly when some row names `k` as its parent. */
  lemma {:induction false} ChildrenMember(rows: seq<ClassRow>, k: ClassId, ch: Child)
    ensures ch in ChildrenOf(rows, k) <==>
      exists i :: 0 <= i < |rows| && rows[i].includeClass == Some(k) && ChildEntry(rows[i]) == ch
  {
    if rows != [] {
      var n := |rows| - 1;
      ChildrenMember(Init(rows), k, ch);
      if ch in ChildrenOf(Init(rows), k) {
        var i :| 0 <= i < n && Init(rows)[i].includeClass == Some(k) && ChildEntry(Init(rows)[i]) == ch;
        assert rows[i] == Init(rows)[i];
      }
      if i :| 0 <= i < |rows| && rows[i].includeClass == Some(k) && ChildEntry(rows[i]) == ch {
        if i < n {
          assert Init(rows)[i] == rows[i];
        }
      }
    }
  }

  /** The parent column of the rows, in order. */
  function Parents(rows: seq<ClassRow>): seq<Option<ClassId>> {
    seq(|rows|, i requires 0 <= i < |rows| => rows[i].includeClass)
  }

  /** Each root has as many children as there are rows naming it as parent. */
  lemma {:induction false} ChildCount(rows: seq<ClassRow>, k: ClassId)
    ensures |ChildrenOf(rows, k)| == multiset(Parents(rows))[Some(k)]
  {
    if rows != [] {
      ChildCount(Init(rows), k);
      assert Parents(rows) == Parents(Init(rows)) + [Last(rows).includeClass];
    }
  }

  /** The build fails exactly when a non-root row's parent is not the id of
      any root row. */
  lemma TreeFailsIff(rows: seq<ClassRow>)
    ensures Tree(rows).None? <==>
      exists i :: 0 <= i < |rows| && !IsRoot(rows[i]) &&
        forall j :: 0 <= j < |rows| ==> !(IsRoot(rows[j]) && rows[j].classId == rows[i].includeClass.value)
  {
    forall i | 0 <= i < |rows| && !IsRoot(rows[i]) {
      RootIdsMember(rows, rows[i].includeClass.value);
    }
  }

  /** On success every root row has its key and every other row sits in its
      parent's child list; nothing else is listed. */
  lemma TreeShape(rows: seq<ClassRow>)
    requires Tree(rows).Some?
    ensures var m := Tree(rows).value;
      (forall i :: 0 <= i < |rows| && IsRoot(rows[i]) ==> rows[i].classId in m) &&
      (forall i :: 0 <= i < |rows| && !IsRoot(rows[i]) ==>
         rows[i].includeClass.value in m && ChildEntry(rows[i]) in m[rows[i].includeClass.value].child) &&
      (forall k :: k in m ==> exists i :: 0 <= i < |rows| && IsRoot(rows[i]) && rows[i].classId == k) &&
      (forall k, ch :: k in m && ch in m[k].child ==>
         exists i :: 0 <= i < |rows| && rows[i].includeClass == Some(k) && ChildEntry(rows[i]) == ch)
  {
    var m := Tree(rows).value;
    assert rows[..|rows|] == rows;
    forall i | 0 <= i < |rows| && IsRoot(rows[i]) ensures rows[i].classId in m {
      RootIdsMember(rows, rows[i].classId);
    }
    forall i | 0 <= i < |rows| && !IsRoot(rows[i])
      ensures ChildEntry(rows[i]) in m[rows[i].includeClass.value].child
    {
      ChildrenMember(rows, rows[i].includeClass.value, ChildEntry(rows[i]));
    }
    forall k | k in m ensures exists i :: 0 <= i < |rows| && IsRoot(rows[i]) && rows[i].classId == k {
      RootIdsMember(rows, k);
    }
    forall k, ch | k in m && ch in m[k].child
      ensures exists i :: 0 <= i < |rows| && rows[i].includeClass == Some(k) && ChildEntry(rows[i]) == ch
    {
      ChildrenMember(rows, k, ch);
    }
  }

  /** When the listing succeeds, every listed root is, in the class table, an
      open root, and every listed child is open and hangs under that root: so
      every listed class's whole ancestor chain is open. */
  lemma ListingShowsOnlyOpenChains(table: seq<ClassRow>)
    requires Keyed(table)
    requires Tree(ClassQuery(table)).Some?
    ensures var m := Tree(ClassQuery(table)).value;
      (forall k, p :: k in m && p in table && p.classId == k ==> IsRoot(p) && p.openFlag) &&
      (forall k, ch :: k in m && ch in m[k].child ==>
         exists c :: c in table && c.classId == ch.id && c.includeClass == Some(k) && c.openFlag)
  {
    var rows := ClassQuery(table);
    var m := Tree(rows).value;
    TreeShape(rows);
    forall k, p | k in m && p in table && p.classId == k ensures IsRoot(p) && p.openFlag {
      var i :| 0 <= i < |rows| && IsRoot(rows[i]) && rows[i].classId == k;
      assert rows[i] in rows;
      var a :| 0 <= a < |table| && table[a] == rows[i];
      var b :| 0 <= b < |table| && table[b] == p;
      assert a == b;
    }
    forall k, ch | k in m && ch in m[k].child
      ensures exists c :: c in table && c.classId == ch.id && c.includeClass == Some(k) && c.openFlag
    {
      var i :| 0 <= i < |rows| && rows[i].includeClass == Some(k) && ChildEntry(rows[i]) == ch;
      assert rows[i] in rows;
    }
  }

  /** Only one ancestor level is filtered: an open class below an open
      non-root class passes the filter, but its parent can never be a root of
      the result, so the whole listing fails with 500. */
  lemma DeepHierarchyFails(table: seq<ClassRow>, i: nat, j: nat)
    requires Keyed(table)
    requires i < |table| && j < |table|
    requires table[i].openFlag && table[i].includeClass == Some(table[j].classId)
    requires table[j].openFlag && !IsRoot(table[j])
    ensures Tree(ClassQuery(table)).None?
  {
    var rows := ClassQuery(table);
    assert Visible(table, table[i]) by {
      assert table[j] in table;
    }
    assert table[i] in rows;
    var x :| 0 <= x < |rows| && rows[x] == table[i];
    forall y | 0 <= y < |rows| ensures !(IsRoot(rows[y]) && rows[y].classId == table[j].classId) {
      assert rows[y] in rows;
    }
    TreeFailsIff(rows);
  }

  /** A closed root above an open class above an open class: the middle class
      is filtered out while its child passes, and the listing answers 500
      instead of hiding the child. */
  lemma ClosedGrandparentExample()
    ensures var table := [ClassRow(1, None, "root", "red", false),
                          ClassRow(2, Some(1), "mid", "green", true),
                          ClassRow(3, Some(2), "leaf", "blue", true)];
      !Visible(table, table[1]) && Visible(table, table[2]) && Tree(ClassQuery(table)).None?
  {
    var table := [ClassRow(1, None, "root", "red", false),
                  ClassRow(2, Some(1), "mid", "green", true),
                  ClassRow(3, Some(2), "leaf", "blue", true)];
    assert table[1] in table;
    assert !OpenClassExists(table, 1);
    DeepHierarchyFails(table, 2, 1);
  }
}
