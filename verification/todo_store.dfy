/** The table of to-do items the service reads and writes.

    A table is the sequence of its rows in the order a full scan enumerates them.
    Its abstract meaning is `View`: the finite map from id to the row's fields,
    where a lookup by id sees the FIRST row carrying that id (the service looks
    rows up with "first or default"). The primitives below are the five store
    operations the service uses: insert with a store-assigned id, point lookup,
    full scan, update in place and remove; each one's contract is stated against
    `View`.
 */
module TodoStore {
  import opened Outcomes

  /** The status a newly created row holds. The status's type and initial value
      are defined outside the modelled files; the model uses an integer and 0. */
  const DefaultStatus: int := 0

  /** One persisted to-do record. */
  datatype TodoItem = TodoItem(id: int, title: string, description: string, status: int)

  /** The fields of a record other than its id: what `View` maps an id to. */
  datatype Entry = Entry(title: string, description: string, status: int)

  /** Rows in enumeration order. */
  type Table = seq<TodoItem>

  function EntryOf(item: TodoItem): Entry {
    Entry(item.title, item.description, item.status)
  }

  /** The ids carried by some row. */
  function Ids(rows: Table): set<int> {
    set i | 0 <= i < |rows| :: rows[i].id
  }

  /** The primary-key guarantee of the database: no two rows share an id. */
  predicate UniqueIds(rows: Table) {
    forall i, j :: 0 <= i < j < |rows| ==> rows[i].id != rows[j].id
  }

  /** The invariant every table the service produces keeps: unique positive ids,
      and no record with an empty title or description. */
  predicate Valid(rows: Table) {
    && UniqueIds(rows)
    && forall i :: 0 <= i < |rows| ==>
         rows[i].id > 0 && rows[i].title != "" && rows[i].description != ""
  }

  /** Point lookup: the index of the first row whose id is `id`, if any. */
  function Find(rows: Table, id: int): (r: Option<nat>)
    ensures r.Some? ==> r.value < |rows| && rows[r.value].id == id
    ensures r.Some? ==> forall j :: 0 <= j < r.value ==> rows[j].id != id
    ensures r.None? <==> id !in Ids(rows)
    decreases |rows|
  {
    if |rows| == 0 then None
    else if rows[0].id == id then Some(0)
    else
      match Find(rows[1..], id)
      case None =>
        assert forall i :: 1 <= i < |rows| ==> rows[i].id == rows[1..][i - 1].id;
        None
      case Some(k) => Some(k + 1)
  }

  /** Any index satisfying `Find`'s contract is the one `Find` returns. */
  lemma FindIsFirst(rows: Table, id: int, k: nat)
    requires k < |rows| && rows[k].id == id
    requires forall j :: 0 <= j < k ==> rows[j].id != id
    ensures Find(rows, id) == Some(k)
  {
    assert id in Ids(rows);
  }

  /** In a table with unique ids, the row at any index is the one found by its id. */
  lemma FindUnique(rows: Table, k: nat)
    requires UniqueIds(rows) && k < |rows|
    ensures Find(rows, rows[k].id) == Some(k)
  {
    FindIsFirst(rows, rows[k].id, k);
  }

  /** The abstract content of the table: id to the fields of the first row with it. */
  function View(rows: Table): (m: map<int, Entry>)
    ensures m.Keys == Ids(rows)
  {
    map id | id in Ids(rows) :: EntryOf(rows[Find(rows, id).value])
  }

  /** In a table with unique ids, every row is what `View` maps its id to. */
  lemma ViewAt(rows: Table, k: nat)
    requires UniqueIds(rows) && k < |rows|
    ensures rows[k].id in View(rows) && View(rows)[rows[k].id] == EntryOf(rows[k])
  {
    FindUnique(rows, k);
  }

  /** The largest id in the table, or 0 when there is none above 0. */
  function MaxId(rows: Table): (m: int)
    ensures m >= 0
    ensures forall i :: 0 <= i < |rows| ==> rows[i].id <= m
    ensures m == 0 || m in Ids(rows)
    decreases |rows|
  {
    if |rows| == 0 then 0
    else
      var rest := MaxId(rows[1..]);
      assert forall i :: 1 <= i < |rows| ==> rows[i].id == rows[1..][i - 1].id;
      assert rest != 0 ==> rest in Ids(rows);
      if rows[0].id > rest then rows[0].id else rest
  }

  /** The id the database assigns to the next inserted row. Callers rely only on
      it being positive and carried by no current row. */
  function FreshId(rows: Table): (id: int)
    ensures id > 0 && id !in Ids(rows)
  {
    MaxId(rows) + 1
  }

  /** Insert: append a row with a store-assigned id; returns the new table and the id. */
  function Insert(rows: Table, e: Entry): (r: (Table, int))
    ensures r.1 > 0 && r.1 !in Ids(rows)
    ensures View(r.0) == View(rows)[r.1 := e]
    ensures |r.0| == |rows| + 1 && r.0[..|rows|] == rows
    ensures r.0[|rows|] == TodoItem(r.1, e.title, e.description, e.status)
  {
    var id := FreshId(rows);
    var item := TodoItem(id, e.title, e.description, e.status);
    ViewAppend(rows, item);
    (rows + [item], id)
  }

  /** Inserting a record with a non-empty title and description keeps `Valid`. */
  lemma InsertKeepsValid(rows: Table, e: Entry)
    requires e.title != "" && e.description != ""
    ensures Valid(rows) ==> Valid(Insert(rows, e).0)
  {
    if !Valid(rows) { return; }
    var (t, id) := Insert(rows, e);
    forall i, j | 0 <= i < j < |t| ensures t[i].id != t[j].id {
      assert t[i] == rows[i];
      if j < |rows| {
        assert t[j] == rows[j];
      } else {
        assert rows[i].id in Ids(rows);
      }
    }
    forall i | 0 <= i < |t| ensures t[i].id > 0 && t[i].title != "" && t[i].description != "" {
      if i < |rows| { assert t[i] == rows[i]; }
    }
  }

  /** Update in place: overwrite the row at index `i`, keeping its id. */
  function Replace(rows: Table, i: nat, e: Entry): (r: Table)
    requires i < |rows|
    requires Find(rows, rows[i].id) == Some(i)
    ensures View(r) == View(rows)[rows[i].id := e]
    ensures |r| == |rows|
    ensures forall j :: 0 <= j < |rows| ==> r[j].id == rows[j].id
    ensures forall j :: 0 <= j < |rows| && j != i ==> r[j] == rows[j]
    ensures r[i] == TodoItem(rows[i].id, e.title, e.description, e.status)
  {
    var item := TodoItem(rows[i].id, e.title, e.description, e.status);
    ViewReplace(rows, i, item);
    rows[i := item]
  }

  /** Remove: drop the row at index `i`, keeping the order of the others. */
  function RemoveAt(rows: Table, i: nat): (r: Table)
    requires i < |rows|
    ensures Valid(rows) ==> Valid(r)
    ensures UniqueIds(rows) ==> UniqueIds(r) && View(r) == View(rows) - {rows[i].id}
    ensures |r| == |rows| - 1
    ensures forall j :: 0 <= j < i ==> r[j] == rows[j]
    ensures forall j :: i < j < |rows| ==> r[j - 1] == rows[j]
  {
    RemoveKeepsValid(rows, i);
    ViewRemove(rows, i);
    rows[..i] + rows[i + 1..]
  }

  lemma ViewAppend(rows: Table, item: TodoItem)
    requires item.id !in Ids(rows)
    ensures View(rows + [item]) == View(rows)[item.id := EntryOf(item)]
  {
    var t := rows + [item];
    assert Ids(t) == Ids(rows) + {item.id} by {
      forall x | x in Ids(t) ensures x in Ids(rows) + {item.id} {
        var k :| 0 <= k < |t| && t[k].id == x;
        if k < |rows| { assert rows[k].id == x; }
      }
      forall x | x in Ids(rows) ensures x in Ids(t) {
        var k :| 0 <= k < |rows| && rows[k].id == x;
        assert t[k].id == x;
      }
      assert t[|rows|].id == item.id;
    }
    forall x | x in Ids(rows) ensures View(t)[x] == View(rows)[x] {
      var k := Find(rows, x).value;
      FindIsFirst(t, x, k);
    }
    FindIsFirst(t, item.id, |rows|);
  }

  /** Overwriting a row with one of the same id keeps the set of ids. */
  lemma ReplaceKeepsIds(rows: Table, i: nat, item: TodoItem)
    requires i < |rows| && item.id == rows[i].id
    ensures Ids(rows[i := item]) == Ids(rows)
  {
    var t := rows[i := item];
    forall x | x in Ids(t) ensures x in Ids(rows) {
      var k :| 0 <= k < |t| && t[k].id == x;
      assert rows[k].id == x;
    }
    forall x | x in Ids(rows) ensures x in Ids(t) {
      var k :| 0 <= k < |rows| && rows[k].id == x;
      assert t[k].id == x;
    }
  }

  /** Overwriting the first row carrying one id does not move the lookup of another. */
  lemma ReplaceKeepsFind(rows: Table, i: nat, item: TodoItem, x: int)
    requires i < |rows| && item.id == rows[i].id
    requires x in Ids(rows) && x != item.id
    ensures Find(rows[i := item], x) == Find(rows, x)
  {
    var t := rows[i := item];
    var k := Find(rows, x).value;
    assert t[k] == rows[k];
    forall j | 0 <= j < k ensures t[j].id != x {
      if j != i { assert t[j] == rows[j]; }
    }
    FindIsFirst(t, x, k);
  }

  /** Maps with the same keys and the same value at every key are equal. */
  lemma SameMap(a: map<int, Entry>, b: map<int, Entry>)
    requires a.Keys == b.Keys
    requires forall x :: x in a ==> a[x] == b[x]
    ensures a == b
  {
    assert forall x :: x in a.Keys <==> x in b.Keys;
    assert forall x :: x in a ==> x in b && a[x] == b[x];
  }

  lemma ReplaceViewOther(rows: Table, i: nat, item: TodoItem, x: int)
    requires i < |rows| && item.id == rows[i].id
    requires x in Ids(rows) && x != item.id
    ensures x in View(rows[i := item]) && View(rows[i := item])[x] == View(rows)[x]
  {
    ReplaceKeepsIds(rows, i, item);
    ReplaceKeepsFind(rows, i, item, x);
  }

  lemma ReplaceViewAt(rows: Table, i: nat, item: TodoItem)
    requires i < |rows| && item.id == rows[i].id
    requires Find(rows, item.id) == Some(i)
    ensures item.id in View(rows[i := item]) && View(rows[i := item])[item.id] == EntryOf(item)
  {
    var t := rows[i := item];
    forall j | 0 <= j < i ensures t[j].id != item.id {
      assert t[j] == rows[j];
    }
    FindIsFirst(t, item.id, i);
  }

  lemma ViewReplace(rows: Table, i: nat, item: TodoItem)
    requires i < |rows| && item.id == rows[i].id
    requires Find(rows, item.id) == Some(i)
    ensures View(rows[i := item]) == View(rows)[item.id := EntryOf(item)]
  {
    var m1, m2 := View(rows[i := item]), View(rows)[item.id := EntryOf(item)];
    ReplaceKeepsIds(rows, i, item);
    assert m1.Keys == m2.Keys;
    ReplaceViewAt(rows, i, item);
    forall x | x in m1 && x != item.id ensures m1[x] == m2[x] {
      ReplaceViewOther(rows, i, item, x);
    }
    SameMap(m1, m2);
  }

  /** Row `k` of the table with row `i` removed is row `k` or `k + 1` of the original. */
  lemma RemovedRow(rows: Table, i: nat, k: nat)
    requires i < |rows| && k < |rows| - 1
    ensures (rows[..i] + rows[i + 1..])[k] == rows[if k < i then k else k + 1]
  {
  }

  lemma RemoveKeepsUnique(rows: Table, i: nat)
    requires UniqueIds(rows) && i < |rows|
    ensures UniqueIds(rows[..i] + rows[i + 1..])
  {
    var t := rows[..i] + rows[i + 1..];
    forall a, b | 0 <= a < b < |t| ensures t[a].id != t[b].id {
      RemovedRow(rows, i, a);
      RemovedRow(rows, i, b);
    }
  }

  lemma RemoveKeepsValid(rows: Table, i: nat)
    requires i < |rows|
    ensures Valid(rows) ==> Valid(rows[..i] + rows[i + 1..])
  {
    if Valid(rows) {
      var t := rows[..i] + rows[i + 1..];
      RemoveKeepsUnique(rows, i);
      forall k | 0 <= k < |t| ensures t[k].id > 0 && t[k].title != "" && t[k].description != "" {
        RemovedRow(rows, i, k);
      }
    }
  }

  lemma RemoveKeepsIds(rows: Table, i: nat)
    requires UniqueIds(rows) && i < |rows|
    ensures Ids(rows[..i] + rows[i + 1..]) == Ids(rows) - {rows[i].id}
  {
    var t := rows[..i] + rows[i + 1..];
    forall x | x in Ids(t) ensures x in Ids(rows) - {rows[i].id} {
      var k :| 0 <= k < |t| && t[k].id == x;
      RemovedRow(rows, i, k);
    }
    forall x | x in Ids(rows) - {rows[i].id} ensures x in Ids(t) {
      var k' :| 0 <= k' < |rows| && rows[k'].id == x;
      var k := if k' < i then k' else k' - 1;
      RemovedRow(rows, i, k);
    }
  }

  /** Removing a row never changes what `View` holds for a different id, even
      when ids repeat. */
  lemma RemoveKeepsOther(rows: Table, i: nat, x: int)
    requires i < |rows| && x != rows[i].id
    ensures x in View(rows[..i] + rows[i + 1..]) <==> x in View(rows)
    ensures x in View(rows) ==> View(rows[..i] + rows[i + 1..])[x] == View(rows)[x]
  {
    var t := rows[..i] + rows[i + 1..];
    if x in Ids(rows) {
      var k := Find(rows, x).value;
      var k' := if k < i then k else k - 1;
      RemovedRow(rows, i, k');
      forall j | 0 <= j < k' ensures t[j].id != x {
        RemovedRow(rows, i, j);
      }
      FindIsFirst(t, x, k');
    } else {
      forall j | 0 <= j < |t| ensures t[j].id != x {
        RemovedRow(rows, i, j);
        assert rows[if j < i then j else j + 1].id in Ids(rows);
      }
    }
  }

  lemma ViewRemove(rows: Table, i: nat)
    requires i < |rows|
    ensures UniqueIds(rows) ==> UniqueIds(rows[..i] + rows[i + 1..])
    ensures UniqueIds(rows) ==> View(rows[..i] + rows[i + 1..]) == View(rows) - {rows[i].id}
  {
    if !UniqueIds(rows) { return; }
    var t := rows[..i] + rows[i + 1..];
    var m1, m2 := View(t), View(rows) - {rows[i].id};
    RemoveKeepsUnique(rows, i);
    RemoveKeepsIds(rows, i);
    assert m1.Keys == m2.Keys;
    forall x | x in m1 ensures m1[x] == m2[x] {
      var k :| 0 <= k < |t| && t[k].id == x;
      RemovedRow(rows, i, k);
      ViewAt(t, k);
      ViewAt(rows, if k < i then k else k + 1);
    }
    SameMap(m1, m2);
  }
}
