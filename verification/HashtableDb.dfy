/** The in-memory store and who owns its value strings (db/hashtable_db.cc, db/lock_stl_db.h). */
module HashtableDb {
  import opened CStrings
  import opened Fields
  import opened MachineInts
  import opened StlHashtable
  import opened Wrappers

  newtype Ptr = x: int | 0 <= x
  type Row = map<string, string>

  datatype Status = Ok | NoData | Conflict

  // ----- The heap -----

  lemma {:induction false} SomeUnused(used: set<Ptr>) returns (bound: Ptr)
    ensures forall p :: p in used ==> p < bound
  {
    if used == {} {
      bound := 0;
    } else {
      var p :| p in used;
      var rest := SomeUnused(used - {p});
      bound := if p < rest then rest else p + 1;
      assert used == (used - {p}) + {p};
    }
  }

  /** Character arrays by address.  A freed address may be handed out again. */
  class Heap {
    var live: map<Ptr, string>

    constructor ()
      ensures live == map[]
    {
      live := map[];
    }

    method Allocate(content: string) returns (p: Ptr)
      modifies this
      ensures p !in old(live) && live == old(live)[p := content]
    {
      ghost var bound := SomeUnused(live.Keys);
      assert bound !in live;
      p :| p !in live;
      live := live[p := content];
    }

    /** Freeing an address that is not live is not allowed. */
    method Free(p: Ptr)
      requires p in live
      modifies this
      ensures live == old(live) - {p}
    {
      live := live - {p};
    }

    /** Nor is reading one. */
    function Content(p: Ptr): string
      requires p in live
      reads this
    {
      live[p]
    }
  }

  // ----- What the operations mean for a row -----

  function KeyIndex(table: string, key: string): string {
    CString(table + key)
  }

  function Name(f: Field): string {
    CString(f.0)
  }

  function Value(f: Field): string {
    CString(f.1)
  }

  predicate DistinctCNames(values: seq<Field>) {
    forall i, j :: 0 <= i < j < |values| ==> Name(values[i]) != Name(values[j])
  }

  predicate Named(values: seq<Field>, name: string) {
    exists i :: 0 <= i < |values| && Name(values[i]) == name
  }

  /** Every value takes its place unless the place is taken. */
  function KeepFirst(row: Row, values: seq<Field>): Row {
    if values == [] then row
    else
      var last := values[|values| - 1];
      var r := KeepFirst(row, values[..|values| - 1]);
      if Name(last) in r then r else r[Name(last) := Value(last)]
  }

  /** Every value takes its place, taken or not. */
  function KeepLast(row: Row, values: seq<Field>): Row {
    if values == [] then row
    else
      var last := values[|values| - 1];
      KeepLast(row, values[..|values| - 1])[Name(last) := Value(last)]
  }

  /** How many values find their place taken. */
  function Lost(row: Row, values: seq<Field>): nat {
    if values == [] then 0
    else
      var before := values[..|values| - 1];
      Lost(row, before) + if Name(values[|values| - 1]) in KeepFirst(row, before) then 1 else 0
  }

  lemma KeepNone(row: Row, values: seq<Field>)
    ensures KeepFirst(row, values[..0]) == row && KeepLast(row, values[..0]) == row && Lost(row, values[..0]) == 0
    ensures values[..|values|] == values
  {
  }

  lemma KeepOneMore(row: Row, values: seq<Field>, i: nat)
    requires i < |values|
    ensures var r := KeepFirst(row, values[..i]);
            KeepFirst(row, values[..i + 1]) == if Name(values[i]) in r then r else r[Name(values[i]) := Value(values[i])]
    ensures Lost(row, values[..i + 1])
            == Lost(row, values[..i]) + if Name(values[i]) in KeepFirst(row, values[..i]) then 1 else 0
    ensures KeepLast(row, values[..i + 1]) == KeepLast(row, values[..i])[Name(values[i]) := Value(values[i])]
  {
    assert values[..i + 1][..i] == values[..i];
  }

  /** The first value that finds its place taken, by the row or by a value before it. */
  function FirstConflict(row: Row, values: seq<Field>): (n: nat)
    ensures n <= |values|
    ensures n < |values| ==> Name(values[n]) in row || Named(values[..n], Name(values[n]))
    ensures forall i :: 0 <= i < n ==> Name(values[i]) !in row && !Named(values[..i], Name(values[i]))
  {
    if values == [] then 0
    else
      var last := |values| - 1;
      var n := FirstConflict(row, values[..last]);
      assert forall i :: 0 <= i <= last ==> values[..last][..i] == values[..i];
      if n < last || Name(values[last]) in row || Named(values[..last], Name(values[last])) then n else |values|
  }

  lemma {:induction false} KeptNames(row: Row, values: seq<Field>, name: string)
    ensures name in KeepFirst(row, values) <==> name in row || Named(values, name)
  {
    if values != [] {
      KeptNames(row, values[..|values| - 1], name);
      NamedOneMore(values, name);
    }
  }

  lemma NamedOneMore(values: seq<Field>, name: string)
    requires values != []
    ensures Named(values, name) <==> Named(values[..|values| - 1], name) || Name(values[|values| - 1]) == name
  {
    var before := values[..|values| - 1];
    if Named(values, name) {
      var i :| 0 <= i < |values| && Name(values[i]) == name;
      assert i < |values| - 1 ==> before[i] == values[i];
    }
    if Named(before, name) {
      var i :| 0 <= i < |before| && Name(before[i]) == name;
      assert values[i] == before[i];
    }
  }

  lemma ConflictAt(row: Row, values: seq<Field>, i: nat)
    requires i < |values| && i <= FirstConflict(row, values)
    ensures Name(values[i]) in KeepFirst(row, values[..i]) <==> i == FirstConflict(row, values)
  {
    KeptNames(row, values[..i], Name(values[i]));
  }

  /** The requested fields that the row has, in the order of the request. */
  function Requested(row: Row, fields: seq<string>): seq<Field> {
    if fields == [] then []
    else
      var last := fields[|fields| - 1];
      Requested(row, fields[..|fields| - 1]) + if CString(last) in row then [(last, row[CString(last)])] else []
  }

  /** Without a request the answer lists the whole row, each field once. */
  ghost predicate Answers(row: Row, fields: Option<seq<string>>, answer: seq<Field>) {
    match fields
    case Some(names) => answer == Requested(row, names)
    case None =>
      && (forall i :: 0 <= i < |answer| ==> answer[i].0 in row && answer[i].1 == row[answer[i].0])
      && Enumerates(seq(|answer|, i requires 0 <= i < |answer| => answer[i].0), row.Keys)
  }

  function With(rows: map<string, Row>, k: string, row: Row): map<string, Row> {
    rows[k := row]
  }

  function RowOrEmpty(rows: map<string, Row>, k: string): Row {
    if k in rows then rows[k] else map[]
  }

  lemma WithWith(rows: map<string, Row>, k: string, a: Row, b: Row)
    ensures k in With(rows, k, a) && With(rows, k, a)[k] == a
    ensures With(With(rows, k, a), k, b) == With(rows, k, b)
    ensures k in rows ==> With(rows, k, rows[k]) == rows
  {
  }

  function Kept(unowned: set<Ptr>, value: Ptr, inserted: bool): set<Ptr> {
    if inserted then unowned else unowned + {value}
  }

  lemma KeptSize(unowned: set<Ptr>, value: Ptr, inserted: bool)
    requires value !in unowned
    ensures unowned <= Kept(unowned, value, inserted)
    ensures |Kept(unowned, value, inserted)| == |unowned| + if inserted then 0 else 1
  {
  }

  // ----- Who owns which string -----

  /**
   * What the field tables hold, as pointers and as strings, where every held pointer is held, and the live strings no
   * table holds.
   */
  datatype Ledger = Ledger(
    places: map<string, map<string, Ptr>>,
    rows: map<string, Row>,
    owner: map<Ptr, (string, string)>,
    unowned: set<Ptr>)
  {
    /** Every live string is held in exactly one place or in none, and nothing holds a string that is not live. */
    ghost predicate Consistent(live: map<Ptr, string>) {
      SameShape() && AllHeld(live) && AllOwned() && Balanced(live)
    }

    ghost predicate SameShape() {
      places.Keys == rows.Keys && forall k :: k in places ==> places[k].Keys == rows[k].Keys
    }

    ghost predicate AllHeld(live: map<Ptr, string>) {
      forall k, f :: k in places && f in places[k] ==> Holds(k, f, places[k][f], live)
    }

    ghost predicate AllOwned() {
      forall p :: p in owner ==> HeldAt(p, owner[p].0, owner[p].1)
    }

    ghost predicate Balanced(live: map<Ptr, string>) {
      owner.Keys !! unowned && live.Keys == owner.Keys + unowned
    }

    predicate HeldAt(p: Ptr, k: string, f: string) {
      k in places && f in places[k] && places[k][f] == p
    }

    ghost predicate Holds(k: string, f: string, p: Ptr, live: map<Ptr, string>)
    {
      p in owner && owner[p] == (k, f) && p in live && k in rows && f in rows[k] && live[p] == rows[k][f]
    }

    function Allocated(p: Ptr): Ledger {
      this.(unowned := unowned + {p})
    }

    function Freed(p: Ptr): Ledger {
      this.(unowned := unowned - {p})
    }

    function NewRow(k: string): Ledger {
      this.(places := places[k := map[]], rows := rows[k := map[]])
    }

    /** Row `k` takes the unowned string `p` for field `f`; a string it held there is unowned afterwards. */
    function Stored(k: string, f: string, p: Ptr, content: string): Ledger
      requires k in places && k in rows
    {
      var out := if f in places[k] then {places[k][f]} else {};
      Ledger(places[k := places[k][f := p]], rows[k := rows[k][f := content]], (owner - out)[p := (k, f)],
             unowned - {p} + out)
    }

    function Dropped(k: string): Ledger
      requires k in places
    {
      Ledger(places - {k}, rows - {k}, owner - places[k].Values, unowned)
    }
  }

  lemma AllocatedConsistent(l: Ledger, live: map<Ptr, string>, p: Ptr, content: string)
    requires l.Consistent(live) && p !in live
    ensures p !in l.unowned && l.Allocated(p).Consistent(live[p := content])
  {
  }

  lemma FreedConsistent(l: Ledger, live: map<Ptr, string>, p: Ptr)
    requires l.Consistent(live) && p in l.unowned
    ensures p in live && l.Freed(p).Consistent(live - {p})
  {
  }

  lemma NewRowConsistent(l: Ledger, live: map<Ptr, string>, k: string)
    requires l.Consistent(live) && k !in l.places
    ensures k !in l.rows && l.NewRow(k).Consistent(live)
    ensures l.NewRow(k).rows == With(l.rows, k, map[]) && l.NewRow(k).places == l.places[k := map[]]
    ensures l.NewRow(k).unowned == l.unowned
  {
    var m := l.NewRow(k);
    forall j, g | j in m.places && g in m.places[j]
      ensures m.Holds(j, g, m.places[j][g], live)
    {
      assert l.Holds(j, g, l.places[j][g], live);
    }
    forall p | p in m.owner
      ensures m.HeldAt(p, m.owner[p].0, m.owner[p].1)
    {
      assert l.HeldAt(p, l.owner[p].0, l.owner[p].1);
    }
  }

  lemma StoredConsistent(l: Ledger, live: map<Ptr, string>, k: string, f: string, p: Ptr)
    requires l.Consistent(live) && k in l.places && p in l.unowned
    ensures k in l.rows && p in live && l.Stored(k, f, p, live[p]).Consistent(live)
    ensures (f in l.places[k] <==> f in l.rows[k])
    ensures l.Stored(k, f, p, live[p]).places == l.places[k := l.places[k][f := p]]
    ensures l.Stored(k, f, p, live[p]).rows == With(l.rows, k, l.rows[k][f := live[p]])
    ensures l.Stored(k, f, p, live[p]).unowned
            == l.unowned - {p} + if f in l.places[k] then {l.places[k][f]} else {}
    ensures f in l.places[k] ==> l.places[k][f] !in l.unowned
  {
    hide l.AllHeld, l.AllOwned, l.Balanced;
    StoredHeld(l, live, k, f, p);
    StoredOwned(l, live, k, f, p);
    StoredBalanced(l, live, k, f, p);
    StoredShape(l, live, k, f, p);
  }

  lemma StoredShape(l: Ledger, live: map<Ptr, string>, k: string, f: string, p: Ptr)
    requires l.SameShape() && k in l.rows && p in live
    ensures l.Stored(k, f, p, live[p]).SameShape()
  {
  }

  lemma StoredBalanced(l: Ledger, live: map<Ptr, string>, k: string, f: string, p: Ptr)
    requires l.Consistent(live) && k in l.rows && p in l.unowned
    ensures p in live && l.Stored(k, f, p, live[p]).Balanced(live)
    ensures f in l.places[k] ==> l.places[k][f] !in l.unowned
  {
    hide l.AllOwned;
    if f in l.places[k] {
      assert l.Holds(k, f, l.places[k][f], live);
    }
    var m := l.Stored(k, f, p, live[p]);
    assert m.owner.Keys == l.owner.Keys - (if f in l.places[k] then {l.places[k][f]} else {}) + {p};
  }

  lemma StoredHeld(l: Ledger, live: map<Ptr, string>, k: string, f: string, p: Ptr)
    requires l.Consistent(live) && k in l.rows && p in l.unowned
    ensures p in live && l.Stored(k, f, p, live[p]).AllHeld(live)
  {
    hide l.AllOwned;
    var m := l.Stored(k, f, p, live[p]);
    assert f in l.places[k] ==> l.Holds(k, f, l.places[k][f], live);
    forall j, g | j in m.places && g in m.places[j]
      ensures m.Holds(j, g, m.places[j][g], live)
    {
      if (j, g) != (k, f) {
        assert l.Holds(j, g, l.places[j][g], live);
      }
    }
  }

  lemma StoredOwned(l: Ledger, live: map<Ptr, string>, k: string, f: string, p: Ptr)
    requires l.Consistent(live) && k in l.rows && p in l.unowned
    ensures p in live && l.Stored(k, f, p, live[p]).AllOwned()
  {
    var m := l.Stored(k, f, p, live[p]);
    forall q | q in m.owner
      ensures m.HeldAt(q, m.owner[q].0, m.owner[q].1)
    {
      if q != p {
        assert l.HeldAt(q, l.owner[q].0, l.owner[q].1);
      }
    }
  }

  lemma DroppedConsistent(l: Ledger, live: map<Ptr, string>, k: string)
    requires l.Consistent(live) && k in l.places
    ensures l.Dropped(k).Consistent(live - l.places[k].Values)
    ensures l.Dropped(k).rows == l.rows - {k} && l.Dropped(k).places == l.places - {k}
    ensures l.Dropped(k).unowned == l.unowned
  {
    var m, gone := l.Dropped(k), l.places[k].Values;
    forall q | q in gone
      ensures q in l.owner && l.owner[q].0 == k
    {
      var f :| f in l.places[k] && l.places[k][f] == q;
      assert l.Holds(k, f, q, live);
    }
    forall j, g | j in m.places && g in m.places[j]
      ensures m.Holds(j, g, m.places[j][g], live - gone)
    {
      assert l.Holds(j, g, l.places[j][g], live);
    }
    forall q | q in m.owner
      ensures m.HeldAt(q, m.owner[q].0, m.owner[q].1)
    {
      assert l.HeldAt(q, l.owner[q].0, l.owner[q].1);
    }
    assert (live - gone).Keys == live.Keys - gone;
  }

  ghost predicate NoSharing(table: map<string, Ptr>) {
    forall f, g :: f in table && g in table && f != g ==> table[f] != table[g]
  }

  function Pointers(pairs: seq<(string, Ptr)>, n: nat): set<Ptr>
    requires n <= |pairs|
  {
    set i | 0 <= i < n :: pairs[i].1
  }

  lemma NoPointers(pairs: seq<(string, Ptr)>)
    ensures Pointers(pairs, 0) == {}
  {
  }

  lemma PointersOneMore(pairs: seq<(string, Ptr)>, i: nat)
    requires i < |pairs|
    ensures Pointers(pairs, i + 1) == Pointers(pairs, i) + {pairs[i].1}
    ensures (forall j :: 0 <= j < i ==> pairs[j].1 != pairs[i].1) ==> pairs[i].1 !in Pointers(pairs, i)
  {
  }

  lemma FreeNext(live: map<Ptr, string>, freed: set<Ptr>, p: Ptr)
    requires p in live && p !in freed
    ensures p in live - freed && live - freed - {p} == live - (freed + {p})
  {
  }

  /** The entries of a field table hold every string of the row, each once. */
  lemma AllEntries(order: seq<string>, table: map<string, Ptr>, pairs: seq<(string, Ptr)>)
    requires Enumerates(order, table.Keys) && |pairs| == |order|
    requires forall i :: 0 <= i < |pairs| ==> pairs[i].0 == order[i] && pairs[i].1 == table[order[i]]
    requires NoSharing(table)
    ensures Pointers(pairs, |pairs|) == table.Values
    ensures forall i :: 0 <= i < |pairs| ==> pairs[i].0 in table && pairs[i].1 == table[pairs[i].0]
    ensures forall i, j :: 0 <= j < i < |pairs| ==> pairs[j].1 != pairs[i].1
  {
    forall p | p in table.Values
      ensures p in Pointers(pairs, |pairs|)
    {
      var f :| f in table && table[f] == p;
      var i :| 0 <= i < |order| && order[i] == f;
      assert pairs[i].1 == p;
    }
  }

  /** The table of a row, read through the heap. */
  ghost predicate Shows(table: map<string, Ptr>, live: map<Ptr, string>, contents: Row) {
    table.Keys == contents.Keys && forall f :: f in table ==> table[f] in live && live[table[f]] == contents[f]
  }

  /** The length of a scan, an int, is passed as a size_t. */
  function Limit(len: int32): Option<nat> {
    Some(Wrap64(len) as nat)
  }

  lemma LimitIs(len: int32)
    ensures Limit(len).Some? && (len >= 0 ==> Limit(len).value == len)
  {
  }

  /** So a scan of `rest` rows or fewer gives as many as its length says, and all of them if that is negative. */
  predicate Stretches(count: int, rest: int, len: int32) {
    && count <= rest && (0 <= len <= rest ==> count == len)
    && (len > rest || (len < 0 && rest <= 0x8000_0000_0000_0000) ==> count == rest)
  }

  lemma LimitStretches(rest: nat, len: int32)
    ensures Limit(len).Some?
    ensures Stretches(if Limit(len).value < rest then Limit(len).value else rest, rest, len)
  {
  }

  lemma NothingHeld(l: Ledger, live: map<Ptr, string>)
    requires l.Consistent(live) && l.places.Keys == {}
    ensures live.Keys == l.unowned
  {
    assert l.owner.Keys == {};
  }

  // ----- The store -----

  /** Every method holds the lock from beginning to end, so each is one step of a run. */
  class LockStlDb {
    const heap: Heap
    const keyTable: Hashtable<Hashtable<Ptr>>
    ghost var ledger: Ledger
    /** The row a field table belongs to. */
    ghost var keyOf: map<Hashtable<Ptr>, string>

    ghost predicate Valid()
      reads this, heap, keyTable, keyTable.table.Values
    {
      Tables() && ledger.Consistent(heap.live)
    }

    /** The ledger says what the tables hold, and every row has a table of its own. */
    ghost predicate Tables()
      reads this, keyTable, keyTable.table.Values
    {
      && keyTable.Valid()
      && keyTable.table.Keys == ledger.places.Keys
      && (forall k :: k in keyTable.table ==> RowTable(keyTable.table[k], ledger.places[k]))
      && (forall k :: k in keyTable.table ==> keyTable.table[k] in keyOf && keyOf[keyTable.table[k]] == k)
    }

    ghost predicate RowTable(row: Hashtable<Ptr>, contents: map<string, Ptr>)
      reads row
    {
      row as object != keyTable && row.Valid() && row.table == contents
    }

    constructor ()
      ensures Valid() && ledger == Ledger(map[], map[], map[], {})
      ensures fresh(heap) && fresh(keyTable) && keyTable.table == map[]
    {
      heap := new Heap();
      keyTable := new Hashtable();
      ledger := Ledger(map[], map[], map[], {});
      keyOf := map[];
    }

    method CopyString(str: string) returns (p: Ptr)
      requires Valid()
      modifies heap, this
      ensures Valid() && p !in old(ledger).unowned
      ensures ledger.rows == old(ledger).rows && ledger.unowned == old(ledger).unowned + {p}
      ensures heap.live == old(heap.live)[p := CString(str)]
    {
      hide Enumerates, ledger.Consistent;
      p := heap.Allocate(CString(str));
      AllocatedConsistent(ledger, old(heap.live), p, CString(str));
      ledger := ledger.Allocated(p);
    }

    method DeleteString(p: Ptr)
      requires Valid() && p in ledger.unowned
      modifies heap, this
      ensures Valid() && ledger.rows == old(ledger).rows && ledger.unowned == old(ledger).unowned - {p}
      ensures heap.live == old(heap.live) - {p}
    {
      hide Enumerates, ledger.Consistent;
      FreedConsistent(ledger, heap.live, p);
      heap.Free(p);
      ledger := ledger.Freed(p);
    }

    /** The tables of all rows but one, whatever that one is about to become. */
    ghost predicate TablesBut(k: string)
      reads this, keyTable, keyTable.table.Values
    {
      && keyTable.Valid()
      && keyTable.table.Keys == ledger.places.Keys
      && (forall j :: j in keyTable.table && j != k ==> RowTable(keyTable.table[j], ledger.places[j]))
      && (forall j :: j in keyTable.table ==> keyTable.table[j] in keyOf && keyOf[keyTable.table[j]] == j)
    }

    /** The ledger follows once a row's table has taken a string. */
    ghost method Record(k: string, name: string, value: Ptr)
      requires TablesBut(k) && ledger.Consistent(heap.live)
      requires k in keyTable.table && value in ledger.unowned && value in heap.live
      requires RowTable(keyTable.table[k], ledger.places[k][name := value])
      modifies this`ledger
      ensures Valid() && ledger == old(ledger).Stored(k, name, value, heap.live[value])
    {
      hide Enumerates, RowTable, ledger.Consistent, ledger.Stored;
      StoredConsistent(ledger, heap.live, k, name, value);
      ledger := ledger.Stored(k, name, value, heap.live[value]);
    }

    /** The change of the one table, before the ledger follows. */
    method InsertEntry(ghost k: string, row: Hashtable<Ptr>, name: string, value: Ptr) returns (inserted: bool)
      requires Tables() && k in keyTable.table && keyTable.table[k] == row
      modifies row
      ensures keyTable.table == old(keyTable.table) && TablesBut(k) && (inserted <==> name !in ledger.places[k])
      ensures RowTable(row, if inserted then ledger.places[k][name := value] else ledger.places[k])
    {
      hide Enumerates;
      assert RowTable(row, ledger.places[k]) && forall j :: j in keyTable.table && j != k ==> keyTable.table[j] != row;
      inserted := row.Insert(name, value);
    }

    /** Inserting a value into a field table hands it to the row, if it is inserted. */
    method InsertField(ghost k: string, row: Hashtable<Ptr>, name: string, value: Ptr) returns (inserted: bool)
      requires Valid() && k in keyTable.table && keyTable.table[k] == row && value in ledger.unowned
      modifies this, row
      ensures Valid() && value in heap.live && keyTable.table == old(keyTable.table)
      ensures k in old(ledger).rows && (inserted <==> name !in old(ledger).rows[k])
      ensures ledger.rows == if inserted then With(old(ledger).rows, k, old(ledger).rows[k][name := heap.live[value]])
                             else old(ledger).rows
      ensures ledger.unowned == old(ledger).unowned - if inserted then {value} else {}
    {
      hide Enumerates, With, RowTable, ledger.Consistent, ledger.Stored;
      StoredConsistent(ledger, heap.live, k, name, value);
      inserted := InsertEntry(k, row, name, value);
      if inserted {
        Record(k, name, value);
      }
    }

    /** Updating a field swaps the new value for the one the row held. */
    method UpdateField(ghost k: string, row: Hashtable<Ptr>, name: string, value: Ptr) returns (previous: Option<Ptr>)
      requires Valid() && k in keyTable.table && keyTable.table[k] == row && value in ledger.unowned
      modifies this, row
      ensures Valid() && value in heap.live && keyTable.table == old(keyTable.table)
      ensures k in old(ledger).rows && (previous.Some? <==> name in old(ledger).rows[k])
      ensures ledger.rows == if previous.None? then old(ledger).rows
                             else With(old(ledger).rows, k, old(ledger).rows[k][name := heap.live[value]])
      ensures previous.Some? ==> previous.value !in old(ledger).unowned
      ensures ledger.unowned == if previous.None? then old(ledger).unowned
                                else old(ledger).unowned - {value} + {previous.value}
    {
      hide Enumerates, With, ledger.Consistent, ledger.Stored;
      StoredConsistent(ledger, heap.live, k, name, value);
      assert RowTable(row, ledger.places[k]) && forall j :: j in keyTable.table && j != k ==> keyTable.table[j] != row;
      previous := row.Update(name, value);
      assert RowTable(row, if previous.Some? then old(ledger).places[k][name := value] else old(ledger).places[k]);
      hide RowTable;
      assert TablesBut(k);
      if previous.Some? {
        Record(k, name, value);
      }
    }

    /** One round of inserting: the copy stays behind, held by nothing, if its place is taken. */
    method AddField(ghost k: string, row: Hashtable<Ptr>, field: Field) returns (value: Ptr, inserted: bool)
      requires Valid() && k in keyTable.table && keyTable.table[k] == row
      modifies this, heap, row
      ensures Valid() && k in old(ledger).rows && keyTable.table == old(keyTable.table)
      ensures inserted <==> Name(field) !in old(ledger).rows[k]
      ensures ledger.rows == if inserted then With(old(ledger).rows, k, old(ledger).rows[k][Name(field) := Value(field)])
                             else old(ledger).rows
      ensures value !in old(ledger).unowned
      ensures ledger.unowned == Kept(old(ledger).unowned, value, inserted)
    {
      hide Valid;
      value := CopyString(field.1);
      inserted := InsertField(k, row, CString(field.0), value);
    }

    /** One round of updating: the string that is replaced is freed. */
    method SetField(ghost k: string, row: Hashtable<Ptr>, field: Field)
      requires Valid() && k in keyTable.table && keyTable.table[k] == row
      modifies this, heap, row
      ensures Valid() && k in old(ledger).rows && keyTable.table == old(keyTable.table)
      ensures ledger.rows == With(old(ledger).rows, k, old(ledger).rows[k][Name(field) := Value(field)])
      ensures ledger.unowned == old(ledger).unowned
    {
      hide Valid;
      var value := CopyString(field.1);
      var previous := UpdateField(k, row, CString(field.0), value);
      if previous.None? {
        var inserted := InsertField(k, row, CString(field.0), value);
      } else {
        DeleteString(previous.value);
      }
    }

    /** The ledger follows once the key table has taken an empty row. */
    ghost method RecordRow(k: string, row: Hashtable<Ptr>)
      requires keyTable.Valid() && k !in ledger.places && k in keyTable.table && keyTable.table[k] == row
      requires keyTable.table.Keys == ledger.places.Keys + {k} && RowTable(row, map[])
      requires forall j :: j in keyTable.table && j != k ==>
                 && RowTable(keyTable.table[j], ledger.places[j])
                 && keyTable.table[j] in keyOf && keyOf[keyTable.table[j]] == j && keyTable.table[j] != row
      requires ledger.Consistent(heap.live)
      modifies this`ledger, this`keyOf
      ensures Valid() && k !in old(ledger).rows && ledger == old(ledger).NewRow(k)
    {
      hide Enumerates, RowTable, With, ledger.Consistent, ledger.NewRow;
      NewRowConsistent(ledger, heap.live, k);
      ledger := ledger.NewRow(k);
      keyOf := keyOf[row := k];
    }

    method AddRow(k: string) returns (row: Hashtable<Ptr>)
      requires Valid() && k !in keyTable.table
      modifies this, keyTable
      ensures Valid() && fresh(row) && keyTable.table == old(keyTable.table)[k := row]
      ensures keyTable.table.Values <= old(keyTable.table.Values) + {row}
      ensures k !in old(ledger).rows && ledger.rows == With(old(ledger).rows, k, map[])
      ensures ledger.unowned == old(ledger).unowned
    {
      hide Enumerates, With, ledger.Consistent, ledger.NewRow;
      NewRowConsistent(ledger, heap.live, k);
      row := new Hashtable();
      assert RowTable(row, map[]);
      hide RowTable;
      var inserted := keyTable.Insert(k, row);
      ValuesGrow(old(keyTable.table), k, row);
      RecordRow(k, row);
    }

    static lemma ValuesGrow(table: map<string, Hashtable<Ptr>>, k: string, row: Hashtable<Ptr>)
      ensures table[k := row].Values <= table.Values + {row} && table[k := row].Keys == table.Keys + {k}
    {
    }

    method FillRow(ghost k: string, row: Hashtable<Ptr>, values: seq<Field>)
      requires Valid() && k in keyTable.table && keyTable.table[k] == row
      modifies this, heap, row
      ensures Valid() && k in old(ledger).rows && keyTable.table == old(keyTable.table)
      ensures ledger.rows == With(old(ledger).rows, k, KeepFirst(old(ledger).rows[k], values))
      ensures old(ledger).unowned <= ledger.unowned
      ensures |ledger.unowned| == |old(ledger).unowned| + Lost(old(ledger).rows[k], values)
    {
      RowKnown(k);
      hide Valid, KeepFirst, KeepLast, Kept, Lost, Name, Value, With;
      ghost var before := ledger.rows[k];
      KeepNone(before, values);
      WithWith(ledger.rows, k, before, before);
      for i := 0 to |values|
        invariant Valid() && keyTable.table == old(keyTable.table)
        invariant ledger.rows == With(old(ledger).rows, k, KeepFirst(before, values[..i]))
        invariant old(ledger).unowned <= ledger.unowned
        invariant |ledger.unowned| == |old(ledger).unowned| + Lost(before, values[..i])
      {
        KeepOneMore(before, values, i);
        WithWith(old(ledger).rows, k, KeepFirst(before, values[..i]), KeepFirst(before, values[..i + 1]));
        ghost var unowned := ledger.unowned;
        var value, inserted := AddField(k, row, values[i]);
        KeptSize(unowned, value, inserted);
      }
    }

    method OverwriteRow(ghost k: string, row: Hashtable<Ptr>, values: seq<Field>)
      requires Valid() && k in keyTable.table && keyTable.table[k] == row
      modifies this, heap, row
      ensures Valid() && k in old(ledger).rows && keyTable.table == old(keyTable.table)
      ensures ledger.rows == With(old(ledger).rows, k, KeepLast(old(ledger).rows[k], values))
      ensures ledger.unowned == old(ledger).unowned
    {
      RowKnown(k);
      hide Valid, KeepFirst, KeepLast, Kept, Lost, Name, Value, With;
      ghost var before := ledger.rows[k];
      KeepNone(before, values);
      WithWith(ledger.rows, k, before, before);
      for i := 0 to |values|
        invariant Valid() && keyTable.table == old(keyTable.table)
        invariant ledger.rows == With(old(ledger).rows, k, KeepLast(before, values[..i]))
        invariant ledger.unowned == old(ledger).unowned
      {
        KeepOneMore(before, values, i);
        WithWith(old(ledger).rows, k, KeepLast(before, values[..i]), KeepLast(before, values[..i + 1]));
        SetField(k, row, values[i]);
      }
    }

    lemma RowKnown(k: string)
      requires Valid()
      ensures k in keyTable.table <==> k in ledger.rows
    {
      hide Enumerates;
    }

    /** A row that exists is overwritten field by field; one that does not is created. */
    method Update(table: string, key: string, values: seq<Field>) returns (r: Status)
      requires Valid()
      modifies this, heap, keyTable, keyTable.table.Values
      ensures Valid() && r == Ok
      ensures fresh(keyTable.table.Values - old(keyTable.table.Values))
      ensures var k, rows := KeyIndex(table, key), old(ledger).rows;
              ledger.rows == With(rows, k, if k in rows then KeepLast(rows[k], values) else KeepFirst(map[], values))
      ensures old(ledger).unowned <= ledger.unowned
      ensures |ledger.unowned|
              == |old(ledger).unowned| + if KeyIndex(table, key) in old(ledger).rows then 0 else Lost(map[], values)
    {
      hide KeyIndex;
      r := Ok;
      var k := KeyIndex(table, key);
      RowKnown(k);
      hide Valid, KeepFirst, KeepLast, Lost, With;
      match keyTable.Get(k)
      case None =>
        var row := AddRow(k);
        WithWith(old(ledger).rows, k, map[], KeepFirst(map[], values));
        FillRow(k, row, values);
      case Some(row) =>
        assert row in keyTable.table.Values;
        OverwriteRow(k, row, values);
    }

    /** As before, but a copy that finds its place taken is freed again. */
    method TryField(ghost k: string, row: Hashtable<Ptr>, field: Field) returns (inserted: bool)
      requires Valid() && k in keyTable.table && keyTable.table[k] == row
      modifies this, heap, row
      ensures Valid() && k in old(ledger).rows && keyTable.table == old(keyTable.table)
      ensures inserted <==> Name(field) !in old(ledger).rows[k]
      ensures ledger.rows == if inserted then With(old(ledger).rows, k, old(ledger).rows[k][Name(field) := Value(field)])
                             else old(ledger).rows
      ensures ledger.unowned == old(ledger).unowned
    {
      hide Valid, Name, Value, With;
      var value: Ptr;
      value, inserted := AddField(k, row, field);
      if !inserted {
        DeleteString(value);
      }
    }

    /** Adds fields up to the first conflict. */
    method InsertInto(ghost k: string, row: Hashtable<Ptr>, values: seq<Field>) returns (r: Status)
      requires Valid() && k in keyTable.table && keyTable.table[k] == row
      modifies this, heap, row
      ensures Valid() && k in old(ledger).rows && keyTable.table == old(keyTable.table)
      ensures var before := old(ledger).rows[k];
              && ledger.rows == With(old(ledger).rows, k, KeepFirst(before, values[..FirstConflict(before, values)]))
              && r == if FirstConflict(before, values) == |values| then Ok else Conflict
      ensures ledger.unowned == old(ledger).unowned
    {
      RowKnown(k);
      hide Valid, FirstConflict, KeepFirst, KeepLast, Lost, Name, Value, With;
      ghost var before := ledger.rows[k];
      KeepNone(before, values);
      WithWith(ledger.rows, k, before, before);
      for i := 0 to |values|
        invariant Valid() && keyTable.table == old(keyTable.table)
        invariant i <= FirstConflict(before, values)
        invariant ledger.rows == With(old(ledger).rows, k, KeepFirst(before, values[..i]))
        invariant ledger.unowned == old(ledger).unowned
      {
        KeepOneMore(before, values, i);
        WithWith(old(ledger).rows, k, KeepFirst(before, values[..i]), KeepFirst(before, values[..i + 1]));
        ConflictAt(before, values, i);
        var inserted := TryField(k, row, values[i]);
        if !inserted {
          return Conflict;
        }
      }
      r := Ok;
    }

    method GetOrAddRow(k: string) returns (row: Hashtable<Ptr>)
      requires Valid()
      modifies this, keyTable
      ensures Valid() && k in keyTable.table && keyTable.table[k] == row
      ensures ledger.rows == With(old(ledger).rows, k, RowOrEmpty(old(ledger).rows, k))
      ensures ledger.unowned == old(ledger).unowned
      ensures keyTable.table.Values <= old(keyTable.table.Values) + {row}
      ensures row in old(keyTable.table.Values) || fresh(row)
    {
      RowKnown(k);
      hide Valid, With;
      match keyTable.Get(k)
      case None =>
        row := AddRow(k);
      case Some(found) =>
        WithWith(ledger.rows, k, ledger.rows[k], ledger.rows[k]);
        assert found in keyTable.table.Values;
        row := found;
    }

    /** Creates the row if need be, even when a conflict follows. */
    method Insert(table: string, key: string, values: seq<Field>) returns (r: Status)
      requires Valid()
      modifies this, heap, keyTable, keyTable.table.Values
      ensures Valid() && ledger.unowned == old(ledger).unowned
      ensures fresh(keyTable.table.Values - old(keyTable.table.Values))
      ensures var before := RowOrEmpty(old(ledger).rows, KeyIndex(table, key));
              && ledger.rows == With(old(ledger).rows, KeyIndex(table, key),
                                     KeepFirst(before, values[..FirstConflict(before, values)]))
              && r == if FirstConflict(before, values) == |values| then Ok else Conflict
    {
      hide KeyIndex, Valid, FirstConflict, KeepFirst, With, RowOrEmpty;
      var k := KeyIndex(table, key);
      ghost var before := RowOrEmpty(ledger.rows, k);
      var row := GetOrAddRow(k);
      WithWith(old(ledger).rows, k, before, KeepFirst(before, values[..FirstConflict(before, values)]));
      r := InsertInto(k, row, values);
    }

    method DeleteFieldTable(row: Hashtable<Ptr>)
      requires row.Valid() && NoSharing(row.table)
      requires forall f :: f in row.table ==> row.table[f] in heap.live
      modifies heap
      ensures heap.live == old(heap.live) - row.table.Values
    {
      hide Enumerates, NoSharing, Pointers;
      var pairs := row.Entries(None, None);
      AllEntries(row.order, row.table, pairs);
      FreeAll(pairs);
    }

    method FreeAll(pairs: seq<(string, Ptr)>)
      requires forall i :: 0 <= i < |pairs| ==> pairs[i].1 in heap.live
      requires forall i, j :: 0 <= j < i < |pairs| ==> pairs[j].1 != pairs[i].1
      modifies heap
      ensures heap.live == old(heap.live) - Pointers(pairs, |pairs|)
    {
      hide Pointers;
      NoPointers(pairs);
      for i := 0 to |pairs|
        invariant heap.live == old(heap.live) - Pointers(pairs, i)
      {
        PointersOneMore(pairs, i);
        FreeNext(old(heap.live), Pointers(pairs, i), pairs[i].1);
        heap.Free(pairs[i].1);
      }
    }

    lemma RowOwnsItsStrings(k: string)
      requires ledger.Consistent(heap.live) && k in ledger.places
      ensures NoSharing(ledger.places[k])
      ensures forall f :: f in ledger.places[k] ==> ledger.places[k][f] in heap.live
    {
      var row := ledger.places[k];
      forall f | f in row
        ensures row[f] in heap.live && row[f] in ledger.owner && ledger.owner[row[f]] == (k, f)
      {
        assert ledger.Holds(k, f, row[f], heap.live);
      }
    }

    method Delete(table: string, key: string) returns (r: Status)
      requires Valid()
      modifies this, heap, keyTable
      ensures Valid() && ledger.unowned == old(ledger).unowned
      ensures keyTable.table.Values <= old(keyTable.table.Values)
      ensures r == if KeyIndex(table, key) in old(ledger).rows then Ok else NoData
      ensures ledger.rows == old(ledger).rows - {KeyIndex(table, key)}
    {
      hide KeyIndex, Enumerates, Without, ledger.Consistent;
      var k := KeyIndex(table, key);
      RowKnown(k);
      var removed := keyTable.Remove(k);
      match removed
      case None =>
        r := NoData;
      case Some(row) =>
        DropRow(k, row);
        r := Ok;
    }

    /** Frees the strings of a row whose table is on its way out. */
    method DropRow(ghost k: string, row: Hashtable<Ptr>)
      requires ledger.Consistent(heap.live)
      requires k in ledger.places && row.Valid() && row.table == ledger.places[k]
      modifies this`ledger, heap
      ensures ledger.Consistent(heap.live) && ledger.unowned == old(ledger).unowned
      ensures ledger.rows == old(ledger).rows - {k} && ledger.places == old(ledger).places - {k}
    {
      RowOwnsItsStrings(k);
      DroppedConsistent(ledger, heap.live, k);
      hide Enumerates, NoSharing, ledger.Consistent, ledger.Dropped;
      DeleteFieldTable(row);
      ledger := ledger.Dropped(k);
    }

    /** What destroying the store leaves behind: exactly the strings no row held. */
    method Destroy()
      requires Valid()
      modifies this, heap
      ensures heap.live.Keys == old(ledger).unowned
    {
      var pairs := keyTable.Entries(None, None);
      EveryRowListed(pairs);
      hide Valid, ledger.Consistent;
      DestroyRows(pairs);
      NothingHeld(ledger, heap.live);
    }

    /** These are the rows at these places with their tables, each once. */
    static ghost predicate Lists(pairs: seq<(string, Hashtable<Ptr>)>, places: map<string, map<string, Ptr>>)
      reads set i | 0 <= i < |pairs| :: pairs[i].1
    {
      && (forall k :: k in places ==> exists i :: 0 <= i < |pairs| && pairs[i].0 == k)
      && (forall i :: 0 <= i < |pairs| ==>
            pairs[i].0 in places && pairs[i].1.Valid() && pairs[i].1.table == places[pairs[i].0])
      && (forall i, j :: 0 <= i < j < |pairs| ==> pairs[i].0 != pairs[j].0)
    }

    static lemma ListsRest(pairs: seq<(string, Hashtable<Ptr>)>, places: map<string, map<string, Ptr>>)
      requires Lists(pairs, places) && pairs != []
      ensures pairs[0].0 in places && pairs[0].1.Valid() && pairs[0].1.table == places[pairs[0].0]
      ensures Lists(pairs[1..], places - {pairs[0].0})
    {
      hide Enumerates;
      forall k | k in places && k != pairs[0].0
        ensures exists i :: 0 <= i < |pairs[1..]| && pairs[1..][i].0 == k
      {
        var i :| 0 <= i < |pairs| && pairs[i].0 == k;
        assert pairs[1..][i - 1].0 == k;
      }
    }

    lemma EveryRowListed(pairs: seq<(string, Hashtable<Ptr>)>)
      requires Valid() && |pairs| == |keyTable.order|
      requires forall i :: 0 <= i < |pairs| ==>
                 && pairs[i].0 == keyTable.order[i]
                 && pairs[i].0 in keyTable.table && pairs[i].1 == keyTable.table[pairs[i].0]
      ensures Lists(pairs, ledger.places)
    {
      forall k | k in ledger.places
        ensures exists i :: 0 <= i < |pairs| && pairs[i].0 == k
      {
        assert k in keyTable.order;
        var i :| 0 <= i < |keyTable.order| && keyTable.order[i] == k;
        assert pairs[i].0 == k;
      }
      hide Enumerates;
      forall i | 0 <= i < |pairs|
        ensures RowTable(pairs[i].1, ledger.places[pairs[i].0])
      {
        assert RowTable(keyTable.table[pairs[i].0], ledger.places[pairs[i].0]);
      }
    }

    method DestroyRows(pairs: seq<(string, Hashtable<Ptr>)>)
      requires ledger.Consistent(heap.live) && Lists(pairs, ledger.places)
      modifies this`ledger, heap
      ensures ledger.Consistent(heap.live) && ledger.unowned == old(ledger).unowned && ledger.places.Keys == {}
    {
      hide Enumerates, Lists, ledger.Consistent;
      assert pairs[0..] == pairs;
      for i := 0 to |pairs|
        invariant ledger.Consistent(heap.live) && ledger.unowned == old(ledger).unowned
        invariant Lists(pairs[i..], ledger.places)
      {
        assert pairs[i..][0] == pairs[i] && pairs[i..][1..] == pairs[i + 1..];
        ListsRest(pairs[i..], ledger.places);
        ghost var rest := ledger.places - {pairs[i].0};
        assert forall j :: i < j < |pairs| ==> pairs[j].1 as object != heap && pairs[j].1 as object != this;
        DropRow(pairs[i].0, pairs[i].1);
        assert Lists(pairs[i + 1..], rest);
      }
      assert pairs[|pairs|..] == [];
      ListsNothing(ledger.places);
    }

    static lemma ListsNothing(places: map<string, map<string, Ptr>>)
      requires Lists([], places)
      ensures places.Keys == {}
    {
    }

    method AnswerRow(row: Hashtable<Ptr>, ghost contents: Row, fields: Option<seq<string>>)
      returns (answer: seq<Field>)
      requires row.Valid() && Shows(row.table, heap.live, contents)
      ensures Answers(contents, fields, answer)
    {
      match fields
      case None =>
        answer := ListRow(row, contents);
      case Some(names) =>
        answer := [];
        for i := 0 to |names|
          invariant answer == Requested(contents, names[..i])
        {
          assert names[..i + 1][..i] == names[..i];
          var value := row.Get(CString(names[i]));
          if value.Some? {
            answer := answer + [(names[i], heap.Content(value.value))];
          }
        }
        assert names[..|names|] == names;
    }

    method ListRow(row: Hashtable<Ptr>, ghost contents: Row) returns (answer: seq<Field>)
      requires row.Valid() && Shows(row.table, heap.live, contents)
      ensures Answers(contents, None, answer)
    {
      var pairs := row.Entries(None, None);
      answer := [];
      for i := 0 to |pairs|
        invariant |answer| == i
        invariant forall j :: 0 <= j < i ==>
                    answer[j].0 == row.order[j] && answer[j].0 in contents && answer[j].1 == contents[answer[j].0]
      {
        answer := answer + [(pairs[i].0, heap.Content(pairs[i].1))];
      }
      assert seq(|answer|, i requires 0 <= i < |answer| => answer[i].0) == row.order;
    }

    lemma RowContents(k: string)
      requires Valid() && k in keyTable.table
      ensures k in ledger.rows && keyTable.table[k].Valid()
      ensures Shows(keyTable.table[k].table, heap.live, ledger.rows[k])
    {
      hide Enumerates;
      assert RowTable(keyTable.table[k], ledger.places[k]);
      forall f | f in keyTable.table[k].table
        ensures ledger.Holds(k, f, keyTable.table[k].table[f], heap.live)
      {
        assert f in ledger.places[k];
      }
    }

    /** What a request for row `k` may be answered. */
    ghost predicate RowAnswer(k: string, fields: Option<seq<string>>, answer: seq<Field>)
      reads this
    {
      k in ledger.rows && Answers(ledger.rows[k], fields, answer)
    }

    method Read(table: string, key: string, fields: Option<seq<string>>) returns (r: Status, result: seq<Field>)
      requires Valid()
      ensures r == if KeyIndex(table, key) in ledger.rows then Ok else NoData
      ensures r == Ok ==> RowAnswer(KeyIndex(table, key), fields, result)
    {
      var k := KeyIndex(table, key);
      RowKnown(k);
      match keyTable.Get(k)
      case None =>
        r, result := NoData, [];
      case Some(row) =>
        RowContents(k);
        hide Answers, Valid;
        result := AnswerRow(row, ledger.rows[k], fields);
        r := Ok;
    }

    /** Rows are neighbours in the iteration order, and a negative length turns into no limit. */
    method Scan(table: string, key: string, len: int32, fields: Option<seq<string>>)
      returns (r: Status, result: seq<seq<Field>>)
      requires Valid()
      ensures r == Ok && (len >= 0 ==> |result| <= len)
      ensures KeyIndex(table, key) !in ledger.rows ==> result == []
      ensures forall p :: 0 <= p < |keyTable.order| && keyTable.order[p] == KeyIndex(table, key) ==>
                && |result| <= |keyTable.order| - p
                && (0 <= len <= |keyTable.order| - p ==> |result| == len)
                && (len > |keyTable.order| - p || (len < 0 && |keyTable.order| <= 0x8000_0000_0000_0000) ==>
                      |result| == |keyTable.order| - p)
                && forall i :: 0 <= i < |result| ==> RowAnswer(keyTable.order[p + i], fields, result[i])
    {
      hide KeyIndex, Limit, RowAnswer, Enumerates, PositionOf, StartOf, CountOf, ledger.Consistent;
      ScanStretch(KeyIndex(table, key), len);
      var pairs := keyTable.Entries(Some(KeyIndex(table, key)), Limit(len));
      result := ScanRows(pairs, fields);
      r := Ok;
    }

    lemma ScanStretch(k: string, len: int32)
      requires Valid()
      ensures k !in ledger.rows ==> CountOf(keyTable.order, Some(k), Limit(len)) == 0
      ensures len >= 0 ==> CountOf(keyTable.order, Some(k), Limit(len)) <= len
      ensures forall p :: 0 <= p < |keyTable.order| && keyTable.order[p] == k ==>
                && StartOf(keyTable.order, Some(k)) == p
                && Stretches(CountOf(keyTable.order, Some(k), Limit(len)), |keyTable.order| - p, len)
    {
      RowKnown(k);
      assert keyTable.Valid() && keyTable.table.Keys == ledger.places.Keys;
      hide Valid, Stretches, Limit;
      LimitIs(len);
      if k !in keyTable.table {
        StretchIs(keyTable.order, keyTable.table.Keys, Some(k), Limit(len), |keyTable.order|);
      }
      forall p | 0 <= p < |keyTable.order| && keyTable.order[p] == k
        ensures StartOf(keyTable.order, Some(k)) == p
        ensures Stretches(CountOf(keyTable.order, Some(k), Limit(len)), |keyTable.order| - p, len)
      {
        StretchIs(keyTable.order, keyTable.table.Keys, Some(k), Limit(len), p);
        LimitStretches(|keyTable.order| - p, len);
      }
    }

    method ScanRows(pairs: seq<(string, Hashtable<Ptr>)>, fields: Option<seq<string>>)
      returns (result: seq<seq<Field>>)
      requires Valid()
      requires forall i :: 0 <= i < |pairs| ==> pairs[i].0 in keyTable.table && keyTable.table[pairs[i].0] == pairs[i].1
      ensures |result| == |pairs|
      ensures forall i :: 0 <= i < |pairs| ==> RowAnswer(pairs[i].0, fields, result[i])
    {
      hide RowAnswer, Valid;
      result := [];
      for i := 0 to |pairs|
        invariant |result| == i
        invariant forall j :: 0 <= j < i ==> RowAnswer(pairs[j].0, fields, result[j])
      {
        var row := ScanRow(pairs[i].0, pairs[i].1, fields);
        result := result + [row];
      }
    }

    method ScanRow(ghost k: string, row: Hashtable<Ptr>, fields: Option<seq<string>>) returns (answer: seq<Field>)
      requires Valid() && k in keyTable.table && keyTable.table[k] == row
      ensures RowAnswer(k, fields, answer)
    {
      RowContents(k);
      hide Answers, Valid;
      answer := AnswerRow(row, ledger.rows[k], fields);
    }
  }

  // ----- What the operations amount to -----

  /** Of the values that name a field the last one counts. */
  lemma {:induction false} KeptLast(row: Row, values: seq<Field>, i: nat)
    requires i < |values| && forall j :: i < j < |values| ==> Name(values[j]) != Name(values[i])
    ensures Name(values[i]) in KeepLast(row, values) && KeepLast(row, values)[Name(values[i])] == Value(values[i])
  {
    if i < |values| - 1 {
      KeptLast(row, values[..|values| - 1], i);
    }
  }

  /** When a row is created, or by an insert, the first one counts, and a field the row has stays as it is. */
  lemma {:induction false} KeptFirst(row: Row, values: seq<Field>, i: nat)
    requires i < |values|
    requires Name(values[i]) in row || forall j :: 0 <= j < i ==> Name(values[j]) != Name(values[i])
    ensures var kept := KeepFirst(row, values);
            && Name(values[i]) in kept
            && kept[Name(values[i])] == if Name(values[i]) in row then row[Name(values[i])] else CString(values[i].1)
  {
    var last := |values| - 1;
    if i < last {
      KeptFirst(row, values[..last], i);
    } else {
      KeptNames(row, values[..last], Name(values[i]));
      if Name(values[i]) in row {
        RowStays(row, values[..last], Name(values[i]));
      }
    }
  }

  lemma {:induction false} RowStays(row: Row, values: seq<Field>, name: string)
    requires name in row
    ensures name in KeepFirst(row, values) && KeepFirst(row, values)[name] == row[name]
  {
    if values != [] {
      RowStays(row, values[..|values| - 1], name);
    }
  }

  /** A field that no value names stays as it was. */
  lemma {:induction false} KeptAsIs(row: Row, values: seq<Field>, name: string)
    requires !Named(values, name)
    ensures name in KeepLast(row, values) <==> name in row
    ensures name in row ==> KeepLast(row, values)[name] == row[name]
  {
    if values != [] {
      NamedOneMore(values, name);
      KeptAsIs(row, values[..|values| - 1], name);
    }
  }

  lemma DistinctPrefix(values: seq<Field>)
    requires values != []
    ensures DistinctCNames(values)
            <==> DistinctCNames(values[..|values| - 1]) && !Named(values[..|values| - 1], Name(values[|values| - 1]))
  {
    var last := |values| - 1;
    var before := values[..last];
    assert forall i :: 0 <= i < last ==> before[i] == values[i];
    if DistinctCNames(before) && !Named(before, Name(values[last])) {
      forall i, j | 0 <= i < j < |values|
        ensures Name(values[i]) != Name(values[j])
      {
        assert Name(before[i]) == Name(values[i]);
      }
    }
  }

  /** No value is lost exactly when no two share a name and none finds its name in the row. */
  lemma {:induction false} NoneLost(row: Row, values: seq<Field>)
    ensures Lost(row, values) == 0
            <==> DistinctCNames(values) && forall i :: 0 <= i < |values| ==> Name(values[i]) !in row
  {
    if values != [] {
      var last := |values| - 1;
      NoneLost(row, values[..last]);
      DistinctPrefix(values);
      KeptNames(row, values[..last], Name(values[last]));
      assert forall i :: 0 <= i < last ==> values[..last][i] == values[i];
    }
  }

  /** What is lost is what is given less the fields that the row gains. */
  lemma {:induction false} LostCount(row: Row, values: seq<Field>)
    ensures Lost(row, values) + |KeepFirst(row, values)| == |values| + |row|
  {
    if values != [] {
      LostCount(row, values[..|values| - 1]);
    }
  }

  /** Where no value is lost, creating a row and overwriting it come to the same. */
  lemma {:induction false} CreateIsUpsert(row: Row, values: seq<Field>)
    requires Lost(row, values) == 0
    ensures KeepFirst(row, values) == KeepLast(row, values)
  {
    if values != [] {
      CreateIsUpsert(row, values[..|values| - 1]);
    }
  }

  /** An insert goes through exactly when no value is lost, and then it is an update. */
  lemma {:induction false} InsertIsUpsert(row: Row, values: seq<Field>)
    ensures FirstConflict(row, values) == |values| <==> Lost(row, values) == 0
  {
    if values != [] {
      var last := |values| - 1;
      InsertIsUpsert(row, values[..last]);
      KeptNames(row, values[..last], Name(values[last]));
    }
  }

  lemma {:induction false} RequestedMeans(row: Row, fields: seq<string>, f: Field)
    ensures f in Requested(row, fields) <==> f.0 in fields && CString(f.0) in row && f.1 == row[CString(f.0)]
  {
    if fields != [] {
      var last := |fields| - 1;
      RequestedMeans(row, fields[..last], f);
      assert fields == fields[..last] + [fields[last]];
    }
  }

  /** The answer to a request, in its order: one pair for every mention of a field that the row has. */
  lemma {:induction false} RequestedPlaces(row: Row, fields: seq<string>) returns (at: seq<nat>)
    ensures Places(at, |fields|) && |Requested(row, fields)| == |at|
    ensures forall j: nat :: j in at <==> j < |fields| && CString(fields[j]) in row
    ensures forall i :: 0 <= i < |at| ==> Requested(row, fields)[i] == (fields[at[i]], row[CString(fields[at[i]])])
  {
    hide CString;
    at := [];
    if fields != [] {
      var last := |fields| - 1;
      var before := RequestedPlaces(row, fields[..last]);
      OneMorePlace(before, last);
      at := if CString(fields[last]) in row then before + [last] else before;
    }
  }

  function NamesOf(values: seq<Field>): (names: seq<string>)
    ensures |names| == |values| && forall i :: 0 <= i < |values| ==> names[i] == values[i].0
  {
    seq(|values|, i requires 0 <= i < |values| => values[i].0)
  }

  lemma {:induction false} RequestedAll(row: Row, fields: seq<string>)
    requires forall i :: 0 <= i < |fields| ==> CString(fields[i]) in row
    ensures |Requested(row, fields)| == |fields|
    ensures forall i :: 0 <= i < |fields| ==> Requested(row, fields)[i] == (fields[i], row[CString(fields[i])])
  {
    if fields != [] {
      RequestedAll(row, fields[..|fields| - 1]);
    }
  }

  /** As a caller gets its pairs back: the value of each up to its first NUL. */
  predicate GivesBack(answer: seq<Field>, values: seq<Field>) {
    |answer| == |values| && forall i :: 0 <= i < |values| ==> answer[i] == (values[i].0, CString(values[i].1))
  }

  lemma GivesBackExactly(answer: seq<Field>, values: seq<Field>)
    requires GivesBack(answer, values) && forall i :: 0 <= i < |values| ==> '\0' !in values[i].1
    ensures answer == values
  {
  }

  /** Whatever the row held before, distinctly named fields come back from it as they were put in, in their order. */
  lemma UpdateReadsBack(rows: map<string, Row>, table: string, key: string, values: seq<Field>)
    requires DistinctCNames(values)
    ensures var after := After(rows, UpdateCall(table, key, values));
            && KeyIndex(table, key) in after
            && GivesBack(Requested(after[KeyIndex(table, key)], NamesOf(values)), values)
  {
    hide KeyIndex;
    var k := KeyIndex(table, key);
    var row := After(rows, UpdateCall(table, key, values))[k];
    NoneLost(map[], values);
    CreateIsUpsert(map[], values);
    forall i | 0 <= i < |values|
      ensures Name(values[i]) in row && row[Name(values[i])] == CString(values[i].1)
    {
      KeptLast(if k in rows then rows[k] else map[], values, i);
    }
    RequestedAll(row, NamesOf(values));
  }

  /** Which row a call means, within one table: that of its key, or always the same one if the table's name holds a NUL. */
  lemma KeyIndexSeparates(table: string, a: string, b: string)
    ensures KeyIndex(table, a) == KeyIndex(table, b) <==> '\0' in table || CString(a) == CString(b)
  {
    CStringOfConcat(table, a);
    CStringOfConcat(table, b);
    Behind(table, CString(a));
    Behind(table, CString(b));
  }

  lemma Behind(prefix: string, rest: string)
    ensures prefix <= prefix + rest && (prefix + rest)[|prefix|..] == rest
  {
  }

  /** One name is the beginning of the other, as far as C sees them, and the shorter one ends there. */
  predicate CanShareRows(t: string, u: string) {
    || CString(t) == CString(u)
    || ('\0' !in t && CString(t) <= CString(u))
    || ('\0' !in u && CString(u) <= CString(t))
  }

  /** Two tables can share rows exactly if, but for NULs, one name begins with the other; keys without NULs suffice. */
  lemma TablesAlias(t: string, u: string)
    ensures (exists a, b :: KeyIndex(t, a) == KeyIndex(u, b)) <==> CanShareRows(t, u)
    ensures CanShareRows(t, u) ==> exists a, b :: '\0' !in a && '\0' !in b && KeyIndex(t, a) == KeyIndex(u, b)
    ensures '\0' !in t && '\0' !in u ==> (CanShareRows(t, u) <==> t <= u || u <= t)
  {
    hide KeyIndex;
    forall a, b | KeyIndex(t, a) == KeyIndex(u, b)
      ensures CanShareRows(t, u)
    {
      SharedRow(t, a, u, b);
    }
    if CanShareRows(t, u) {
      var a, b := CommonKeys(t, u);
    }
  }

  lemma SharedRow(t: string, a: string, u: string, b: string)
    requires KeyIndex(t, a) == KeyIndex(u, b)
    ensures CanShareRows(t, u)
  {
    CStringOfConcat(t, a);
    CStringOfConcat(u, b);
    Behind(t, CString(a));
    Behind(u, CString(b));
    hide CString;
    BothPrefixes(t, u, KeyIndex(t, a));
  }

  lemma BothPrefixes(t: string, u: string, whole: string)
    ensures t <= whole && u <= whole ==> t <= u || u <= t
  {
  }

  lemma CommonKeys(t: string, u: string) returns (a: string, b: string)
    requires CanShareRows(t, u)
    ensures '\0' !in a && '\0' !in b && KeyIndex(t, a) == KeyIndex(u, b)
  {
    hide CString;
    a, b := "", "";
    NothingBehind(t);
    NothingBehind(u);
    if CString(t) == CString(u) {
    } else if '\0' !in t && CString(t) <= CString(u) {
      a := KeyFor(t, u);
    } else {
      b := KeyFor(u, t);
    }
  }

  lemma NothingBehind(t: string)
    ensures t + "" == t
  {
  }

  /** The key under which the shorter name means what the longer one means under the empty key. */
  lemma KeyFor(t: string, u: string) returns (a: string)
    requires '\0' !in t && CString(t) <= CString(u)
    ensures '\0' !in a && CString(t + a) == CString(u)
  {
    hide CString;
    a := CString(u)[|t|..];
    CStringOfConcat(t, a);
    assert t + a == CString(u);
  }

  /** Such as the default table and one whose name is shorter. */
  lemma UsertableAliases()
    ensures KeyIndex("usertable", "x") == KeyIndex("user", "tablex")
  {
    assert "usertable" + "x" == "user" + "tablex";
  }

  // ----- The life of a store -----

  datatype Call =
    | UpdateCall(table: string, key: string, values: seq<Field>)
    | InsertCall(table: string, key: string, values: seq<Field>)
    | DeleteCall(table: string, key: string)

  /** The store as a map from key index to row: what a call makes of it. */
  function After(rows: map<string, Row>, c: Call): map<string, Row> {
    var k := KeyIndex(c.table, c.key);
    match c
    case UpdateCall(_, _, values) =>
      With(rows, k, if k in rows then KeepLast(rows[k], values) else KeepFirst(map[], values))
    case InsertCall(_, _, values) =>
      var before := RowOrEmpty(rows, k);
      With(rows, k, KeepFirst(before, values[..FirstConflict(before, values)]))
    case DeleteCall(_, _) => rows - {k}
  }

  /** An insert changes nothing exactly if the row exists and the very first field, if any, is in conflict. */
  lemma InsertChangesNothing(rows: map<string, Row>, c: Call)
    requires c.InsertCall?
    ensures After(rows, c) == rows
            <==> var k := KeyIndex(c.table, c.key);
                 k in rows && FirstConflict(rows[k], c.values) == 0
  {
    hide KeyIndex, Name, Value;
    var k := KeyIndex(c.table, c.key);
    if k in rows {
      var n := FirstConflict(rows[k], c.values);
      KeepNone(rows[k], c.values);
      WithWith(rows, k, rows[k], rows[k]);
      if n > 0 {
        FirstIsNew(rows[k], c.values);
        assert After(rows, c)[k] != rows[k];
      }
    } else {
      assert k in After(rows, c);
    }
  }

  lemma FirstIsNew(row: Row, values: seq<Field>)
    requires FirstConflict(row, values) > 0
    ensures KeepFirst(row, values[..FirstConflict(row, values)]) != row
  {
    var n, name := FirstConflict(row, values), Name(values[0]);
    KeptNames(row, values[..n], name);
    assert Name(values[..n][0]) == name;
  }

  predicate CreatesRow(rows: map<string, Row>, c: Call) {
    c.UpdateCall? && KeyIndex(c.table, c.key) !in rows
  }

  function Leaks(rows: map<string, Row>, c: Call): nat {
    if CreatesRow(rows, c) then Lost(map[], c.values) else 0
  }

  function RowsAfter(calls: seq<Call>): map<string, Row> {
    if calls == [] then map[] else After(RowsAfter(calls[..|calls| - 1]), calls[|calls| - 1])
  }

  function RunLeaks(calls: seq<Call>): nat {
    if calls == [] then 0
    else
      var before := calls[..|calls| - 1];
      RunLeaks(before) + Leaks(RowsAfter(before), calls[|calls| - 1])
  }

  lemma LeaksNothing(rows: map<string, Row>, c: Call)
    ensures Leaks(rows, c) == 0 <==> (CreatesRow(rows, c) ==> DistinctCNames(c.values))
  {
    if CreatesRow(rows, c) {
      NoneLost(map[], c.values);
    }
  }

  lemma NoCalls(calls: seq<Call>)
    ensures RowsAfter(calls[..0]) == map[] && RunLeaks(calls[..0]) == 0
    ensures calls[..|calls|] == calls
  {
  }

  lemma OneMoreCall(calls: seq<Call>, i: nat)
    requires i < |calls|
    ensures RowsAfter(calls[..i + 1]) == After(RowsAfter(calls[..i]), calls[i])
    ensures RunLeaks(calls[..i + 1]) == RunLeaks(calls[..i]) + Leaks(RowsAfter(calls[..i]), calls[i])
  {
    hide After, Leaks;
    assert calls[..i + 1][..i] == calls[..i];
  }

  /** If call number `i` is an update that creates its row, it repeats no field name. */
  predicate CreatesCleanly(calls: seq<Call>, i: nat)
    requires i < |calls|
  {
    CreatesRow(RowsAfter(calls[..i]), calls[i]) ==> DistinctCNames(calls[i].values)
  }

  /** The first `n` calls leak nothing exactly if those of them that update a missing row repeat no field name. */
  lemma {:induction false} NoLeaks(calls: seq<Call>, n: nat)
    requires n <= |calls|
    ensures RunLeaks(calls[..n]) == 0 <==> forall i :: 0 <= i < n ==> CreatesCleanly(calls, i)
  {
    hide RunLeaks, CreatesCleanly, RowsAfter;
    if n == 0 {
      NoCalls(calls);
    } else {
      NoLeaks(calls, n - 1);
      LastCall(calls, n - 1);
    }
  }

  lemma LastCall(calls: seq<Call>, i: nat)
    requires i < |calls|
    ensures RunLeaks(calls[..i + 1]) == 0 <==> RunLeaks(calls[..i]) == 0 && CreatesCleanly(calls, i)
  {
    hide RunLeaks, RowsAfter, After, Leaks, CreatesRow, DistinctCNames;
    OneMoreCall(calls, i);
    LeaksNothing(RowsAfter(calls[..i]), calls[i]);
  }

  method Perform(db: LockStlDb, c: Call)
    requires db.Valid()
    modifies db, db.heap, db.keyTable, db.keyTable.table.Values
    ensures db.Valid() && db.ledger.rows == After(old(db.ledger).rows, c)
    ensures |db.ledger.unowned| == |old(db.ledger).unowned| + Leaks(old(db.ledger).rows, c)
    ensures fresh(db.keyTable.table.Values - old(db.keyTable.table.Values))
  {
    hide db.Valid, FirstConflict, KeepFirst, KeepLast, KeyIndex, Lost, With;
    match c
    case UpdateCall(table, key, values) =>
      var status := db.Update(table, key, values);
    case InsertCall(table, key, values) =>
      var status := db.Insert(table, key, values);
    case DeleteCall(table, key) =>
      var status := db.Delete(table, key);
  }

  /** The same on the store itself: what an update puts in, a read of its fields gives back. */
  method UpdateThenRead(db: LockStlDb, table: string, key: string, values: seq<Field>) returns (result: seq<Field>)
    requires db.Valid() && DistinctCNames(values)
    modifies db, db.heap, db.keyTable, db.keyTable.table.Values
    ensures db.Valid() && GivesBack(result, values)
  {
    hide db.Valid, KeepFirst, KeepLast, KeyIndex, Requested, GivesBack, DistinctCNames, Lost;
    UpdateReadsBack(db.ledger.rows, table, key, values);
    var updated := db.Update(table, key, values);
    var r;
    r, result := db.Read(table, key, Some(NamesOf(values)));
  }

  /** What is still allocated when a store has been built, put through any calls, and destroyed. */
  method Life(calls: seq<Call>) returns (left: map<Ptr, string>)
    ensures |left| == RunLeaks(calls)
  {
    hide After, Leaks, RowsAfter, RunLeaks;
    var db := new LockStlDb();
    NoCalls(calls);
    hide db.Valid;
    for i := 0 to |calls|
      invariant db.Valid() && fresh(db) && fresh(db.heap) && fresh(db.keyTable) && fresh(db.keyTable.table.Values)
      invariant db.ledger.rows == RowsAfter(calls[..i]) && |db.ledger.unowned| == RunLeaks(calls[..i])
    {
      OneMoreCall(calls, i);
      Perform(db, calls[i]);
    }
    db.Destroy();
    left := db.heap.live;
    assert |left| == |left.Keys|;
  }
}
