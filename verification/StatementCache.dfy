/** Prepared statements, their cache, and what each operation binds and runs (lib/sqlite-lib-db/sqlite_lib_db.cc). */
module StatementCache {
  import opened Wrappers
  import opened SqlText
  import opened Fields
  import F = FieldOrder

  datatype Param = TextParam(s: string) | IntParam(i: int)

  datatype Result = Ok | NoData | Thrown

  /** Parameter number i is the i-th in the list, counting from 1. */
  function Bound(params: seq<Param>): map<nat, Param> {
    if params == [] then map[] else Bound(params[..|params| - 1])[|params| := params[|params| - 1]]
  }

  lemma {:induction false} BoundAt(params: seq<Param>, i: nat)
    requires i < |params|
    ensures Takes(Bound(params), i + 1, params[i])
  {
    if i < |params| - 1 {
      BoundAt(params[..|params| - 1], i);
    }
  }

  predicate Takes(bound: map<nat, Param>, position: nat, p: Param) {
    position in bound && bound[position] == p
  }

  class Prepared {
    const text: string
    var bound: map<nat, Param>
    var stepped: bool

    constructor (text: string)
      ensures this.text == text && Idle()
    {
      this.text := text;
      this.bound := map[];
      this.stepped := false;
    }

    predicate Idle()
      reads this
    {
      bound == map[] && !stepped
    }

    /** SQLite refuses to bind outside the parameters, or to a statement stepped and not reset since. */
    method Bind(position: nat, p: Param) returns (ok: bool)
      modifies this`bound
      ensures ok <==> !stepped && 1 <= position <= Placeholders(text, false)
      ensures bound == if ok then old(bound)[position := p] else old(bound)
    {
      ok := !stepped && 1 <= position <= Placeholders(text, false);
      if ok {
        bound := bound[position := p];
      }
    }

    method BindAll(params: seq<Param>) returns (ok: bool)
      requires stepped || (bound == map[] && Placeholders(text, false) == |params|)
      requires params != []
      modifies this`bound
      ensures ok <==> !stepped
      ensures bound == if ok then Bound(params) else old(bound)
    {
      for i := 0 to |params|
        invariant stepped ==> i == 0 && bound == old(bound)
        invariant !stepped ==> bound == Bound(params[..i])
      {
        ok := Bind(i + 1, params[i]);
        if !ok {
          return;
        }
        assert params[..i + 1][..i] == params[..i];
      }
      assert params[..|params|] == params;
      ok := true;
    }

    method Step()
      modifies this`stepped
      ensures stepped
    {
      stepped := true;
    }

    method ClearBindings()
      modifies this`bound
      ensures bound == map[]
    {
      bound := map[];
    }

    method Reset()
      modifies this`stepped
      ensures !stepped
    {
      stepped := false;
    }

    /**
     * What every operation does with its statement: bind, step until the table is not locked, then clear the bindings
     * and reset.  A failure leaves the statement stepped.  `ran` is what the database ran it with.
     */
    method Execute(params: seq<Param>, locked: nat, success: bool) returns (ok: bool, ran: map<nat, Param>)
      requires stepped || (bound == map[] && Placeholders(text, false) == |params|)
      requires params != []
      modifies this
      ensures ok <==> old(!stepped) && success
      ensures if ok then Idle() && ran == Bound(params) else stepped
    {
      hide Bound, Placeholders;
      ran := map[];
      ok := BindAll(params);
      if !ok {
        return;
      }
      Step();
      for i := 0 to locked
        invariant stepped && bound == Bound(params)
      {
        Step();
      }
      if !success {
        ok := false;
        return;
      }
      ran := bound;
      ClearBindings();
      Reset();
    }
  }

  // ----- What the operations bind -----

  function Names(fields: seq<Field>): (names: seq<string>)
    ensures |names| == |fields| && forall i :: 0 <= i < |fields| ==> names[i] == fields[i].0
  {
    seq(|fields|, i requires 0 <= i < |fields| => fields[i].0)
  }

  function Values(fields: seq<Field>): (params: seq<Param>)
    ensures |params| == |fields| && forall i :: 0 <= i < |fields| ==> params[i] == TextParam(fields[i].1)
  {
    seq(|fields|, i requires 0 <= i < |fields| => TextParam(fields[i].1))
  }

  function UpdateParams(key: string, fields: seq<Field>): seq<Param> {
    Values(fields) + [TextParam(key)]
  }

  function InsertParams(key: string, fields: seq<Field>): seq<Param> {
    [TextParam(key)] + Values(fields)
  }

  /** A statement with these columns in a row, the first taking parameter number `first`, sets `name` to `p`. */
  ghost predicate Sets(names: seq<string>, bound: map<nat, Param>, first: nat, name: string, p: Param) {
    exists i :: 0 <= i < |names| && names[i] == name && Takes(bound, i + first, p)
  }

  /** An update sets each field to its own value and binds the key last. */
  lemma UpdateBinds(key: string, fields: seq<Field>, name: string, value: string)
    ensures Sets(Names(fields), Bound(UpdateParams(key, fields)), 1, name, TextParam(value)) <==> (name, value) in fields
    ensures Takes(Bound(UpdateParams(key, fields)), |fields| + 1, TextParam(key))
  {
    hide Bound, Sets, Values;
    var params := UpdateParams(key, fields);
    BoundAt(params, |fields|);
    assert params[0..|fields|] == Values(fields);
    RowSets(fields, params, 1, name, value);
  }

  lemma InsertBindsAll(table: string, key: string, fields: seq<Field>)
    ensures Placeholders(Text(Insert(table, Names(fields))), false) == |InsertParams(key, fields)|
  {
    InsertPlaceholders(table, Names(fields));
    HoldsCount(Text(Insert(table, Names(fields))), 1 + |fields|);
  }

  lemma UpdateBindsAll(table: string, key: string, fields: seq<Field>)
    ensures Placeholders(Text(Update(table, Names(fields))), false) == |UpdateParams(key, fields)|
  {
    UpdatePlaceholders(table, Names(fields));
    HoldsCount(Text(Update(table, Names(fields))), |fields| + 1);
  }

  /** An insert sets each field to its own value whatever the order, and binds the key first. */
  lemma InsertBinds(key: string, fields: seq<Field>, name: string, value: string)
    ensures var sorted := F.Sort(fields);
            && (Sets(Names(sorted), Bound(InsertParams(key, sorted)), 2, name, TextParam(value))
                <==> (name, value) in fields)
            && Takes(Bound(InsertParams(key, sorted)), 1, TextParam(key))
  {
    var sorted := F.Sort(fields);
    RowAfterKey(key, sorted, name, value);
    SameMembers(fields, sorted, (name, value));
  }

  lemma RowAfterKey(key: string, fields: seq<Field>, name: string, value: string)
    ensures Sets(Names(fields), Bound(InsertParams(key, fields)), 2, name, TextParam(value)) <==> (name, value) in fields
    ensures Takes(Bound(InsertParams(key, fields)), 1, TextParam(key))
  {
    hide Bound, Sets, Values;
    var params := InsertParams(key, fields);
    BoundAt(params, 0);
    assert params[1..1 + |fields|] == Values(fields);
    RowSets(fields, params, 2, name, value);
  }

  lemma HoldsCount(s: string, n: nat)
    requires Holds(s, n)
    ensures Placeholders(s, false) == n
  {
  }

  lemma SameMembers(a: seq<Field>, b: seq<Field>, f: Field)
    requires multiset(a) == multiset(b)
    ensures f in a <==> f in b
  {
    assert f in a <==> f in multiset(a);
    assert f in b <==> f in multiset(b);
  }

  lemma RowSets(fields: seq<Field>, params: seq<Param>, first: nat, name: string, value: string)
    requires 1 <= first && first - 1 + |fields| <= |params|
    requires params[first - 1..first - 1 + |fields|] == Values(fields)
    ensures Sets(Names(fields), Bound(params), first, name, TextParam(value)) <==> (name, value) in fields
  {
    hide Bound;
    forall i | 0 <= i < |fields|
      ensures Takes(Bound(params), i + first, TextParam(fields[i].1))
    {
      assert params[first - 1..first - 1 + |fields|][i] == Values(fields)[i];
      BoundAt(params, first - 1 + i);
    }
    if (name, value) in fields {
      var i :| 0 <= i < |fields| && fields[i] == (name, value);
      assert Names(fields)[i] == name && Takes(Bound(params), i + first, TextParam(value));
    }
  }

  /** Inserting the same distinctly named fields in any order runs the same text with the same bindings. */
  lemma InsertOrderIrrelevant(table: string, key: string, a: seq<Field>, b: seq<Field>)
    requires F.DistinctNames(a) && multiset(a) == multiset(b)
    ensures Text(Insert(table, Names(F.Sort(a)))) == Text(Insert(table, Names(F.Sort(b))))
    ensures Bound(InsertParams(key, F.Sort(a))) == Bound(InsertParams(key, F.Sort(b)))
  {
    F.OrderIrrelevant(a, b);
  }

  lemma KeyPlaceholders(table: string)
    ensures Placeholders(Text(Select(table)), false) == 1
    ensures Placeholders(Text(Delete(table)), false) == 1
  {
    hide Quote, Placeholders, EndsQuoted;
    QuotedBetween("SELECT * FROM ", table, "  WHERE YCSBC_KEY = ");
    OneMore("SELECT * FROM " + Quote(table) + "  WHERE YCSBC_KEY = ", 0, "");
    assert Text(Select(table)) == "SELECT * FROM " + Quote(table) + "  WHERE YCSBC_KEY = " + "?" + "";
    QuotedBetween("DELETE FROM ", table, " WHERE YCSBC_KEY = ");
    OneMore("DELETE FROM " + Quote(table) + " WHERE YCSBC_KEY = ", 0, "");
    assert Text(Delete(table)) == "DELETE FROM " + Quote(table) + " WHERE YCSBC_KEY = " + "?" + "";
  }

  lemma ScanPlaceholders(table: string)
    ensures Placeholders(Text(SelectFrom(table)), false) == 2
  {
    hide Quote, Holds;
    var head := "SELECT * FROM " + Quote(table) + "  WHERE YCSBC_KEY >= ";
    QuotedBetween("SELECT * FROM ", table, "  WHERE YCSBC_KEY >= ");
    OneMore(head, 0, " LIMIT ");
    OneMore(head + "?" + " LIMIT ", 1, ";");
    ScanGrouped("SELECT * FROM " + Quote(table));
    HoldsCount(Text(SelectFrom(table)), 2);
  }

  lemma ScanGrouped(head: string)
    ensures head + "  WHERE YCSBC_KEY >= " + "?" + " LIMIT " + "?" + ";" == head + "  WHERE YCSBC_KEY >= ? LIMIT ?;"
  {
    assert "  WHERE YCSBC_KEY >= " + "?" + " LIMIT " + "?" + ";" == "  WHERE YCSBC_KEY >= ? LIMIT ?;";
  }

  lemma QuotedBetween(head: string, table: string, tail: string)
    requires forall i :: 0 <= i < |head| ==> head[i] != '\'' && head[i] != '?'
    requires forall i :: 0 <= i < |tail| ==> tail[i] != '\'' && tail[i] != '?'
    ensures Holds(head + Quote(table) + tail, 0)
  {
    QuoteHolds(table);
    PlainHolds(head);
    PlainHolds(tail);
    HoldsConcat(head, 0, Quote(table), 0);
    HoldsConcat(head + Quote(table), 0, tail, 0);
  }

  lemma OneMore(head: string, n: nat, tail: string)
    requires Holds(head, n)
    requires forall i :: 0 <= i < |tail| ==> tail[i] != '\'' && tail[i] != '?'
    ensures Holds(head + "?" + tail, n + 1)
  {
    MarkHolds();
    PlainHolds(tail);
    HoldsConcat(head, n, "?", 1);
    HoldsConcat(head + "?", n + 1, tail, 0);
  }

  // ----- The cache -----

  lemma CacheStep(cache: map<string, bool>, text: string, available: bool, success: bool)
    ensures text !in cache && !available ==> NextCache(cache, text, available, success) == cache
    ensures text in cache || available ==>
              cache[text := text in cache && cache[text]][text := !(CanRun(cache, text, available) && success)]
              == NextCache(cache, text, available, success)
  {
  }

  /** A statement for this text can be had: a cached one not left stepped, or else a new one. */
  predicate CanRun(cache: map<string, bool>, text: string, available: bool) {
    if text in cache then !cache[text] else available
  }

  /** A statement that is prepared is cached, and stays stepped from its first failure on. */
  function NextCache(cache: map<string, bool>, text: string, available: bool, success: bool): map<string, bool> {
    if text in cache || available then cache[text := (text in cache && cache[text]) || !success] else cache
  }

  class Ctx {
    /** Statements prepared so far, by their text. */
    var stmts: map<string, Prepared>
    /** History: what the database has run, with the bindings it ran with. */
    var executed: seq<(string, map<nat, Param>)>

    constructor ()
      ensures Valid() && Idle() && executed == [] && stmts == map[]
    {
      stmts := map[];
      executed := [];
    }

    /** Every cached statement is what a fresh prepare of its key would give, and is unbound unless it was left stepped. */
    ghost predicate Valid()
      reads this, stmts.Values
    {
      forall k :: k in stmts ==> stmts[k].text == k && (stmts[k].stepped || stmts[k].Idle())
    }

    ghost predicate Idle()
      reads this, stmts.Values
    {
      forall k :: k in stmts ==> stmts[k].Idle()
    }

    /** The texts cached, and whether their statements were left stepped. */
    ghost function Stepped(): map<string, bool>
      reads this, stmts.Values
    {
      map k | k in stmts :: stmts[k].stepped
    }

    ghost predicate Usable(text: string, available: bool)
      reads this, stmts.Values
    {
      CanRun(Stepped(), text, available)
    }

    /** `available` says whether SQLite manages to prepare a text that is not cached. */
    method Prepare(text: string, available: bool) returns (p: Prepared?)
      requires Valid()
      modifies this`stmts
      ensures Valid()
      ensures p == null <==> text !in old(stmts) && !available
      ensures p == null ==> stmts == old(stmts)
      ensures p != null ==> p.text == text && stmts == old(stmts)[text := p]
      ensures p != null && text in old(stmts) ==> p == old(stmts)[text]
      ensures p != null && text !in old(stmts) ==> fresh(p) && p.Idle()
      ensures p != null ==> fresh(stmts.Values - old(stmts.Values))
      ensures p != null ==> Stepped() == old(Stepped())[text := text in old(stmts) && old(Stepped())[text]]
    {
      if text in stmts {
        p := stmts[text];
      } else if available {
        p := new Prepared(text);
        stmts := stmts[text := p];
      } else {
        p := null;
      }
    }

    /** Executes a statement that is in the cache. */
    method RunPrepared(p: Prepared, params: seq<Param>, locked: nat, success: bool) returns (ok: bool)
      requires Valid() && p.text in stmts && stmts[p.text] == p
      requires params != [] && Placeholders(p.text, false) == |params|
      modifies this`executed, p
      ensures Valid() && (ok <==> old(!p.stepped) && success)
      ensures executed == old(executed) + if ok then [(p.text, Bound(params))] else []
      ensures if ok then p.Idle() else p.stepped
      ensures Stepped() == old(Stepped())[p.text := !ok]
    {
      hide Bound, Placeholders;
      var ran;
      ok, ran := p.Execute(params, locked, success);
      if ok {
        executed := executed + [(p.text, ran)];
      }
    }

    /**
     * Looks the text up or prepares it, and executes the statement.  One failure leaves the cached statement stepped, so
     * every later operation with the same text fails as well.
     */
    method Run(text: string, params: seq<Param>, available: bool, locked: nat, success: bool) returns (r: Result)
      requires Valid() && params != [] && Placeholders(text, false) == |params|
      modifies this, stmts.Values
      ensures Valid()
      ensures r == if old(Usable(text, available)) && success then Ok else Thrown
      ensures executed == old(executed) + if r == Ok then [(text, Bound(params))] else []
      ensures r == Ok ==> text in stmts && stmts[text].Idle()
      ensures r == Thrown ==> text !in stmts || stmts[text].stepped
      ensures Stepped() == NextCache(old(Stepped()), text, available, success)
      ensures fresh(stmts.Values - old(stmts.Values))
      ensures forall k :: k in old(stmts) && k != text ==>
                k in stmts && stmts[k] == old(stmts)[k] && unchanged(old(stmts)[k])
      ensures forall k :: k in stmts ==> k == text || k in old(stmts)
    {
      hide Bound, Placeholders, NextCache;
      CacheStep(Stepped(), text, available, success);
      var p: Prepared? := Prepare(text, available);
      if p == null {
        return Thrown;
      }
      var ok := RunPrepared(p, params, locked, success);
      r := if ok then Ok else Thrown;
    }

    /** Cached statements left alone stay as they were, so an idle cache stays idle through a successful operation. */
    method Update(table: string, key: string, values: seq<Field>, available: bool, locked: nat, success: bool)
      returns (r: Result)
      requires Valid()
      modifies this, stmts.Values
      ensures Valid() && (old(Idle()) && r == Ok ==> Idle())
      ensures r == if old(Usable(Text(SqlText.Update(table, Names(values))), available)) && success then Ok else Thrown
      ensures executed == old(executed) + if r != Ok then [] else
                            [(Text(SqlText.Update(table, Names(values))), Bound(UpdateParams(key, values)))]
      ensures Stepped() == NextCache(old(Stepped()), Text(SqlText.Update(table, Names(values))), available, success)
      ensures fresh(stmts.Values - old(stmts.Values))
    {
      hide Bound, Text, Placeholders, CanRun, NextCache;
      var text := UpdateText(table, values);
      UpdateBindsAll(table, key, values);
      r := Run(text, UpdateParams(key, values), available, locked, success);
    }

    /** The fields come back sorted by name, which is how the vector passed in is left. */
    method Insert(table: string, key: string, values: seq<Field>, available: bool, locked: nat, success: bool)
      returns (r: Result, sorted: seq<Field>)
      requires Valid()
      modifies this, stmts.Values
      ensures Valid() && (old(Idle()) && r == Ok ==> Idle()) && sorted == F.Sort(values)
      ensures r == if old(Usable(Text(SqlText.Insert(table, Names(F.Sort(values)))), available)) && success then Ok
                   else Thrown
      ensures executed == old(executed) + if r != Ok then [] else
                            [(Text(SqlText.Insert(table, Names(F.Sort(values)))),
                              Bound(InsertParams(key, F.Sort(values))))]
      ensures Stepped() == NextCache(old(Stepped()), Text(SqlText.Insert(table, Names(F.Sort(values)))), available, success)
      ensures fresh(stmts.Values - old(stmts.Values))
    {
      sorted := F.Sort(values);
      hide Bound, Text, Placeholders, CanRun, NextCache;
      var text := InsertText(table, sorted);
      InsertBindsAll(table, key, sorted);
      r := Run(text, InsertParams(key, sorted), available, locked, success);
    }

    method Delete(table: string, key: string, available: bool, success: bool) returns (r: Result)
      requires Valid()
      modifies this, stmts.Values
      ensures Valid() && (old(Idle()) && r == Ok ==> Idle())
      ensures r == if old(Usable(Text(SqlText.Delete(table)), available)) && success then Ok else Thrown
      ensures executed == old(executed) + if r != Ok then [] else
                            [(Text(SqlText.Delete(table)), Bound([TextParam(key)]))]
      ensures Stepped() == NextCache(old(Stepped()), Text(SqlText.Delete(table)), available, success)
      ensures fresh(stmts.Values - old(stmts.Values))
    {
      KeyPlaceholders(table);
      r := Run("DELETE FROM " + Quote(table) + " WHERE YCSBC_KEY = ?", [TextParam(key)], available, 0, success);
    }

    /** `row` is what the key selects, if anything: at most one row, as the key is the primary key. */
    method Read(table: string, key: string, fields: Option<seq<string>>, available: bool, success: bool,
                row: Option<seq<Field>>)
      returns (r: Result, result: seq<Field>)
      requires Valid()
      modifies this, stmts.Values
      ensures Valid() && (old(Idle()) && r != Thrown ==> Idle())
      ensures r == if !(old(Usable(Text(Select(table)), available)) && success) then Thrown
                   else if row.None? then NoData else Ok
      ensures executed == old(executed) + if r == Thrown then [] else [(Text(Select(table)), Bound([TextParam(key)]))]
      ensures Stepped() == NextCache(old(Stepped()), Text(Select(table)), available, success)
      ensures fresh(stmts.Values - old(stmts.Values))
      ensures result == if r == Ok then Kept(row.value, fields) else []
    {
      KeyPlaceholders(table);
      r := Run("SELECT * FROM " + Quote(table) + "  WHERE YCSBC_KEY = ?", [TextParam(key)], available, 0, success);
      result := [];
      if r == Ok {
        match row {
          case None => r := NoData;
          case Some(columns) => result := Filter(columns, fields, []);
        }
      }
    }

    /** `rows` is what the statement yields: the first rows whose keys are not below the key. */
    method Scan(table: string, key: string, len: int, fields: Option<seq<string>>, available: bool, success: bool,
                rows: seq<seq<Field>>)
      returns (r: Result, result: seq<seq<Field>>)
      requires Valid()
      modifies this, stmts.Values
      ensures Valid() && (old(Idle()) && r != Thrown ==> Idle())
      ensures r == if !(old(Usable(Text(SelectFrom(table)), available)) && success) then Thrown
                   else if rows == [] then NoData else Ok
      ensures executed == old(executed) + if r == Thrown then [] else
                            [(Text(SelectFrom(table)), Bound([TextParam(key), IntParam(len)]))]
      ensures Stepped() == NextCache(old(Stepped()), Text(SelectFrom(table)), available, success)
      ensures fresh(stmts.Values - old(stmts.Values))
      ensures r != Thrown ==> |result| == |rows|
      ensures r != Thrown ==> forall i :: 0 <= i < |rows| ==> result[i] == ScanRow(rows[i], fields)
    {
      ScanPlaceholders(table);
      r := Run("SELECT * FROM " + Quote(table) + "  WHERE YCSBC_KEY >= ? LIMIT ?;",
               [TextParam(key), IntParam(len)], available, 0, success);
      result := [];
      if r == Ok {
        if rows == [] {
          r := NoData;
        }
        result := Rows(rows, fields);
      }
    }

    static method Rows(rows: seq<seq<Field>>, fields: Option<seq<string>>) returns (result: seq<seq<Field>>)
      ensures |result| == |rows|
      ensures forall i :: 0 <= i < |rows| ==> result[i] == ScanRow(rows[i], fields)
    {
      result := [];
      for i := 0 to |rows|
        invariant |result| == i
        invariant forall j :: 0 <= j < i ==> result[j] == ScanRow(rows[j], fields)
      {
        var row := Filter(rows[i], fields, Blanks(if fields.Some? then |fields.value| else |rows[i]|));
        result := result + [row];
      }
    }

    static method UpdateText(table: string, values: seq<Field>) returns (text: string)
      ensures text == Text(SqlText.Update(table, Names(values)))
    {
      hide Quote;
      text := "UPDATE " + Quote(table) + " SET ";
      ghost var head := text;
      var first := true;
      for i := 0 to |values|
        invariant first == (i == 0)
        invariant text == head + Assignments(Names(values)[..i])
      {
        if first {
          first := false;
        } else {
          text := text + ", ";
        }
        text := text + Quote(values[i].0);
        text := text + " = ?";
        AssignmentsStep(head, Names(values), i);
      }
      assert Names(values)[..|values|] == Names(values);
      text := text + " WHERE YCSBC_KEY = ?;";
    }

    static method InsertText(table: string, values: seq<Field>) returns (text: string)
      ensures text == Text(SqlText.Insert(table, Names(values)))
    {
      hide Quote;
      text := "INSERT INTO " + Quote(table) + " (YCSBC_KEY";
      ghost var head := text;
      for i := 0 to |values|
        invariant text == head + Columns(Names(values)[..i])
      {
        text := text + ", ";
        text := text + Quote(values[i].0);
        ColumnsStep(head, Names(values), i);
      }
      assert Names(values)[..|values|] == Names(values);
      text := text + ") VALUES (?";
      head := text;
      for i := 0 to |values|
        invariant text == head + MorePlaceholders(i)
      {
        text := text + ", ?";
        MorePlaceholdersSnoc(i);
      }
      text := text + ");";
    }

    static method Filter(columns: seq<Field>, fields: Option<seq<string>>, start: seq<Field>)
      returns (row: seq<Field>)
      ensures row == start + Kept(columns, fields)
    {
      row := start;
      for i := 0 to |columns|
        invariant row == start + Kept(columns[..i], fields)
      {
        assert columns[..i + 1][..i] == columns[..i];
        if Wanted(columns[i].0, fields) {
          row := row + [columns[i]];
        }
      }
      assert columns[..|columns|] == columns;
    }
  }

  predicate Wanted(name: string, fields: Option<seq<string>>) {
    fields.None? || fields.value == [] || name in fields.value
  }

  function Kept(columns: seq<Field>, fields: Option<seq<string>>): seq<Field> {
    if columns == [] then []
    else
      var n := |columns| - 1;
      Kept(columns[..n], fields) + if Wanted(columns[n].0, fields) then [columns[n]] else []
  }

  /** Which columns a read gives: those asked for, or all if none is named, each as often as it occurs and in order. */
  lemma {:induction false} KeptPlaces(columns: seq<Field>, fields: Option<seq<string>>) returns (at: seq<nat>)
    ensures Places(at, |columns|) && |Kept(columns, fields)| == |at|
    ensures forall i :: 0 <= i < |at| ==> Kept(columns, fields)[i] == columns[at[i]]
    ensures forall j: nat :: j in at <==>
              j < |columns| && (fields == None || fields == Some([]) || columns[j].0 in fields.value)
  {
    at := [];
    if columns != [] {
      var last := |columns| - 1;
      at := KeptPlaces(columns[..last], fields);
      OneMorePlace(at, last);
      if Wanted(columns[last].0, fields) {
        at := at + [last];
      }
    }
  }

  lemma {:induction false} KeptAll(columns: seq<Field>, fields: Option<seq<string>>)
    requires fields == None || fields == Some([])
    ensures Kept(columns, fields) == columns
  {
    if columns != [] {
      KeptAll(columns[..|columns| - 1], fields);
    }
  }

  lemma KeptMeans(columns: seq<Field>, names: seq<string>, f: Field)
    requires names != []
    ensures f in Kept(columns, Some(names)) <==> f in columns && f.0 in names
  {
    var at := KeptPlaces(columns, Some(names));
    var kept := Kept(columns, Some(names));
    if f in kept {
      var i :| 0 <= i < |kept| && kept[i] == f;
      assert at[i] in at;
    }
    if f in columns && f.0 in names {
      var j :| 0 <= j < |columns| && columns[j] == f;
      assert j in at;
      var i :| 0 <= i < |at| && at[i] == j;
      assert kept[i] == f;
    }
  }

  function Blanks(n: nat): seq<Field> {
    seq(n, _ => ("", ""))
  }

  /** A scan sizes the row vector before it appends to it, so the row starts with blank pairs. */
  function ScanRow(columns: seq<Field>, fields: Option<seq<string>>): seq<Field> {
    Blanks(if fields.Some? then |fields.value| else |columns|) + Kept(columns, fields)
  }

  /** The blanks come first, one for each field named, or for each column if no list is given; then what a read gives. */
  lemma ScanRowIs(columns: seq<Field>, fields: Option<seq<string>>)
    ensures var blanks := if fields.Some? then |fields.value| else |columns|;
            && |ScanRow(columns, fields)| == blanks + |Kept(columns, fields)|
            && (forall i :: 0 <= i < blanks ==> ScanRow(columns, fields)[i] == ("", ""))
            && ScanRow(columns, fields)[blanks..] == Kept(columns, fields)
  {
  }

  /** A scanned row is the row a read gives only for an empty field list, which is what a remote client sends. */
  lemma ScanRowIsReadRow(columns: seq<Field>, fields: Option<seq<string>>)
    requires columns != []
    ensures ScanRow(columns, fields) == Kept(columns, fields) <==> fields == Some([])
  {
    var blanks := Blanks(if fields.Some? then |fields.value| else |columns|);
    assert |blanks + Kept(columns, fields)| == |blanks| + |Kept(columns, fields)|;
  }

  lemma {:induction false} MoreAssignmentsSnoc(names: seq<string>, name: string)
    ensures MoreAssignments(names + [name]) == MoreAssignments(names) + ", " + Quote(name) + " = ?"
  {
    MoreAssignmentsConcat(names, [name]);
    assert [name][1..] == [];
  }

  lemma AssignmentsSnoc(names: seq<string>, name: string)
    ensures Assignments(names + [name])
            == Assignments(names) + (if names == [] then "" else ", ") + Quote(name) + " = ?"
  {
    hide Quote;
    if names == [] {
      assert [] + [name] == [name] && [name][1..] == [];
    } else {
      assert (names + [name])[1..] == names[1..] + [name];
      hide MoreAssignments;
      MoreAssignmentsSnoc(names[1..], name);
      Grouped(Quote(names[0]) + " = ?", MoreAssignments(names[1..]), Quote(name));
    }
  }

  lemma AssignmentsStep(head: string, names: seq<string>, i: nat)
    requires i < |names|
    ensures head + Assignments(names[..i + 1])
            == if i == 0 then head + Assignments(names[..i]) + Quote(names[i]) + " = ?"
               else head + Assignments(names[..i]) + ", " + Quote(names[i]) + " = ?"
  {
    hide Quote, Assignments;
    assert names[..i + 1] == names[..i] + [names[i]];
    AssignmentsSnoc(names[..i], names[i]);
    Grouped(head, Assignments(names[..i]), Quote(names[i]));
  }

  lemma Grouped(head: string, list: string, name: string)
    ensures head + (list + "" + name + " = ?") == head + list + name + " = ?"
    ensures head + (list + ", " + name + " = ?") == head + list + ", " + name + " = ?"
    ensures head + (list + ", " + name) == head + list + ", " + name
  {
  }

  lemma ColumnsStep(head: string, names: seq<string>, i: nat)
    requires i < |names|
    ensures head + Columns(names[..i + 1]) == head + Columns(names[..i]) + ", " + Quote(names[i])
  {
    hide Quote, Columns;
    assert names[..i + 1] == names[..i] + [names[i]];
    ColumnsSnoc(names[..i], names[i]);
    Grouped(head, Columns(names[..i]), Quote(names[i]));
  }

  lemma {:induction false} ColumnsSnoc(names: seq<string>, name: string)
    ensures Columns(names + [name]) == Columns(names) + ", " + Quote(name)
  {
    if names == [] {
      assert [] + [name] == [name] && [name][1..] == [];
    } else {
      assert (names + [name])[1..] == names[1..] + [name];
      ColumnsSnoc(names[1..], name);
    }
  }

  lemma {:induction false} MorePlaceholdersSnoc(n: nat)
    ensures MorePlaceholders(n + 1) == MorePlaceholders(n) + ", ?"
  {
    if n > 0 {
      MorePlaceholdersSnoc(n - 1);
    }
  }

  /**
   * Whatever an entry of the cache was prepared for, it is the statement an operation with this text means: the same
   * operation on the same table and fields, as far as C strings tell names apart.
   */
  lemma CachedStatementIsOwn(a: Statement, b: Statement)
    requires Text(a) == Text(b)
    ensures Normal(a) == Normal(b) && Parse(Text(a)) == Some(Normal(b))
  {
    SameText(a, b);
    ParseText(a);
  }
}
