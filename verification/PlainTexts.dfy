/** The statements as SQLite gets them, for names without quotes and NULs (lib/sqlite-lib-db/sqlite_lib_db.cc). */
module PlainTexts {
  import opened CStrings
  import opened SqlText

  predicate Plain(name: string) {
    '\0' !in name && '\'' !in name
  }

  lemma {:induction false} PlainDoubled(name: string)
    requires Plain(name)
    ensures Doubled(name) == name
  {
    if name != "" {
      PlainDoubled(name[1..]);
    }
  }

  lemma Quoted(a: string, name: string, b: string, aq: string, qb: string)
    requires Plain(name) && aq == a + "'" && qb == "'" + b
    ensures a + Quote(name) + b == aq + name + qb
  {
    PlainDoubled(name);
  }

  lemma SelectIs(t: string)
    requires Plain(t)
    ensures Text(Select(t)) == "SELECT * FROM '" + t + "'  WHERE YCSBC_KEY = ?"
  {
    hide Quote;
    Quoted("SELECT * FROM ", t, "  WHERE YCSBC_KEY = ?", "SELECT * FROM '", "'  WHERE YCSBC_KEY = ?");
  }

  lemma SelectFromIs(t: string)
    requires Plain(t)
    ensures Text(SelectFrom(t)) == "SELECT * FROM '" + t + "'  WHERE YCSBC_KEY >= ? LIMIT ?;"
  {
    hide Quote;
    Quoted("SELECT * FROM ", t, "  WHERE YCSBC_KEY >= ? LIMIT ?;", "SELECT * FROM '",
           "'  WHERE YCSBC_KEY >= ? LIMIT ?;");
  }

  lemma DeleteIs(t: string)
    requires Plain(t)
    ensures Text(Delete(t)) == "DELETE FROM '" + t + "' WHERE YCSBC_KEY = ?"
  {
    hide Quote;
    Quoted("DELETE FROM ", t, " WHERE YCSBC_KEY = ?", "DELETE FROM '", "' WHERE YCSBC_KEY = ?");
  }

  /** The names one after the other, each with `before` in front and `after` behind. */
  function Each(names: seq<string>, before: string, after: string): string {
    if names == [] then "" else before + names[0] + after + Each(names[1..], before, after)
  }

  lemma {:induction false} ColumnsEach(names: seq<string>)
    requires forall i :: 0 <= i < |names| ==> Plain(names[i])
    ensures Columns(names) == Each(names, ", '", "'")
  {
    if names != [] {
      hide Quote;
      ColumnsEach(names[1..]);
      Quoted(", ", names[0], "", ", '", "'");
      assert ", " + Quote(names[0]) + "" == ", " + Quote(names[0]);
    }
  }

  lemma {:induction false} MoreAssignmentsEach(names: seq<string>)
    requires forall i :: 0 <= i < |names| ==> Plain(names[i])
    ensures MoreAssignments(names) == Each(names, ", '", "' = ?")
  {
    if names != [] {
      hide Quote;
      MoreAssignmentsEach(names[1..]);
      Quoted(", ", names[0], " = ?", ", '", "' = ?");
    }
  }

  lemma {:induction false} Marks(n: nat)
    ensures MorePlaceholders(n) == Each(seq(n, _ => "?"), ", ", "")
  {
    if n > 0 {
      Marks(n - 1);
      assert seq(n, _ => "?")[1..] == seq(n - 1, _ => "?");
      assert ", " + "?" + "" == ", ?";
    }
  }

  lemma Replaced(x: string, y: string, c: string, c': string, d: string, m: string, m': string, e: string)
    requires x == y && c == c' && m == m'
    ensures x + c + d + m + e == y + c' + d + m' + e
  {
  }

  lemma InsertIs(t: string, names: seq<string>)
    requires Plain(t) && forall i :: 0 <= i < |names| ==> Plain(names[i])
    ensures Text(Insert(t, names))
            == "INSERT INTO '" + t + "' (YCSBC_KEY" + Each(names, ", '", "'") + ") VALUES (?"
               + Each(seq(|names|, _ => "?"), ", ", "") + ");"
  {
    hide Quote, Columns, Each, MorePlaceholders, Plain;
    ColumnsEach(names);
    Marks(|names|);
    InsertQuoted(t);
    Replaced("INSERT INTO " + Quote(t) + " (YCSBC_KEY", "INSERT INTO '" + t + "' (YCSBC_KEY", Columns(names),
             Each(names, ", '", "'"), ") VALUES (?", MorePlaceholders(|names|),
             Each(seq(|names|, _ => "?"), ", ", ""), ");");
  }

  lemma InsertQuoted(t: string)
    requires Plain(t)
    ensures "INSERT INTO " + Quote(t) + " (YCSBC_KEY" == "INSERT INTO '" + t + "' (YCSBC_KEY"
  {
    hide Quote;
    Quoted("INSERT INTO ", t, " (YCSBC_KEY", "INSERT INTO '", "' (YCSBC_KEY");
  }

  lemma Inward(head: string, s: string, q: string, e: string, more: string)
    ensures head + s + (q + e + more) == head + (s + q + e) + more
  {
  }

  lemma Outward(head: string, s: string, name: string, e: string, more: string)
    ensures head + (s + name + e) + more == head + s + name + e + more
  {
  }

  lemma UpdateIs(t: string, names: seq<string>)
    requires Plain(t) && names != [] && forall i :: 0 <= i < |names| ==> Plain(names[i])
    ensures Text(Update(t, names))
            == "UPDATE '" + t + "' SET '" + names[0] + "' = ?" + Each(names[1..], ", '", "' = ?")
               + " WHERE YCSBC_KEY = ?;"
  {
    hide Quote, MoreAssignments, Each, Plain;
    var more := Each(names[1..], ", '", "' = ?");
    MoreAssignmentsEach(names[1..]);
    UpdateQuoted(t);
    FirstQuoted(names[0]);
    Inward("UPDATE '" + t, "' SET ", Quote(names[0]), " = ?", more);
    Outward("UPDATE '" + t, "' SET '", names[0], "' = ?", more);
  }

  lemma UpdateQuoted(t: string)
    requires Plain(t)
    ensures "UPDATE " + Quote(t) + " SET " == "UPDATE '" + t + "' SET "
  {
    hide Quote;
    Quoted("UPDATE ", t, " SET ", "UPDATE '", "' SET ");
  }

  lemma FirstQuoted(name: string)
    requires Plain(name)
    ensures "' SET " + Quote(name) + " = ?" == "' SET '" + name + "' = ?"
  {
    hide Quote;
    Quoted("' SET ", name, " = ?", "' SET '", "' = ?");
  }
}
