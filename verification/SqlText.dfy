/** The SQL texts that double as keys of the statement cache (lib/sqlite-lib-db/sqlite_lib_db.cc). */
module SqlText {
  import opened CStrings
  import opened Wrappers

  /** What a text says: the operation, its table, and its fields in order. */
  datatype Statement =
    | Select(table: string)
    | SelectFrom(table: string)
    | Update(table: string, fields: seq<string>)
    | Insert(table: string, fields: seq<string>)
    | Delete(table: string)

  function EachCString(names: seq<string>): seq<string> {
    if names == [] then [] else [CString(names[0])] + EachCString(names[1..])
  }

  /** Inner quotes doubled, as the %Q conversion does between its outer quotes. */
  function Doubled(s: string): string {
    if s == "" then "" else (if s[0] == '\'' then "''" else [s[0]]) + Doubled(s[1..])
  }

  function Quote(name: string): string {
    "'" + Doubled(CString(name)) + "'"
  }

  /** Each further field of an assignment list, with the comma before it. */
  function MoreAssignments(fields: seq<string>): string {
    if fields == [] then "" else ", " + Quote(fields[0]) + " = ?" + MoreAssignments(fields[1..])
  }

  function Assignments(fields: seq<string>): string {
    if fields == [] then "" else Quote(fields[0]) + " = ?" + MoreAssignments(fields[1..])
  }

  function Columns(fields: seq<string>): string {
    if fields == [] then "" else ", " + Quote(fields[0]) + Columns(fields[1..])
  }

  function MorePlaceholders(n: nat): string {
    if n == 0 then "" else ", ?" + MorePlaceholders(n - 1)
  }

  function Text(s: Statement): string {
    match s
    case Select(t) => "SELECT * FROM " + Quote(t) + "  WHERE YCSBC_KEY = ?"
    case SelectFrom(t) => "SELECT * FROM " + Quote(t) + "  WHERE YCSBC_KEY >= ? LIMIT ?;"
    case Update(t, fields) => "UPDATE " + Quote(t) + " SET " + Assignments(fields) + " WHERE YCSBC_KEY = ?;"
    case Insert(t, fields) =>
      "INSERT INTO " + Quote(t) + " (YCSBC_KEY" + Columns(fields) + ") VALUES (?" + MorePlaceholders(|fields|) + ");"
    case Delete(t) => "DELETE FROM " + Quote(t) + " WHERE YCSBC_KEY = ?"
  }

  /** The statement with every name as C sees it: the same statement when no name holds a NUL. */
  function Normal(s: Statement): Statement {
    match s
    case Select(t) => Select(CString(t))
    case SelectFrom(t) => SelectFrom(CString(t))
    case Update(t, fields) => Update(CString(t), EachCString(fields))
    case Insert(t, fields) => Insert(CString(t), EachCString(fields))
    case Delete(t) => Delete(CString(t))
  }

  // ----- Reading a text back -----

  function After(prefix: string, s: string): Option<string> {
    if prefix <= s then Some(s[|prefix|..]) else None
  }

  /** The rest of a quoted name, up to a quote that is not doubled. */
  function Unquote(s: string): (r: Option<(string, string)>)
    ensures r.Some? ==> |r.value.1| < |s|
  {
    if s == "" then None
    else if s[0] == '\'' then
      if |s| > 1 && s[1] == '\'' then
        match Unquote(s[2..])
        case None => None
        case Some((name, rest)) => Some(("'" + name, rest))
      else Some(("", s[1..]))
    else
      match Unquote(s[1..])
      case None => None
      case Some((name, rest)) => Some(([s[0]] + name, rest))
  }

  function ReadName(s: string): (r: Option<(string, string)>)
    ensures r.Some? ==> |r.value.1| < |s|
  {
    if s != "" && s[0] == '\'' then Unquote(s[1..]) else None
  }

  function ReadAssignment(s: string): (r: Option<(string, string)>)
    ensures r.Some? ==> |r.value.1| < |s|
  {
    match ReadName(s)
    case None => None
    case Some((name, rest)) => if " = ?" <= rest then Some((name, rest[4..])) else None
  }

  function ReadMoreAssignments(s: string): Option<(seq<string>, string)>
    decreases |s|
  {
    if !(", " <= s) then Some(([], s)) else
    match ReadAssignment(s[2..])
    case None => None
    case Some((name, rest)) =>
      match ReadMoreAssignments(rest)
      case None => None
      case Some((names, end)) => Some(([name] + names, end))
  }

  function ReadAssignments(s: string): Option<(seq<string>, string)> {
    if !("'" <= s) then Some(([], s)) else
    match ReadAssignment(s)
    case None => None
    case Some((name, rest)) =>
      match ReadMoreAssignments(rest)
      case None => None
      case Some((names, end)) => Some(([name] + names, end))
  }

  function ReadColumns(s: string): Option<(seq<string>, string)>
    decreases |s|
  {
    if !(", " <= s) then Some(([], s)) else
    match ReadName(s[2..])
    case None => None
    case Some((name, rest)) =>
      match ReadColumns(rest)
      case None => None
      case Some((names, end)) => Some(([name] + names, end))
  }

  function ReadSelect(s: string): Option<Statement> {
    match ReadName(s)
    case None => None
    case Some((table, rest)) =>
      if rest == "  WHERE YCSBC_KEY = ?" then Some(Select(table))
      else if rest == "  WHERE YCSBC_KEY >= ? LIMIT ?;" then Some(SelectFrom(table))
      else None
  }

  function ReadUpdate(s: string): Option<Statement> {
    match ReadName(s)
    case None => None
    case Some((table, rest)) =>
      if !(" SET " <= rest) then None else
      match ReadAssignments(rest[5..])
      case None => None
      case Some((fields, end)) => if end == " WHERE YCSBC_KEY = ?;" then Some(Update(table, fields)) else None
  }

  function ReadInsert(s: string): Option<Statement> {
    match ReadName(s)
    case None => None
    case Some((table, rest)) =>
      if !(" (YCSBC_KEY" <= rest) then None else
      match ReadColumns(rest[11..])
      case None => None
      case Some((fields, end)) =>
        if end == ") VALUES (?" + MorePlaceholders(|fields|) + ");" then Some(Insert(table, fields)) else None
  }

  function ReadDelete(s: string): Option<Statement> {
    match ReadName(s)
    case None => None
    case Some((table, rest)) => if rest == " WHERE YCSBC_KEY = ?" then Some(Delete(table)) else None
  }

  function Parse(s: string): Option<Statement> {
    if "SELECT * FROM " <= s then ReadSelect(s[14..])
    else if "UPDATE " <= s then ReadUpdate(s[7..])
    else if "INSERT INTO " <= s then ReadInsert(s[12..])
    else if "DELETE FROM " <= s then ReadDelete(s[12..])
    else None
  }

  // ----- The texts are uniquely decodable -----

  predicate NoQuote(rest: string) {
    rest != "" ==> rest[0] != '\''
  }

  lemma {:induction false} UnquoteDoubled(name: string, rest: string)
    requires NoQuote(rest)
    ensures Unquote(Doubled(name) + "'" + rest) == Some((name, rest))
  {
    var s := Doubled(name) + "'" + rest;
    if name == "" {
      assert s == "'" + rest && s[1..] == rest;
    } else {
      UnquoteDoubled(name[1..], rest);
      var tail := Doubled(name[1..]) + "'" + rest;
      if name[0] == '\'' {
        assert s == "''" + tail && s[2..] == tail;
      } else {
        assert s == [name[0]] + tail && s[1..] == tail;
      }
      assert [name[0]] + name[1..] == name;
    }
  }

  lemma ReadQuote(name: string, rest: string)
    requires NoQuote(rest)
    ensures ReadName(Quote(name) + rest) == Some((CString(name), rest))
  {
    UnquoteDoubled(CString(name), rest);
    assert (Quote(name) + rest)[1..] == Doubled(CString(name)) + "'" + rest;
  }

  lemma ReadOneAssignment(name: string, rest: string)
    ensures ReadAssignment(Quote(name) + " = ?" + rest) == Some((CString(name), rest))
  {
    assert Quote(name) + " = ?" + rest == Quote(name) + (" = ?" + rest);
    ReadQuote(name, " = ?" + rest);
    assert (" = ?" + rest)[4..] == rest;
  }

  lemma {:induction false} ReadMoreAssignmentsBack(fields: seq<string>, rest: string)
    requires !(", " <= rest)
    ensures ReadMoreAssignments(MoreAssignments(fields) + rest) == Some((EachCString(fields), rest))
  {
    hide Quote, ReadAssignment;
    if fields == [] {
      assert MoreAssignments(fields) + rest == rest;
    } else {
      var more := MoreAssignments(fields[1..]);
      assert MoreAssignments(fields) == ", " + Quote(fields[0]) + " = ?" + more;
      AssignmentGrouped(Quote(fields[0]), more, rest);
      ReadOneAssignment(fields[0], more + rest);
      ReadMoreAssignmentsBack(fields[1..], rest);
    }
  }

  lemma AssignmentGrouped(name: string, more: string, rest: string)
    ensures ", " <= ", " + name + " = ?" + more + rest
    ensures (", " + name + " = ?" + more + rest)[2..] == name + " = ?" + (more + rest)
  {
  }

  lemma ReadAssignmentsBack(fields: seq<string>, rest: string)
    requires NoQuote(rest) && !(", " <= rest)
    ensures ReadAssignments(Assignments(fields) + rest) == Some((EachCString(fields), rest))
  {
    if fields == [] {
      assert Assignments(fields) + rest == rest;
    } else {
      hide Quote, ReadAssignment;
      var more := MoreAssignments(fields[1..]);
      assert Assignments(fields) == Quote(fields[0]) + " = ?" + more;
      FirstGrouped(Quote(fields[0]), more, rest);
      QuoteStarts(fields[0], " = ?" + (more + rest));
      ReadOneAssignment(fields[0], more + rest);
      ReadMoreAssignmentsBack(fields[1..], rest);
    }
  }

  lemma FirstGrouped(name: string, more: string, rest: string)
    ensures name + " = ?" + more + rest == name + " = ?" + (more + rest) == name + (" = ?" + (more + rest))
  {
  }

  lemma QuoteStarts(name: string, rest: string)
    ensures "'" <= Quote(name) + rest
  {
  }

  lemma {:induction false} ReadColumnsBack(fields: seq<string>, rest: string)
    requires NoQuote(rest) && !(", " <= rest)
    ensures ReadColumns(Columns(fields) + rest) == Some((EachCString(fields), rest))
  {
    if fields == [] {
      assert Columns(fields) + rest == rest;
    } else {
      hide Quote, ReadName;
      var more := Columns(fields[1..]);
      assert Columns(fields) == ", " + Quote(fields[0]) + more;
      ColumnGrouped(Quote(fields[0]), more, rest);
      ColumnsNoQuote(fields[1..], rest);
      ReadQuote(fields[0], more + rest);
      ReadColumnsBack(fields[1..], rest);
    }
  }

  lemma ColumnGrouped(name: string, more: string, rest: string)
    ensures ", " <= ", " + name + more + rest
    ensures (", " + name + more + rest)[2..] == name + (more + rest)
  {
  }

  lemma ColumnsNoQuote(fields: seq<string>, rest: string)
    requires NoQuote(rest)
    ensures NoQuote(Columns(fields) + rest)
  {
    if fields == [] {
      assert Columns(fields) + rest == rest;
    } else {
      assert (Columns(fields) + rest)[0] == ',';
    }
  }

  lemma {:induction false} EachCStringLength(names: seq<string>)
    ensures |EachCString(names)| == |names|
    ensures forall i :: 0 <= i < |names| ==> EachCString(names)[i] == CString(names[i])
  {
    if names != [] {
      EachCStringLength(names[1..]);
    }
  }

  lemma PrefixDropped(prefix: string, body: string)
    ensures prefix <= prefix + body && (prefix + body)[|prefix|..] == body
  {
  }

  lemma ParseAfterSelect(body: string)
    ensures Parse("SELECT * FROM " + body) == ReadSelect(body)
  {
    hide ReadSelect, ReadUpdate, ReadInsert, ReadDelete;
    PrefixDropped("SELECT * FROM ", body);
  }

  lemma ParseAfterUpdate(body: string)
    ensures Parse("UPDATE " + body) == ReadUpdate(body)
  {
    hide ReadSelect, ReadUpdate, ReadInsert, ReadDelete;
    PrefixDropped("UPDATE ", body);
    assert ("UPDATE " + body)[0] == 'U';
  }

  lemma ParseAfterInsert(body: string)
    ensures Parse("INSERT INTO " + body) == ReadInsert(body)
  {
    hide ReadSelect, ReadUpdate, ReadInsert, ReadDelete;
    PrefixDropped("INSERT INTO ", body);
    assert ("INSERT INTO " + body)[0] == 'I';
  }

  lemma ParseAfterDelete(body: string)
    ensures Parse("DELETE FROM " + body) == ReadDelete(body)
  {
    hide ReadSelect, ReadUpdate, ReadInsert, ReadDelete;
    PrefixDropped("DELETE FROM ", body);
    assert ("DELETE FROM " + body)[0] == 'D';
  }

  lemma ParseUpdate(t: string, fields: seq<string>)
    ensures Parse(Text(Update(t, fields))) == Some(Normal(Update(t, fields)))
  {
    var list, end := Assignments(fields), " WHERE YCSBC_KEY = ?;";
    var rest := " SET " + (list + end);
    hide Parse, Quote, Assignments, ReadName, ReadAssignments;
    assert Text(Update(t, fields)) == "UPDATE " + (Quote(t) + rest);
    ParseAfterUpdate(Quote(t) + rest);
    ReadQuote(t, rest);
    PrefixDropped(" SET ", list + end);
    ReadAssignmentsBack(fields, end);
  }

  function InsertEnd(n: nat): string {
    ") VALUES (?" + MorePlaceholders(n) + ");"
  }

  lemma InsertText(t: string, fields: seq<string>)
    ensures Text(Insert(t, fields))
            == "INSERT INTO " + (Quote(t) + (" (YCSBC_KEY" + (Columns(fields) + InsertEnd(|fields|))))
  {
    hide Quote, Columns, MorePlaceholders;
    Regrouped("INSERT INTO ", Quote(t), " (YCSBC_KEY", Columns(fields), ") VALUES (?", MorePlaceholders(|fields|), ");");
  }

  lemma Regrouped(a: string, b: string, c: string, d: string, e: string, f: string, g: string)
    ensures a + b + c + d + e + f + g == a + (b + (c + (d + (e + f + g))))
  {
  }

  lemma ReadInsertBack(body: string, table: string, list: string, names: seq<string>)
    requires ReadName(body) == Some((table, " (YCSBC_KEY" + (list + InsertEnd(|names|))))
    requires ReadColumns(list + InsertEnd(|names|)) == Some((names, InsertEnd(|names|)))
    ensures ReadInsert(body) == Some(Insert(table, names))
  {
    hide ReadName, ReadColumns, MorePlaceholders;
    PrefixDropped(" (YCSBC_KEY", list + InsertEnd(|names|));
  }

  lemma ParseInsert(t: string, fields: seq<string>)
    ensures Parse(Text(Insert(t, fields))) == Some(Normal(Insert(t, fields)))
  {
    var list, end := Columns(fields), InsertEnd(|fields|);
    assert end[0] == ')';
    EachCStringLength(fields);
    hide Parse, Text, Quote, Columns, ReadName, ReadColumns, ReadInsert, InsertEnd, EachCString;
    var body := Quote(t) + (" (YCSBC_KEY" + (list + end));
    InsertText(t, fields);
    ParseAfterInsert(body);
    ReadQuote(t, " (YCSBC_KEY" + (list + end));
    ReadColumnsBack(fields, end);
    ReadInsertBack(body, CString(t), list, EachCString(fields));
  }

  lemma ParseSelect(t: string)
    ensures Parse(Text(Select(t))) == Some(Select(CString(t)))
    ensures Parse(Text(SelectFrom(t))) == Some(SelectFrom(CString(t)))
  {
    hide Parse, Quote, ReadName;
    assert |"  WHERE YCSBC_KEY = ?"| != |"  WHERE YCSBC_KEY >= ? LIMIT ?;"|;
    SelectBack(t, "  WHERE YCSBC_KEY = ?");
    SelectBack(t, "  WHERE YCSBC_KEY >= ? LIMIT ?;");
  }

  lemma SelectBack(t: string, end: string)
    requires NoQuote(end)
    ensures Parse("SELECT * FROM " + Quote(t) + end) == ReadSelect(Quote(t) + end)
    ensures ReadName(Quote(t) + end) == Some((CString(t), end))
  {
    hide Parse, Quote, ReadName, ReadSelect;
    assert "SELECT * FROM " + Quote(t) + end == "SELECT * FROM " + (Quote(t) + end);
    ParseAfterSelect(Quote(t) + end);
    ReadQuote(t, end);
  }

  lemma ParseDelete(t: string)
    ensures Parse(Text(Delete(t))) == Some(Delete(CString(t)))
  {
    hide Parse, Quote, ReadName;
    var end := " WHERE YCSBC_KEY = ?";
    assert Text(Delete(t)) == "DELETE FROM " + (Quote(t) + end);
    ParseAfterDelete(Quote(t) + end);
    ReadQuote(t, end);
  }

  /** Every text can be read back: operation, table and fields in order, each name up to its first NUL. */
  lemma ParseText(s: Statement)
    ensures Parse(Text(s)) == Some(Normal(s))
  {
    hide Parse, Text;
    match s
    case Select(t) => ParseSelect(t);
    case SelectFrom(t) => ParseSelect(t);
    case Update(t, fields) => ParseUpdate(t, fields);
    case Insert(t, fields) => ParseInsert(t, fields);
    case Delete(t) => ParseDelete(t);
  }

  /** Two operations share a cache key exactly when they are the same operation on names that are the same to C. */
  lemma SameText(a: Statement, b: Statement)
    ensures Text(a) == Text(b) <==> Normal(a) == Normal(b)
  {
    ParseText(a);
    ParseText(b);
    if Normal(a) == Normal(b) {
      NormalText(a);
      NormalText(b);
    }
  }

  lemma {:induction false} CStringIdempotent(s: string)
    ensures CString(CString(s)) == CString(s)
    ensures '\0' !in s ==> CString(s) == s
  {
    if s != "" && s[0] != '\0' {
      CStringIdempotent(s[1..]);
      assert CString(s)[1..] == CString(s[1..]);
    }
  }

  lemma {:induction false} ListsOfNormal(fields: seq<string>)
    ensures MoreAssignments(EachCString(fields)) == MoreAssignments(fields)
    ensures Columns(EachCString(fields)) == Columns(fields)
  {
    if fields != [] {
      CStringIdempotent(fields[0]);
      assert EachCString(fields)[1..] == EachCString(fields[1..]);
      ListsOfNormal(fields[1..]);
    }
  }

  lemma NormalText(s: Statement)
    ensures Text(Normal(s)) == Text(s)
  {
    CStringIdempotent(s.table);
    if s.Update? || s.Insert? {
      ListsOfNormal(s.fields);
      EachCStringLength(s.fields);
      if s.fields != [] {
        CStringIdempotent(s.fields[0]);
        ListsOfNormal(s.fields[1..]);
        assert EachCString(s.fields)[1..] == EachCString(s.fields[1..]);
      }
    }
  }

  // ----- Placeholders -----

  /** The number of question marks outside quotes: the parameters SQLite numbers from 1 in this order. */
  function Placeholders(s: string, quoted: bool): nat {
    if s == "" then 0
    else if s[0] == '\'' then Placeholders(s[1..], !quoted)
    else (if s[0] == '?' && !quoted then 1 else 0) + Placeholders(s[1..], quoted)
  }

  predicate EndsQuoted(s: string, quoted: bool) {
    if s == "" then quoted
    else if s[0] == '\'' then EndsQuoted(s[1..], !quoted)
    else EndsQuoted(s[1..], quoted)
  }

  lemma {:induction false} PlaceholdersConcat(a: string, b: string, quoted: bool)
    ensures Placeholders(a + b, quoted) == Placeholders(a, quoted) + Placeholders(b, EndsQuoted(a, quoted))
    ensures EndsQuoted(a + b, quoted) == EndsQuoted(b, EndsQuoted(a, quoted))
  {
    if a == "" {
      assert a + b == b;
    } else {
      assert (a + b)[1..] == a[1..] + b;
      PlaceholdersConcat(a[1..], b, if a[0] == '\'' then !quoted else quoted);
    }
  }

  lemma {:induction false} DoubledHoldsNone(name: string)
    ensures Placeholders(Doubled(name), true) == 0 && EndsQuoted(Doubled(name), true)
  {
    if name != "" {
      DoubledHoldsNone(name[1..]);
      if name[0] == '\'' {
        assert Doubled(name)[1..][1..] == Doubled(name[1..]);
      } else {
        assert Doubled(name)[1..] == Doubled(name[1..]);
      }
    }
  }

  /** A quoted name holds no placeholder, whatever it contains, and closes its quotes. */
  lemma QuoteHoldsNone(name: string)
    ensures Placeholders(Quote(name), false) == 0 && !EndsQuoted(Quote(name), false)
  {
    var inner := Doubled(CString(name));
    DoubledHoldsNone(CString(name));
    PlaceholdersConcat(inner, "'", true);
    assert Quote(name)[1..] == inner + "'";
    assert "'"[1..] == "";
  }

  /** A stretch of text that leaves the quotes closed and holds `n` placeholders. */
  predicate Holds(s: string, n: nat) {
    Placeholders(s, false) == n && !EndsQuoted(s, false)
  }

  lemma HoldsConcat(a: string, m: nat, b: string, n: nat)
    requires Holds(a, m) && Holds(b, n)
    ensures Holds(a + b, m + n)
  {
    PlaceholdersConcat(a, b, false);
  }

  lemma {:induction false} PlainHolds(s: string)
    requires forall i :: 0 <= i < |s| ==> s[i] != '\'' && s[i] != '?'
    ensures Holds(s, 0)
  {
    if s != "" {
      PlainHolds(s[1..]);
    }
  }

  lemma MarkHolds()
    ensures Holds("?", 1)
  {
    assert "?"[1..] == "";
  }

  lemma {:induction false} MorePlaceholdersHold(n: nat)
    ensures Holds(MorePlaceholders(n), n)
  {
    if n > 0 {
      PlainHolds(", ");
      MarkHolds();
      HoldsConcat(", ", 0, "?", 1);
      assert ", ?" == ", " + "?";
      MorePlaceholdersHold(n - 1);
      HoldsConcat(", ?", 1, MorePlaceholders(n - 1), n - 1);
    }
  }

  lemma {:induction false} ColumnsHold(fields: seq<string>)
    ensures Holds(Columns(fields), 0)
  {
    if fields != [] {
      PlainHolds(", ");
      QuoteHoldsNone(fields[0]);
      HoldsConcat(", ", 0, Quote(fields[0]), 0);
      ColumnsHold(fields[1..]);
      HoldsConcat(", " + Quote(fields[0]), 0, Columns(fields[1..]), 0);
    }
  }

  /** The text of an insert up to its value list. */
  function InsertHead(t: string, fields: seq<string>): string {
    "INSERT INTO " + Quote(t) + " (YCSBC_KEY" + Columns(fields) + ") VALUES ("
  }

  lemma InsertHeadHolds(t: string, fields: seq<string>)
    ensures Holds(InsertHead(t, fields), 0)
  {
    hide Holds, Quote, Columns;
    QuoteHolds(t);
    ColumnsHold(fields);
    PlainHolds("INSERT INTO ");
    PlainHolds(" (YCSBC_KEY");
    PlainHolds(") VALUES (");
    HoldsConcat("INSERT INTO ", 0, Quote(t), 0);
    HoldsConcat("INSERT INTO " + Quote(t), 0, " (YCSBC_KEY", 0);
    HoldsConcat("INSERT INTO " + Quote(t) + " (YCSBC_KEY", 0, Columns(fields), 0);
    HoldsConcat("INSERT INTO " + Quote(t) + " (YCSBC_KEY" + Columns(fields), 0, ") VALUES (", 0);
  }

  lemma ValuesGrouped(a: string, m: string)
    ensures a + ") VALUES (?" + m + ");" == a + ") VALUES (" + ("?" + m) + ");"
  {
    assert ") VALUES (?" == ") VALUES (" + "?";
  }

  /**
   * The columns of an insert are the key and the fields, its values are as many placeholders, and there are no others:
   * column number i takes parameter number i.
   */
  lemma InsertPlaceholders(t: string, fields: seq<string>)
    ensures Text(Insert(t, fields)) == InsertHead(t, fields) + ("?" + MorePlaceholders(|fields|)) + ");"
    ensures Holds(InsertHead(t, fields), 0) && Holds("?" + MorePlaceholders(|fields|), 1 + |fields|)
    ensures Holds(Text(Insert(t, fields)), 1 + |fields|)
  {
    hide Holds, Text, InsertHead, MorePlaceholders;
    var values := "?" + MorePlaceholders(|fields|);
    InsertTextIs(t, fields);
    InsertHeadHolds(t, fields);
    MarkHolds();
    MorePlaceholdersHold(|fields|);
    HoldsConcat("?", 1, MorePlaceholders(|fields|), |fields|);
    HoldsConcat(InsertHead(t, fields), 0, values, 1 + |fields|);
    PlainHolds(");");
    HoldsConcat(InsertHead(t, fields) + values, 1 + |fields|, ");", 0);
  }

  lemma InsertTextIs(t: string, fields: seq<string>)
    ensures Text(Insert(t, fields)) == InsertHead(t, fields) + ("?" + MorePlaceholders(|fields|)) + ");"
  {
    hide Quote, Columns, MorePlaceholders;
    ValuesGrouped("INSERT INTO " + Quote(t) + " (YCSBC_KEY" + Columns(fields), MorePlaceholders(|fields|));
  }

  lemma QuoteHolds(name: string)
    ensures Holds(Quote(name), 0)
  {
    QuoteHoldsNone(name);
  }

  lemma AssignmentHolds(name: string)
    ensures Holds(Quote(name) + " = ", 0) && Holds(Quote(name) + " = ?", 1)
  {
    hide Holds, Quote;
    QuoteHolds(name);
    PlainHolds(" = ");
    HoldsConcat(Quote(name), 0, " = ", 0);
    MarkHolds();
    HoldsConcat(Quote(name) + " = ", 0, "?", 1);
    assert Quote(name) + " = " + "?" == Quote(name) + " = ?";
  }

  lemma {:induction false} MoreAssignmentsHold(fields: seq<string>)
    ensures Holds(MoreAssignments(fields), |fields|)
  {
    if fields != [] {
      hide Holds, Quote;
      var one, more := Quote(fields[0]) + " = ?", MoreAssignments(fields[1..]);
      PlainHolds(", ");
      AssignmentHolds(fields[0]);
      HoldsConcat(", ", 0, one, 1);
      MoreAssignmentsHold(fields[1..]);
      HoldsConcat(", " + one, 1, more, |fields| - 1);
      assert MoreAssignments(fields) == ", " + Quote(fields[0]) + " = ?" + more;
      assert ", " + Quote(fields[0]) + " = ?" == ", " + one;
    } else {
      PlainHolds("");
    }
  }

  lemma AssignmentsHold(fields: seq<string>)
    ensures Holds(Assignments(fields), |fields|)
  {
    if fields != [] {
      AssignmentHolds(fields[0]);
      MoreAssignmentsHold(fields[1..]);
      HoldsConcat(Quote(fields[0]) + " = ?", 1, MoreAssignments(fields[1..]), |fields| - 1);
    }
  }

  lemma {:induction false} MoreAssignmentsConcat(a: seq<string>, b: seq<string>)
    ensures MoreAssignments(a + b) == MoreAssignments(a) + MoreAssignments(b)
  {
    if a == [] {
      assert a + b == b;
    } else {
      assert (a + b)[1..] == a[1..] + b;
      MoreAssignmentsConcat(a[1..], b);
    }
  }

  /** The assignment list around field `i`. */
  lemma AssignmentsSplit(fields: seq<string>, i: nat) returns (before: string, after: string)
    requires i < |fields|
    ensures Assignments(fields) == before + (Quote(fields[i]) + " = ?") + after
    ensures Holds(before, i)
  {
    hide Quote, Holds, MoreAssignments;
    if i == 0 {
      before, after := "", MoreAssignments(fields[1..]);
      PlainHolds("");
    } else {
      before, after := AssignmentsSplitLater(fields, i);
    }
  }

  lemma AssignmentsSplitLater(fields: seq<string>, i: nat) returns (before: string, after: string)
    requires 0 < i < |fields|
    ensures Assignments(fields) == before + (Quote(fields[i]) + " = ?") + after
    ensures Holds(before, i)
  {
    hide Quote, Holds, MoreAssignments;
    var left, right := fields[1..][..i - 1], fields[i + 1..];
    CutAt(fields, i);
    MoreAssignmentsSplit(left, fields[i], right);
    before := Quote(fields[0]) + " = ?" + MoreAssignments(left) + ", ";
    after := MoreAssignments(right);
    BeforeHolds(fields[0], left);
    Around(Quote(fields[0]) + " = ?", MoreAssignments(left), Quote(fields[i]) + " = ?", after);
  }

  lemma CutAt(fields: seq<string>, i: nat)
    requires 0 < i < |fields|
    ensures fields[1..] == fields[1..][..i - 1] + ([fields[i]] + fields[i + 1..])
  {
  }

  lemma MoreAssignmentsSplit(left: seq<string>, name: string, right: seq<string>)
    ensures MoreAssignments(left + ([name] + right))
            == MoreAssignments(left) + (", " + (Quote(name) + " = ?") + MoreAssignments(right))
  {
    hide Quote;
    MoreAssignmentsConcat(left, [name] + right);
    assert ([name] + right)[1..] == right;
    assert ", " + Quote(name) + " = ?" == ", " + (Quote(name) + " = ?");
  }

  lemma Around(first: string, left: string, one: string, right: string)
    ensures first + (left + (", " + one + right)) == first + left + ", " + one + right
  {
  }

  lemma BeforeHolds(name: string, left: seq<string>)
    ensures Holds(Quote(name) + " = ?" + MoreAssignments(left) + ", ", 1 + |left|)
  {
    hide Holds, Quote, MoreAssignments;
    AssignmentHolds(name);
    MoreAssignmentsHold(left);
    HoldsConcat(Quote(name) + " = ?", 1, MoreAssignments(left), |left|);
    PlainHolds(", ");
    HoldsConcat(Quote(name) + " = ?" + MoreAssignments(left), 1 + |left|, ", ", 0);
  }

  function UpdateHead(t: string): string {
    "UPDATE " + Quote(t) + " SET "
  }

  lemma UpdateHeadHolds(t: string)
    ensures Holds(UpdateHead(t), 0)
  {
    hide Holds, Quote;
    QuoteHolds(t);
    PlainHolds("UPDATE ");
    PlainHolds(" SET ");
    HoldsConcat("UPDATE ", 0, Quote(t), 0);
    HoldsConcat("UPDATE " + Quote(t), 0, " SET ", 0);
  }

  /** The placeholder behind the name of field `i` of an update is parameter number i + 1. */
  lemma UpdatePlaceholder(t: string, fields: seq<string>, i: nat) returns (before: string, after: string)
    requires i < |fields|
    ensures Text(Update(t, fields)) == before + (Quote(fields[i]) + " = ?") + after
    ensures Holds(before, i)
  {
    hide Holds, Quote, Assignments;
    var left, right := AssignmentsSplit(fields, i);
    UpdateHeadHolds(t);
    HoldsConcat(UpdateHead(t), 0, left, i);
    before, after := UpdateHead(t) + left, right + " WHERE YCSBC_KEY = ?;";
    OneOfUpdate(UpdateHead(t), left, Quote(fields[i]) + " = ?", right, " WHERE YCSBC_KEY = ?;");
  }

  lemma OneOfUpdate(head: string, left: string, one: string, right: string, end: string)
    ensures head + (left + one + right) + end == head + left + one + (right + end)
  {
  }

  /** An update has one placeholder a field and a last one for the key. */
  lemma UpdatePlaceholders(t: string, fields: seq<string>)
    ensures Text(Update(t, fields)) == UpdateHead(t) + Assignments(fields) + " WHERE YCSBC_KEY = " + "?" + ";"
    ensures Holds(UpdateHead(t) + Assignments(fields) + " WHERE YCSBC_KEY = ", |fields|)
    ensures Holds(Text(Update(t, fields)), |fields| + 1)
  {
    hide Holds, Quote, Assignments;
    UpdateHeadHolds(t);
    AssignmentsHold(fields);
    HoldsConcat(UpdateHead(t), 0, Assignments(fields), |fields|);
    PlainHolds(" WHERE YCSBC_KEY = ");
    var head := UpdateHead(t) + Assignments(fields);
    HoldsConcat(head, |fields|, " WHERE YCSBC_KEY = ", 0);
    MarkHolds();
    HoldsConcat(head + " WHERE YCSBC_KEY = ", |fields|, "?", 1);
    PlainHolds(";");
    HoldsConcat(head + " WHERE YCSBC_KEY = " + "?", |fields| + 1, ";", 0);
    assert head + " WHERE YCSBC_KEY = ?;" == head + " WHERE YCSBC_KEY = " + "?" + ";";
  }
}
