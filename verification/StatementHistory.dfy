/** Whole histories of operations on one connection to SQLite (lib/sqlite-lib-db/sqlite_lib_db.cc). */
module StatementHistory {
  import opened Fields
  import opened Wrappers
  import F = FieldOrder
  import S = StatementCache
  import T = SqlText

  datatype Request =
    | ReadOf(table: string, key: string, wanted: Option<seq<string>>, row: Option<seq<Field>>)
    | ScanOf(table: string, key: string, len: int, wanted: Option<seq<string>>, rows: seq<seq<Field>>)
    | UpdateOf(table: string, key: string, values: seq<Field>)
    | InsertOf(table: string, key: string, values: seq<Field>)
    | DeleteOf(table: string, key: string)

  /** An operation, and how SQLite takes it: whether its text can be prepared, and whether its last step succeeds. */
  datatype Attempt = Attempt(request: Request, available: bool, locked: nat, success: bool)

  function TextOf(r: Request): string {
    match r
    case ReadOf(table, _, _, _) => T.Text(T.Select(table))
    case ScanOf(table, _, _, _, _) => T.Text(T.SelectFrom(table))
    case UpdateOf(table, _, values) => T.Text(T.Update(table, S.Names(values)))
    case InsertOf(table, _, values) => T.Text(T.Insert(table, S.Names(F.Sort(values))))
    case DeleteOf(table, _) => T.Text(T.Delete(table))
  }

  function ParamsOf(r: Request): seq<S.Param> {
    match r
    case ReadOf(_, key, _, _) => [S.TextParam(key)]
    case ScanOf(_, key, len, _, _) => [S.TextParam(key), S.IntParam(len)]
    case UpdateOf(_, key, values) => S.UpdateParams(key, values)
    case InsertOf(_, key, values) => S.InsertParams(key, F.Sort(values))
    case DeleteOf(_, key) => [S.TextParam(key)]
  }

  // ----- What a history comes to -----

  predicate SameText(history: seq<Attempt>, i: nat, text: string) {
    i < |history| && TextOf(history[i].request) == text
  }

  /** One of the first `n` operations prepared this text. */
  predicate PreparedBy(history: seq<Attempt>, n: nat, text: string) {
    exists j: nat :: j < n && SameText(history, j, text) && history[j].available
  }

  /** One of the first `n` operations had a statement for this text and failed at it. */
  predicate FailedBy(history: seq<Attempt>, n: nat, text: string) {
    exists j: nat :: j < n && SameText(history, j, text) && !history[j].success && PreparedBy(history, j + 1, text)
  }

  /**
   * An operation succeeds when its text has been prepared by then, its own step succeeds, and no earlier operation with
   * the same text failed.
   */
  predicate Succeeds(history: seq<Attempt>, i: nat)
    requires i < |history|
  {
    var text := TextOf(history[i].request);
    PreparedBy(history, i + 1, text) && history[i].success && !FailedBy(history, i, text)
  }

  /** What the database runs: the successful operations in order, each with its own text and parameters. */
  function ExecutedBy(history: seq<Attempt>, n: nat): seq<(string, map<nat, S.Param>)>
    requires n <= |history|
  {
    if n == 0 then []
    else
      var r := history[n - 1].request;
      ExecutedBy(history, n - 1) + if Succeeds(history, n - 1) then [(TextOf(r), S.Bound(ParamsOf(r)))] else []
  }

  // ----- The cache follows it -----

  function CacheAfter(history: seq<Attempt>, n: nat): map<string, bool>
    requires n <= |history|
  {
    if n == 0 then map[]
    else
      var a := history[n - 1];
      S.NextCache(CacheAfter(history, n - 1), TextOf(a.request), a.available, a.success)
  }

  lemma PreparedOneMore(history: seq<Attempt>, n: nat, text: string)
    requires n < |history|
    ensures PreparedBy(history, n + 1, text)
            <==> PreparedBy(history, n, text) || (TextOf(history[n].request) == text && history[n].available)
  {
    hide TextOf;
    if TextOf(history[n].request) == text && history[n].available {
      assert SameText(history, n, text);
    }
  }

  lemma FailedOneMore(history: seq<Attempt>, n: nat, text: string)
    requires n < |history|
    ensures FailedBy(history, n + 1, text)
            <==> FailedBy(history, n, text)
                 || (TextOf(history[n].request) == text && !history[n].success && PreparedBy(history, n + 1, text))
  {
    hide TextOf, PreparedBy;
    if TextOf(history[n].request) == text && !history[n].success && PreparedBy(history, n + 1, text) {
      assert SameText(history, n, text);
    }
  }

  lemma FailedWasPrepared(history: seq<Attempt>, n: nat, text: string)
    requires FailedBy(history, n, text)
    ensures PreparedBy(history, n, text)
  {
    hide TextOf;
    var j: nat :| j < n && SameText(history, j, text) && !history[j].success && PreparedBy(history, j + 1, text);
  }

  /** The cache holds what has been prepared, and what has failed is left stepped. */
  lemma {:induction false} CacheIs(history: seq<Attempt>, n: nat, text: string)
    requires n <= |history|
    ensures text in CacheAfter(history, n) <==> PreparedBy(history, n, text)
    ensures text in CacheAfter(history, n) ==> (CacheAfter(history, n)[text] <==> FailedBy(history, n, text))
  {
    hide TextOf, PreparedBy, FailedBy;
    if n == 0 {
      NothingYet(history, text);
    } else {
      CacheIs(history, n - 1, text);
      PreparedOneMore(history, n - 1, text);
      FailedOneMore(history, n - 1, text);
      NotFailedYet(history, n - 1, text);
    }
  }

  lemma NothingYet(history: seq<Attempt>, text: string)
    ensures !PreparedBy(history, 0, text) && !FailedBy(history, 0, text)
  {
  }

  lemma NotFailedYet(history: seq<Attempt>, n: nat, text: string)
    ensures FailedBy(history, n, text) ==> PreparedBy(history, n, text)
  {
    if FailedBy(history, n, text) {
      FailedWasPrepared(history, n, text);
    }
  }

  /** What the cache lets through is what the history says. */
  lemma SucceedsExactly(history: seq<Attempt>, i: nat)
    requires i < |history|
    ensures var a := history[i];
            Succeeds(history, i) <==> S.CanRun(CacheAfter(history, i), TextOf(a.request), a.available) && a.success
  {
    hide TextOf, PreparedBy, FailedBy, CacheAfter;
    var text := TextOf(history[i].request);
    CacheIs(history, i, text);
    PreparedOneMore(history, i, text);
    NotFailedYet(history, i, text);
  }

  /** One failure is the end for its text: no later operation that runs the same text succeeds. */
  lemma FailureSticks(history: seq<Attempt>, i: nat, j: nat)
    requires i < j < |history| && TextOf(history[i].request) == TextOf(history[j].request)
    requires PreparedBy(history, i + 1, TextOf(history[i].request)) && !Succeeds(history, i)
    ensures !Succeeds(history, j)
  {
    hide TextOf, PreparedBy;
    var text := TextOf(history[i].request);
    if !history[i].success {
      assert SameText(history, i, text);
    }
  }

  method Perform(ctx: S.Ctx, a: Attempt) returns (ok: bool)
    requires ctx.Valid()
    modifies ctx, ctx.stmts.Values
    ensures ctx.Valid() && fresh(ctx.stmts.Values - old(ctx.stmts.Values))
    ensures ok <==> old(S.CanRun(ctx.Stepped(), TextOf(a.request), a.available)) && a.success
    ensures ctx.executed
            == old(ctx.executed) + if ok then [(TextOf(a.request), S.Bound(ParamsOf(a.request)))] else []
    ensures ctx.Stepped() == S.NextCache(old(ctx.Stepped()), TextOf(a.request), a.available, a.success)
  {
    hide ctx.Valid, ctx.Stepped, S.NextCache, S.CanRun, S.Bound, S.Names, T.Text, F.Sort;
    var r: S.Result;
    match a.request {
    case ReadOf(table, key, wanted, row) =>
      var result;
      r, result := ctx.Read(table, key, wanted, a.available, a.success, row);
    case ScanOf(table, key, len, wanted, rows) =>
      var result;
      r, result := ctx.Scan(table, key, len, wanted, a.available, a.success, rows);
    case UpdateOf(table, key, values) =>
      r := ctx.Update(table, key, values, a.available, a.locked, a.success);
    case InsertOf(table, key, values) =>
      var sorted;
      r, sorted := ctx.Insert(table, key, values, a.available, a.locked, a.success);
    case DeleteOf(table, key) =>
      r := ctx.Delete(table, key, a.available, a.success);
    }
    ok := r != S.Thrown;
  }

  /** Every history, operation by operation on one connection. */
  method RunHistory(history: seq<Attempt>) returns (ctx: S.Ctx, outcomes: seq<bool>)
    ensures |outcomes| == |history|
    ensures forall i :: 0 <= i < |history| ==> outcomes[i] == Succeeds(history, i)
    ensures ctx.executed == ExecutedBy(history, |history|)
  {
    hide Succeeds, TextOf, ParamsOf, S.NextCache, S.CanRun;
    ctx := new S.Ctx();
    assert ctx.Stepped() == map[];
    hide ctx.Valid, ctx.Stepped;
    outcomes := [];
    for n := 0 to |history|
      invariant ctx.Valid() && fresh(ctx) && fresh(ctx.stmts.Values)
      invariant ctx.Stepped() == CacheAfter(history, n)
      invariant ctx.executed == ExecutedBy(history, n)
      invariant |outcomes| == n && forall i :: 0 <= i < n ==> outcomes[i] == Succeeds(history, i)
    {
      SucceedsExactly(history, n);
      var ok := Perform(ctx, history[n]);
      outcomes := outcomes + [ok];
    }
  }
}
