/** What a remote client makes of a read it gets an answer to (db/sqlite_shm_db.cc, core/client.h). */
module RemoteReads {
  import opened Wrappers
  import opened Fields
  import KeyNames
  import S = StatementCache

  /** The client tells a record from none by whether any field came back. */
  function RemoteStatus(result: seq<Field>): S.Result {
    if result == [] then S.NoData else S.Ok
  }

  lemma {:induction false} KeptSome(columns: seq<Field>, fields: Option<seq<string>>)
    ensures S.Kept(columns, fields) != [] <==> exists i :: 0 <= i < |columns| && S.Wanted(columns[i].0, fields)
  {
    if columns != [] {
      var last := |columns| - 1;
      KeptSome(columns[..last], fields);
      assert forall i :: 0 <= i < last ==> columns[..last][i] == columns[i];
      if S.Wanted(columns[last].0, fields) {
        assert S.Kept(columns, fields) != [];
      }
    }
  }

  /** A row of the table the workload creates: the key, then its fields in order. */
  predicate WorkloadRow(columns: seq<Field>) {
    && columns != [] && columns[0].0 == "YCSBC_KEY"
    && forall i :: 1 <= i < |columns| ==> columns[i].0 == KeyNames.FieldName(i - 1)
  }

  /**
   * Reading one field of a record that exists: the local store reports the record, though without the field; the
   * remote client reports that there is none.  Reading all fields, both report it.
   */
  lemma SingleFieldRead(columns: seq<Field>, field: nat)
    requires WorkloadRow(columns)
    ensures S.Kept(columns, Some(["field" + KeyNames.FieldName(field)])) == []
    ensures RemoteStatus(S.Kept(columns, Some(["field" + KeyNames.FieldName(field)]))) == S.NoData
    ensures RemoteStatus(S.Kept(columns, Some([]))) == S.Ok
  {
    var name := "field" + KeyNames.FieldName(field);
    KeptSome(columns, Some([name]));
    KeptSome(columns, Some([]));
    assert S.Wanted(columns[0].0, Some([]));
    forall i | 0 <= i < |columns|
      ensures !S.Wanted(columns[i].0, Some([name]))
    {
      if i == 0 {
        assert name[0] == 'f' && columns[0].0[0] == 'Y';
      } else {
        KeyNames.SingleFieldRequestMatchesNoColumn(field, i - 1);
      }
    }
  }
}
