/** What a sync of configuration records does to the peers table. */
module SyncTable {
  import opened Store

  ghost predicate DistinctRecordNames(records: seq<SyncRecord>) {
    forall i, j :: 0 <= i < j < |records| ==> records[i].name != records[j].name
  }

  ghost predicate Named(records: seq<SyncRecord>, name: string) {
    exists i :: 0 <= i < |records| && records[i].name == name
  }

  lemma NamedCons(records: seq<SyncRecord>, n: string)
    requires records != []
    ensures Named(records, n) <==> n == records[0].name || Named(records[1..], n)
  {
    if i :| 0 < i < |records| && records[i].name == n {
      assert records[1..][i - 1].name == n;
    }
    if i :| 0 <= i < |records| - 1 && records[1..][i].name == n {
      assert records[i + 1].name == n;
    }
  }

  /** With distinct names, a successful sync gives every record its row computed
      from the original table and leaves the other rows alone. */
  lemma {:induction false} SyncRowsResult(table: PeerTable, records: seq<SyncRecord>)
    requires DistinctRecordNames(records) && SyncRows(table, records).Some?
    ensures var after := SyncRows(table, records).value;
            && (forall n :: n in after <==> n in table || Named(records, n))
            && (forall i :: 0 <= i < |records| ==>
                  records[i].name in after && after[records[i].name] == SyncedRow(table, records[i]))
            && (forall n :: n in table && !Named(records, n) ==> n in after && after[n] == table[n])
    decreases |records|
  {
    if records != [] {
      var r, rest := records[0], records[1..];
      var next := SyncRow(table, r);
      SyncRowsResult(next, rest);
      var after := SyncRows(table, records).value;
      forall n ensures Named(records, n) <==> n == r.name || Named(rest, n) { NamedCons(records, n); }
      forall i | 0 <= i < |records|
        ensures records[i].name in after && after[records[i].name] == SyncedRow(table, records[i])
      {
        if i == 0 {
          assert !Named(rest, r.name);
        } else {
          assert rest[i - 1] == records[i];
        }
      }
    }
  }

  /** No two records share a key, and a key held in the table under another name
      belongs to a name that is written earlier. */
  ghost predicate ClashFree(table: PeerTable, records: seq<SyncRecord>) {
    && (forall i, j :: 0 <= i < j < |records| ==> records[i].publicKey != records[j].publicKey)
    && (forall i, n | 0 <= i < |records| && n in table && n != records[i].name
                      && table[n].publicKey == records[i].publicKey :: Named(records[..i], n))
  }

  lemma ClashFreeHead(table: PeerTable, records: seq<SyncRecord>)
    requires records != []
    ensures ClashFree(table, records) ==> !KeyTaken(table, records[0].name, records[0].publicKey)
  {
    assert forall n :: !Named(records[..0], n);
  }

  lemma NamedShift(records: seq<SyncRecord>, i: nat, n: string)
    requires 0 < i <= |records|
    ensures Named(records[..i], n) <==> n == records[0].name || Named(records[1..][..i - 1], n)
  {
    var shorter := records[1..][..i - 1];
    if Named(records[..i], n) && n != records[0].name {
      var k :| 0 <= k < i && records[..i][k].name == n;
      assert shorter[k - 1].name == n;
    }
    if Named(shorter, n) {
      var k :| 0 <= k < |shorter| && shorter[k].name == n;
      assert records[..i][k + 1].name == n;
    }
    assert records[..i][0] == records[0];
  }

  lemma ClashFreeTail(table: PeerTable, records: seq<SyncRecord>)
    requires DistinctRecordNames(records) && records != []
    requires !KeyTaken(table, records[0].name, records[0].publicKey)
    ensures ClashFree(table, records) <==> ClashFree(SyncRow(table, records[0]), records[1..])
  {
    var r, rest := records[0], records[1..];
    var next := SyncRow(table, r);
    if ClashFree(table, records) {
      forall i, n | 0 <= i < |rest| && n in next && n != rest[i].name && next[n].publicKey == rest[i].publicKey
        ensures Named(rest[..i], n)
      {
        assert rest[i] == records[i + 1];
        NamedShift(records, i + 1, n);
      }
    }
    if ClashFree(next, rest) {
      forall j | 0 < j < |records| ensures r.publicKey != records[j].publicKey {
        assert records[j] == rest[j - 1];
        assert r.name in next && next[r.name].publicKey == r.publicKey;
        assert !Named(rest[..j - 1], r.name);
      }
      forall i, j | 0 < i < j < |records| ensures records[i].publicKey != records[j].publicKey {
        assert records[i] == rest[i - 1] && records[j] == rest[j - 1];
      }
      forall i, n | 0 <= i < |records| && n in table && n != records[i].name
                    && table[n].publicKey == records[i].publicKey
        ensures Named(records[..i], n)
      {
        if i > 0 {
          assert records[i] == rest[i - 1];
          NamedShift(records, i, n);
          assert n != r.name ==> n in next && next[n] == table[n];
        }
      }
    }
  }

  /** With distinct names, a sync succeeds exactly when it is free of clashes. */
  lemma {:induction false} SyncSucceedsIff(table: PeerTable, records: seq<SyncRecord>)
    requires DistinctRecordNames(records)
    ensures SyncRows(table, records).Some? <==> ClashFree(table, records)
    decreases |records|
  {
    if records != [] {
      ClashFreeHead(table, records);
      if !KeyTaken(table, records[0].name, records[0].publicKey) {
        ClashFreeTail(table, records);
        SyncSucceedsIff(SyncRow(table, records[0]), records[1..]);
      }
    }
  }
}
