/** The monthly totals, per peer and over all peers (internal/store/store.go). */
module MonthQueries {
  import opened Traffic
  import opened Store

  type MonthTable = map<(string, int), Bytes>

  /** The rows of one month. */
  function RowsOfMonth(table: MonthTable, month: int): MonthTable {
    map k | k in table && k.1 == month :: table[k]
  }

  /** The per-peer answer: one entry for each row of the month. */
  function ByPeer(table: MonthTable, month: int): map<string, Bytes> {
    map k | k in table && k.1 == month :: k.0 := table[k]
  }

  /** The sum of all values of a table, in any order. */
  ghost function SumOf<K>(table: map<K, Bytes>): Bytes
    decreases |table|
  {
    if table == map[] then ZERO
    else
      var k :| k in table;
      SmallerTable(table, k);
      table[k].Plus(SumOf(table - {k}))
  }

  lemma SmallerTable<K>(table: map<K, Bytes>, k: K)
    requires k in table
    ensures |table - {k}| < |table|
  {
    assert (table - {k}).Keys == table.Keys - {k};
  }

  lemma {:induction false} SumOfTakesAny<K>(table: map<K, Bytes>, k: K)
    requires k in table
    ensures SumOf(table) == table[k].Plus(SumOf(table - {k}))
    decreases |table|
  {
    var j :| j in table && SumOf(table) == table[j].Plus(SumOf(table - {j}));
    if j != k {
      SmallerTable(table, j);
      SmallerTable(table, k);
      SumOfTakesAny(table - {j}, k);
      SumOfTakesAny(table - {k}, j);
      assert table - {j} - {k} == table - {k} - {j};
      var rest := SumOf(table - {j} - {k});
      SwapTerms(table[j], table[k], rest);
    }
  }

  lemma SwapTerms(a: Bytes, b: Bytes, rest: Bytes)
    ensures a.Plus(b.Plus(rest)) == b.Plus(a.Plus(rest))
  {
  }

  lemma OneMoreRow(table: MonthTable, month: int, k: (string, int))
    requires k in table && k.1 == month
    requires SumOf(RowsOfMonth(table - {k}, month)) == SumOf(ByPeer(table - {k}, month))
    ensures SumOf(RowsOfMonth(table, month)) == SumOf(ByPeer(table, month))
  {
    var rows, answer := RowsOfMonth(table, month), ByPeer(table, month);
    assert RowsOfMonth(table - {k}, month) == rows - {k};
    ByPeerWithout(table, month, k);
    SumOfTakesAny(rows, k);
    SumOfTakesAny(answer, k.0);
  }

  /** The total over the month's rows is the sum of the per-peer answer. */
  lemma {:induction false} TotalIsSumByPeer(table: MonthTable, month: int)
    ensures SumOf(RowsOfMonth(table, month)) == SumOf(ByPeer(table, month))
    decreases |table|
  {
    if k :| k in table && k.1 == month {
      SmallerTable(table, k);
      TotalIsSumByPeer(table - {k}, month);
      OneMoreRow(table, month, k);
    } else {
      assert RowsOfMonth(table, month) == map[];
      assert ByPeer(table, month) == map[];
    }
  }

  lemma ByPeerWithout(table: MonthTable, month: int, k: (string, int))
    requires k in table && k.1 == month
    ensures k.0 in ByPeer(table, month) && ByPeer(table, month)[k.0] == table[k]
    ensures ByPeer(table - {k}, month) == ByPeer(table, month) - {k.0}
  {
    var without := ByPeer(table - {k}, month);
    forall n ensures n in without <==> n in ByPeer(table, month) && n != k.0 {
      if n in ByPeer(table, month) && n != k.0 {
        assert (n, month) in table - {k} && (n, month).0 == n;
      }
    }
  }

  /** Each peer's answer is the total in its rows. */
  lemma ByPeerIsRows(db: Database, month: int, name: string)
    ensures name in ByPeer(db.monthly, month) <==> month in db.RowsOf(name).monthly
    ensures name in ByPeer(db.monthly, month) ==> ByPeer(db.monthly, month)[name] == db.RowsOf(name).monthly[month]
  {
    MonthsOfHas(db.monthly, name, month);
    if (name, month) in db.monthly {
      assert (name, month).0 == name;
    }
  }

  // ---- the queries ---------------------------------------------------------

  datatype MonthlyTraffic = MonthlyTraffic(traffic: Bytes, limit: int, limitExceeded: bool)

  /** What one peer's entry says: the month's total and how it compares to the
      limit on record, 0 standing for none. */
  ghost predicate Reports(entry: MonthlyTraffic, total: Bytes, peers: PeerTable, name: string) {
    && entry.traffic == total
    && entry.limit == (if name in peers then peers[name].limit else 0)
    && (entry.limitExceeded <==> entry.limit > 0 && total.rx + total.tx >= entry.limit)
  }

  method MonthlyTrafficByPeer(db: Database, month: int) returns (result: map<string, MonthlyTraffic>)
    ensures result.Keys == ByPeer(db.monthly, month).Keys
    ensures forall n :: n in result ==> Reports(result[n], ByPeer(db.monthly, month)[n], db.peers, n)
  {
    result := map[];
    var answer := ByPeer(db.monthly, month);
    var names := answer.Keys;
    while names != {}
      invariant names <= answer.Keys && result.Keys == answer.Keys - names
      invariant forall n :: n in result ==> Reports(result[n], answer[n], db.peers, n)
      decreases |names|
    {
      var n :| n in names;
      var limit := if n in db.peers then db.peers[n].limit else 0;
      var exceeded := limit > 0 && answer[n].rx + answer[n].tx >= limit;
      result := result[n := MonthlyTraffic(answer[n], limit, exceeded)];
      names := names - {n};
    }
  }

  /** The total over a month is the sum of what the per-peer query reports. */
  method MonthlyTrafficTotals(db: Database, month: int) returns (total: Bytes)
    ensures total == SumOf(ByPeer(db.monthly, month))
  {
    total := ZERO;
    var rows := RowsOfMonth(db.monthly, month);
    PlusZero(SumOf(rows));
    while rows != map[]
      invariant total.Plus(SumOf(rows)) == SumOf(RowsOfMonth(db.monthly, month))
      decreases |rows|
    {
      var k :| k in rows;
      SmallerTable(rows, k);
      SumOfTakesAny(rows, k);
      PlusAssociative(total, rows[k], SumOf(rows - {k}));
      total := total.Plus(rows[k]);
      rows := rows - {k};
    }
    PlusZero(total);
    TotalIsSumByPeer(db.monthly, month);
  }
}
