/** How appended versions affect later point queries: a version recorded after
    the perspective time is never seen, the newest version of a valid time
    decides the query (a tombstone reads as deleted, an update restores a
    value), and a version at an earlier valid time never shadows a later one. */
module Properties {
  import opened Timestamps
  import opened Concepts
  import opened Wrappers
  import opened Facts
  import opened PointQuery
  import opened Mutation

  /** Appending a row the query cannot see changes no answer. */
  lemma InvisibleAppendKeepsAnswers(rows: seq<Row>, r: Row, k: Key, qValid: Timestamp, asOf: Timestamp, i: nat)
    requires !Visible(r, k, asOf)
    ensures IsAnswer(rows + [r], k, qValid, asOf, i) <==> IsAnswer(rows, k, qValid, asOf, i)
  {
    var rows' := rows + [r];
    assert forall j :: 0 <= j < |rows| ==> rows'[j] == rows[j];
    assert forall vt, j: nat :: InGroup(rows', k, asOf, vt, j) <==> InGroup(rows, k, asOf, vt, j);
  }

  /** A row the query cannot see (recorded after the perspective time, or of
      another patient or code) leaves the outcome as it was, as long as the
      table already held a row of the key. */
  lemma RetrieveIgnoresInvisibleAppend(rows: seq<Row>, dict: map<string, string>, r: Row, k: Key,
                                       qValid: Timestamp, qTrans: Timestamp)
    requires HasKeyRow(rows, k)
    requires !Visible(r, k, qTrans)
    ensures Retrieve(rows + [r], dict, k, qValid, qTrans) == Retrieve(rows, dict, k, qValid, qTrans)
  {
    var rows' := rows + [r];
    assert forall j :: 0 <= j < |rows| ==> rows'[j] == rows[j];
    var j0 :| 0 <= j0 < |rows| && IsKey(rows[j0], k);
    assert IsKey(rows'[j0], k);
    assert HasVisibleRow(rows', k, qTrans) ==> HasVisibleRow(rows, k, qTrans) by {
      if HasVisibleRow(rows', k, qTrans) {
        var j :| 0 <= j < |rows'| && Visible(rows'[j], k, qTrans);
        assert j < |rows|;
      }
    }
    assert HasVisibleRow(rows, k, qTrans) ==> HasVisibleRow(rows', k, qTrans) by {
      if HasVisibleRow(rows, k, qTrans) {
        var j :| 0 <= j < |rows| && Visible(rows[j], k, qTrans);
        assert Visible(rows'[j], k, qTrans);
      }
    }
    assert HasMatchingRow(rows', k, qValid, qTrans) ==> HasMatchingRow(rows, k, qValid, qTrans) by {
      if HasMatchingRow(rows', k, qValid, qTrans) {
        var j :| 0 <= j < |rows'| && Visible(rows'[j], k, qTrans) && ValidMatch(qValid, rows'[j].validStartTime);
        assert j < |rows|;
      }
    }
    if HasMatchingRow(rows, k, qValid, qTrans) {
      AnswerExists(rows, k, qValid, qTrans);
      var i :| 0 <= i < |rows| && IsAnswer(rows, k, qValid, qTrans, i);
      InvisibleAppendKeepsAnswers(rows, r, k, qValid, qTrans, i);
      RetrieveReportsAnswer(rows, dict, k, qValid, qTrans, i);
      RetrieveReportsAnswer(rows', dict, k, qValid, qTrans, i);
    }
  }

  /** A delete or update recorded after the perspective time does not change
      what the query reports at that perspective. */
  lemma LaterWriteIsInvisible(rows: seq<Row>, dict: map<string, string>, k: Key, target: Timestamp, value: string,
                              tt: Timestamp, qValid: Timestamp, qTrans: Timestamp)
    requires Before(qTrans, tt)
    ensures Retrieve(LogicalWrite(rows, k, target, value, tt), dict, k, qValid, qTrans)
         == Retrieve(rows, dict, k, qValid, qTrans)
  {
    var rows' := LogicalWrite(rows, k, target, value, tt);
    if |rows'| == |rows| + 1 {
      var b :| 0 <= b < |rows| && IsFirstBase(rows, k, target, b) && rows'[|rows|] == NewVersion(rows[b], target, value, tt);
      assert rows' == rows + [rows'[|rows|]];
      AtOrBeforeIsTotalOrder(tt, qTrans, tt);
      RetrieveIgnoresInvisibleAppend(rows, dict, rows'[|rows|], k, qValid, qTrans);
    } else {
      assert rows' == rows'[..|rows|];
    }
  }

  /** An appended row that is visible, matches the requested valid time, is the
      newest version of its valid time and has the latest matching valid time
      is the row the query reports. */
  lemma AppendedRowIsAnswer(rows: seq<Row>, r: Row, k: Key, qValid: Timestamp, asOf: Timestamp)
    requires Visible(r, k, asOf) && ValidMatch(qValid, r.validStartTime)
    requires forall j :: 0 <= j < |rows| && InGroup(rows, k, asOf, r.validStartTime, j) ==>
               Before(rows[j].transactionTime, r.transactionTime)
    requires forall j :: 0 <= j < |rows| && Visible(rows[j], k, asOf) && ValidMatch(qValid, rows[j].validStartTime) ==>
               AtOrBefore(rows[j].validStartTime, r.validStartTime)
    ensures IsAnswer(rows + [r], k, qValid, asOf, |rows|)
  {
    var rows' := rows + [r];
    assert forall j :: 0 <= j < |rows| ==> rows'[j] == rows[j];
    assert forall j: nat :: j < |rows| ==>
             (InGroup(rows', k, asOf, r.validStartTime, j) <==> InGroup(rows, k, asOf, r.validStartTime, j));
    AtOrBeforeIsTotalOrder(r.validStartTime, r.validStartTime, r.validStartTime);
    AtOrBeforeIsTotalOrder(r.transactionTime, r.transactionTime, r.transactionTime);
  }

  /** After a successful delete or update, a query whose perspective is at or
      after the write and whose requested valid time selects the written valid
      time reports the written value -- deleted for a tombstone, the new value
      otherwise -- provided no other version of that valid time was recorded
      at or after the write by the perspective, and no later matching valid
      time is visible. */
  lemma LatestWriteWins(rows: seq<Row>, dict: map<string, string>, k: Key, target: Timestamp, value: string,
                        tt: Timestamp, qValid: Timestamp, qTrans: Timestamp)
    requires exists j :: 0 <= j < |rows| && IsBaseFor(rows[j], k, target)
    requires AtOrBefore(tt, qTrans) && ValidMatch(qValid, target)
    requires forall j :: 0 <= j < |rows| && InGroup(rows, k, qTrans, target, j) ==>
               Before(rows[j].transactionTime, tt)
    requires forall j :: 0 <= j < |rows| && Visible(rows[j], k, qTrans) && ValidMatch(qValid, rows[j].validStartTime) ==>
               AtOrBefore(rows[j].validStartTime, target)
    ensures value == Tombstone ==>
              Retrieve(LogicalWrite(rows, k, target, value, tt), dict, k, qValid, qTrans) == RecordDeleted
    ensures value != Tombstone ==>
              Retrieve(LogicalWrite(rows, k, target, value, tt), dict, k, qValid, qTrans)
              == Found(value, target, Describe(dict, k.loinc))
  {
    var rows' := LogicalWrite(rows, k, target, value, tt);
    var r := rows'[|rows|];
    assert rows' == rows + [r];
    AppendedRowIsAnswer(rows, r, k, qValid, qTrans);
    RetrieveReportsAnswer(rows', dict, k, qValid, qTrans, |rows|);
  }

  /** Tombstone shadowing: after a delete at a timed valid time V, a query for
      exactly V as of the delete or later reads "deleted", unless another
      version of V recorded no earlier than the delete is visible. */
  lemma TimedDeleteShadows(rows: seq<Row>, dict: map<string, string>, k: Key, v: Timestamp, td: Timestamp, qTrans: Timestamp)
    requires !IsDateOnly(v)
    requires exists j :: 0 <= j < |rows| && IsKey(rows[j], k) && rows[j].validStartTime == v
    requires AtOrBefore(td, qTrans)
    requires forall j :: 0 <= j < |rows| && InGroup(rows, k, qTrans, v, j) ==> Before(rows[j].transactionTime, td)
    ensures Retrieve(LogicalWrite(rows, k, v, Tombstone, td), dict, k, v, qTrans) == RecordDeleted
  {
    var j :| 0 <= j < |rows| && IsKey(rows[j], k) && rows[j].validStartTime == v;
    assert IsBaseFor(rows[j], k, v);
    AtOrBeforeIsTotalOrder(v, v, v);
    LatestWriteWins(rows, dict, k, v, Tombstone, td, v, qTrans);
  }

  /** A version whose valid start time is earlier than the reported row's
      cannot shadow it, whatever its value or transaction time. In particular
      a date-only delete, whose tombstone is valid from midnight, leaves a
      later measurement of the same day in place for date-only queries. */
  lemma EarlierValidTimeDoesNotShadow(rows: seq<Row>, dict: map<string, string>, r: Row, k: Key,
                                      qValid: Timestamp, asOf: Timestamp, i: nat)
    requires IsAnswer(rows, k, qValid, asOf, i)
    requires Before(r.validStartTime, rows[i].validStartTime)
    ensures Retrieve(rows + [r], dict, k, qValid, asOf) == Retrieve(rows, dict, k, qValid, asOf)
  {
    var rows' := rows + [r];
    assert forall j :: 0 <= j < |rows| ==> rows'[j] == rows[j];
    assert !InGroup(rows', k, asOf, rows[i].validStartTime, |rows|);
    assert forall j: nat :: j < |rows| ==>
             (InGroup(rows', k, asOf, rows[i].validStartTime, j) <==> InGroup(rows, k, asOf, rows[i].validStartTime, j));
    assert IsAnswer(rows', k, qValid, asOf, i);
    RetrieveReportsAnswer(rows, dict, k, qValid, asOf, i);
    RetrieveReportsAnswer(rows', dict, k, qValid, asOf, i);
  }
}
