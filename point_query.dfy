/** The point query of the fact table (query_retrieve): what value did the
    table hold for a patient and a LOINC code, at a valid time, as known at a
    perspective transaction time. */
module PointQuery {
  import opened Timestamps
  import opened Concepts
  import opened Wrappers
  import opened Facts

  /** The outcomes of a point query; every failure has its own message. */
  datatype Outcome =
    | DatabaseEmpty
    | NoRecordsFound
    | NoDataAtTransactionTime
    | NoMatchingRecord
    | RecordDeleted
    | Found(value: string, validTime: Timestamp, description: string)

  /** The valid-time test of the query: a date-only request matches rows of the
      same calendar date, a timed request matches rows valid at or before it. */
  predicate ValidMatch(q: Timestamp, vt: Timestamp)
  {
    if IsDateOnly(q) then SameDate(vt, q) else AtOrBefore(vt, q)
  }

  /** Row j is visible and belongs to the group of valid start time vt. */
  predicate InGroup(rows: seq<Row>, k: Key, asOf: Timestamp, vt: Timestamp, j: nat)
  {
    j < |rows| && Visible(rows[j], k, asOf) && rows[j].validStartTime == vt
  }

  /** The row kept for one valid start time among rows[..n]: the first
      (earliest-inserted) of those with the largest transaction time. */
  function GroupWinner(rows: seq<Row>, k: Key, asOf: Timestamp, vt: Timestamp, n: nat): (w: Option<nat>)
    requires n <= |rows|
    ensures w.None? <==> forall j :: 0 <= j < n ==> !InGroup(rows, k, asOf, vt, j)
    ensures w.Some? ==> w.value < n && InGroup(rows, k, asOf, vt, w.value)
    ensures w.Some? ==> forall j :: 0 <= j < n && InGroup(rows, k, asOf, vt, j) ==>
              AtOrBefore(rows[j].transactionTime, rows[w.value].transactionTime)
    ensures w.Some? ==> forall j :: 0 <= j < w.value && InGroup(rows, k, asOf, vt, j) ==>
              Before(rows[j].transactionTime, rows[w.value].transactionTime)
  {
    if n == 0 then None
    else
      var w := GroupWinner(rows, k, asOf, vt, n - 1);
      if !InGroup(rows, k, asOf, vt, n - 1) then w
      else if w.None? || Before(rows[w.value].transactionTime, rows[n - 1].transactionTime) then Some(n - 1)
      else w
  }

  /** Row i is the one kept for its own valid start time. */
  predicate IsRepresentative(rows: seq<Row>, k: Key, asOf: Timestamp, i: nat)
  {
    i < |rows| && GroupWinner(rows, k, asOf, rows[i].validStartTime, |rows|) == Some(i)
  }

  /** The as-known-at-asOf snapshot among rows[..n], in table order: one row per
      distinct valid start time of the visible rows. */
  function Snapshot(rows: seq<Row>, k: Key, asOf: Timestamp, n: nat): (s: seq<nat>)
    requires n <= |rows|
    ensures forall p :: 0 <= p < |s| ==> s[p] < n
    ensures forall i: nat :: i in s <==> i < n && IsRepresentative(rows, k, asOf, i)
  {
    if n == 0 then []
    else Snapshot(rows, k, asOf, n - 1) + (if IsRepresentative(rows, k, asOf, n - 1) then [n - 1] else [])
  }

  /** The rows of s whose valid start time matches the request. */
  function MatchingValid(rows: seq<Row>, s: seq<nat>, q: Timestamp): (f: seq<nat>)
    requires forall p :: 0 <= p < |s| ==> s[p] < |rows|
    ensures forall p :: 0 <= p < |f| ==> f[p] < |rows|
    ensures forall i :: i in f <==> i in s && ValidMatch(q, rows[i].validStartTime)
  {
    if s == [] then []
    else (if ValidMatch(q, rows[s[0]].validStartTime) then [s[0]] else []) + MatchingValid(rows, s[1..], q)
  }

  /** The row of s with the greatest valid start time. */
  function LatestValid(rows: seq<Row>, s: seq<nat>): (i: nat)
    requires s != []
    requires forall p :: 0 <= p < |s| ==> s[p] < |rows|
    ensures i in s
    ensures forall j :: j in s ==> AtOrBefore(rows[j].validStartTime, rows[i].validStartTime)
  {
    if |s| == 1 then s[0]
    else
      var m := LatestValid(rows, s[1..]);
      AtOrBeforeIsTotalOrder(rows[s[0]].validStartTime, rows[m].validStartTime, rows[m].validStartTime);
      if AtOrBefore(rows[s[0]].validStartTime, rows[m].validStartTime) then m else s[0]
  }

  /** The row a point query reports, stated without the pipeline: a visible row
      of the key matching the requested valid time, with the greatest valid
      start time among those, and the kept version of its valid start time
      (largest transaction time, earliest-inserted among equals). */
  ghost predicate IsAnswer(rows: seq<Row>, k: Key, qValid: Timestamp, asOf: Timestamp, i: nat)
  {
    && i < |rows|
    && Visible(rows[i], k, asOf)
    && ValidMatch(qValid, rows[i].validStartTime)
    && (forall j :: 0 <= j < |rows| && Visible(rows[j], k, asOf) && ValidMatch(qValid, rows[j].validStartTime) ==>
          AtOrBefore(rows[j].validStartTime, rows[i].validStartTime))
    && (forall j :: 0 <= j < |rows| && InGroup(rows, k, asOf, rows[i].validStartTime, j) ==>
          AtOrBefore(rows[j].transactionTime, rows[i].transactionTime))
    && (forall j :: 0 <= j < i && InGroup(rows, k, asOf, rows[i].validStartTime, j) ==>
          Before(rows[j].transactionTime, rows[i].transactionTime))
  }

  ghost predicate HasKeyRow(rows: seq<Row>, k: Key)
  {
    exists j :: 0 <= j < |rows| && IsKey(rows[j], k)
  }

  ghost predicate HasVisibleRow(rows: seq<Row>, k: Key, asOf: Timestamp)
  {
    exists j :: 0 <= j < |rows| && Visible(rows[j], k, asOf)
  }

  ghost predicate HasMatchingRow(rows: seq<Row>, k: Key, qValid: Timestamp, asOf: Timestamp)
  {
    exists j :: 0 <= j < |rows| && Visible(rows[j], k, asOf) && ValidMatch(qValid, rows[j].validStartTime)
  }

  /** query_retrieve on the table `rows` with the concept dictionary `dict`. */
  function Retrieve(rows: seq<Row>, dict: map<string, string>, k: Key, qValid: Timestamp, qTrans: Timestamp): (r: Outcome)
    ensures r == DatabaseEmpty <==> rows == []
    ensures r == NoRecordsFound <==> rows != [] && !HasKeyRow(rows, k)
    ensures r == NoDataAtTransactionTime <==> HasKeyRow(rows, k) && !HasVisibleRow(rows, k, qTrans)
    ensures r == NoMatchingRecord <==>
              HasVisibleRow(rows, k, qTrans) && !HasMatchingRow(rows, k, qValid, qTrans)
    ensures r.RecordDeleted? ==>
              exists i :: 0 <= i < |rows| && IsAnswer(rows, k, qValid, qTrans, i) && rows[i].value == Tombstone
    ensures r.Found? ==>
              exists i :: 0 <= i < |rows| && IsAnswer(rows, k, qValid, qTrans, i) && rows[i].value != Tombstone
                && r == Found(rows[i].value, rows[i].validStartTime, Describe(dict, k.loinc))
  {
    if rows == [] then DatabaseEmpty
    else if !exists j :: 0 <= j < |rows| && IsKey(rows[j], k) then NoRecordsFound
    else if !exists j :: 0 <= j < |rows| && Visible(rows[j], k, qTrans) then NoDataAtTransactionTime
    else
      var finals := MatchingValid(rows, Snapshot(rows, k, qTrans, |rows|), qValid);
      CandidatesCoverMatches(rows, k, qValid, qTrans);
      if finals == [] then NoMatchingRecord
      else
        var i := LatestValid(rows, finals);
        LatestCandidateIsAnswer(rows, k, qValid, qTrans, i);
        if rows[i].value == Tombstone then RecordDeleted
        else Found(rows[i].value, rows[i].validStartTime, Describe(dict, k.loinc))
  }

  /** Every visible row has the kept version of its valid start time in the snapshot. */
  lemma RepresentativeOfVisible(rows: seq<Row>, k: Key, asOf: Timestamp, j: nat)
    requires j < |rows| && Visible(rows[j], k, asOf)
    ensures GroupWinner(rows, k, asOf, rows[j].validStartTime, |rows|).Some?
    ensures var w := GroupWinner(rows, k, asOf, rows[j].validStartTime, |rows|).value;
            IsRepresentative(rows, k, asOf, w) && rows[w].validStartTime == rows[j].validStartTime
  {
    assert InGroup(rows, k, asOf, rows[j].validStartTime, j);
  }

  /** The matching part of the snapshot is empty exactly when no visible row matches. */
  lemma CandidatesCoverMatches(rows: seq<Row>, k: Key, qValid: Timestamp, asOf: Timestamp)
    ensures MatchingValid(rows, Snapshot(rows, k, asOf, |rows|), qValid) == [] <==>
              !HasMatchingRow(rows, k, qValid, asOf)
  {
    var finals := MatchingValid(rows, Snapshot(rows, k, asOf, |rows|), qValid);
    if finals != [] {
      var w := finals[0];
      assert w in finals;
      assert InGroup(rows, k, asOf, rows[w].validStartTime, w);
    }
    if HasMatchingRow(rows, k, qValid, asOf) {
      var j :| 0 <= j < |rows| && Visible(rows[j], k, asOf) && ValidMatch(qValid, rows[j].validStartTime);
      RepresentativeOfVisible(rows, k, asOf, j);
      var w := GroupWinner(rows, k, asOf, rows[j].validStartTime, |rows|).value;
      assert w in finals;
    }
  }

  /** The row the pipeline picks satisfies the declarative description. */
  lemma LatestCandidateIsAnswer(rows: seq<Row>, k: Key, qValid: Timestamp, asOf: Timestamp, i: nat)
    requires MatchingValid(rows, Snapshot(rows, k, asOf, |rows|), qValid) != []
    requires i == LatestValid(rows, MatchingValid(rows, Snapshot(rows, k, asOf, |rows|), qValid))
    ensures IsAnswer(rows, k, qValid, asOf, i)
  {
    var finals := MatchingValid(rows, Snapshot(rows, k, asOf, |rows|), qValid);
    assert i in finals;
    forall j | 0 <= j < |rows| && Visible(rows[j], k, asOf) && ValidMatch(qValid, rows[j].validStartTime)
      ensures AtOrBefore(rows[j].validStartTime, rows[i].validStartTime)
    {
      RepresentativeOfVisible(rows, k, asOf, j);
      var w := GroupWinner(rows, k, asOf, rows[j].validStartTime, |rows|).value;
      assert w in finals;
    }
  }

  /** At most one row answers a query, so the outcome is determined by the table. */
  lemma {:induction false} AnswerIsUnique(rows: seq<Row>, k: Key, qValid: Timestamp, asOf: Timestamp, i: nat, j: nat)
    requires IsAnswer(rows, k, qValid, asOf, i) && IsAnswer(rows, k, qValid, asOf, j)
    ensures i == j
  {
    var vi, vj := rows[i].validStartTime, rows[j].validStartTime;
    assert AtOrBefore(vi, vj) && AtOrBefore(vj, vi);
    AtOrBeforeIsTotalOrder(vi, vj, vi);
    assert InGroup(rows, k, asOf, vi, j) && InGroup(rows, k, asOf, vi, i);
    var ti, tj := rows[i].transactionTime, rows[j].transactionTime;
    AtOrBeforeIsTotalOrder(ti, tj, ti);
  }

  /** The converse of Retrieve's contract: whenever a row answers the query,
      the outcome reports that row. */
  lemma RetrieveReportsAnswer(rows: seq<Row>, dict: map<string, string>, k: Key, qValid: Timestamp, qTrans: Timestamp, i: nat)
    requires IsAnswer(rows, k, qValid, qTrans, i)
    ensures rows[i].value == Tombstone ==> Retrieve(rows, dict, k, qValid, qTrans) == RecordDeleted
    ensures rows[i].value != Tombstone ==>
              Retrieve(rows, dict, k, qValid, qTrans) == Found(rows[i].value, rows[i].validStartTime, Describe(dict, k.loinc))
  {
    var r := Retrieve(rows, dict, k, qValid, qTrans);
    assert HasKeyRow(rows, k) && HasVisibleRow(rows, k, qTrans) && HasMatchingRow(rows, k, qValid, qTrans);
    assert r.RecordDeleted? || r.Found?;
    var i' :| 0 <= i' < |rows| && IsAnswer(rows, k, qValid, qTrans, i')
              && (r.RecordDeleted? ==> rows[i'].value == Tombstone)
              && (r.Found? ==>
                    rows[i'].value != Tombstone
                    && r == Found(rows[i'].value, rows[i'].validStartTime, Describe(dict, k.loinc)));
    AnswerIsUnique(rows, k, qValid, qTrans, i, i');
  }

  /** Whenever some visible row matches, some row answers the query. */
  lemma AnswerExists(rows: seq<Row>, k: Key, qValid: Timestamp, asOf: Timestamp)
    requires HasMatchingRow(rows, k, qValid, asOf)
    ensures exists i :: 0 <= i < |rows| && IsAnswer(rows, k, qValid, asOf, i)
  {
    CandidatesCoverMatches(rows, k, qValid, asOf);
    var finals := MatchingValid(rows, Snapshot(rows, k, asOf, |rows|), qValid);
    var i := LatestValid(rows, finals);
    LatestCandidateIsAnswer(rows, k, qValid, asOf, i);
  }
}
