/** The logical delete and update of the fact table: both locate a base row
    and append one new version of it; no existing row is ever changed. */
module Mutation {
  import opened Timestamps
  import opened Wrappers
  import opened Facts

  /** How delete and update locate the base row: a date-only argument matches
      rows of the same calendar date, a timed argument only rows whose valid
      start time equals it exactly. */
  predicate BaseMatch(target: Timestamp, vt: Timestamp)
  {
    if IsDateOnly(target) then SameDate(vt, target) else vt == target
  }

  /** A row of the key that may serve as base row (no transaction-time filter). */
  predicate IsBaseFor(r: Row, k: Key, target: Timestamp)
  {
    IsKey(r, k) && BaseMatch(target, r.validStartTime)
  }

  /** Row b is the first base row of the table. */
  ghost predicate IsFirstBase(rows: seq<Row>, k: Key, target: Timestamp, b: nat)
  {
    b < |rows| && IsBaseFor(rows[b], k, target)
    && forall j :: 0 <= j < b ==> !IsBaseFor(rows[j], k, target)
  }

  /** The first base row at or after position `from`. */
  function FindBase(rows: seq<Row>, k: Key, target: Timestamp, from: nat): (b: Option<nat>)
    requires from <= |rows|
    ensures b.Some? ==> from <= b.value < |rows| && IsBaseFor(rows[b.value], k, target)
    ensures b.Some? ==> forall j :: from <= j < b.value ==> !IsBaseFor(rows[j], k, target)
    ensures b.None? <==> forall j :: from <= j < |rows| ==> !IsBaseFor(rows[j], k, target)
    decreases |rows| - from
  {
    if from == |rows| then None
    else if IsBaseFor(rows[from], k, target) then Some(from)
    else FindBase(rows, k, target, from + 1)
  }

  /** The version appended for a base row: a copy of it whose transaction time,
      valid start time and value are replaced. */
  function NewVersion(base: Row, target: Timestamp, value: string, tt: Timestamp): Row
  {
    base.(transactionTime := tt, validStartTime := target, value := value)
  }

  /** The table after a logical write of `value` (the tombstone for a delete,
      the new value for an update) at valid time `target`, recorded at `tt`. */
  function LogicalWrite(rows: seq<Row>, k: Key, target: Timestamp, value: string, tt: Timestamp): (r: seq<Row>)
    ensures |rows| <= |r| <= |rows| + 1 && r[..|rows|] == rows
    ensures |r| == |rows| + 1 <==> exists j :: 0 <= j < |rows| && IsBaseFor(rows[j], k, target)
    ensures |r| == |rows| + 1 ==>
              && IsKey(r[|rows|], k)
              && r[|rows|].transactionTime == tt
              && r[|rows|].validStartTime == target
              && r[|rows|].value == value
    ensures |r| == |rows| + 1 ==>
              exists b :: 0 <= b < |rows| && IsFirstBase(rows, k, target, b)
                && r[|rows|] == NewVersion(rows[b], target, value, tt)
  {
    match FindBase(rows, k, target, 0)
    case None => rows
    case Some(b) =>
      assert IsFirstBase(rows, k, target, b);
      rows + [NewVersion(rows[b], target, value, tt)]
  }

  /** A write that finds no base row leaves the table as it was. */
  lemma {:induction false} WriteWithoutBaseIsNoOp(rows: seq<Row>, k: Key, target: Timestamp, value: string, tt: Timestamp)
    requires forall j :: 0 <= j < |rows| ==> !IsBaseFor(rows[j], k, target)
    ensures LogicalWrite(rows, k, target, value, tt) == rows
  {
    var r := LogicalWrite(rows, k, target, value, tt);
    assert |r| == |rows|;
    assert r == r[..|rows|];
  }

  /** Two writes in a row only ever add versions: the first table is a prefix
      of the table after both, which has at most two more rows. */
  lemma {:induction false} WritesAreAppendOnly(rows: seq<Row>, k1: Key, t1: Timestamp, v1: string, tt1: Timestamp,
                                                k2: Key, t2: Timestamp, v2: string, tt2: Timestamp)
    ensures var r := LogicalWrite(LogicalWrite(rows, k1, t1, v1, tt1), k2, t2, v2, tt2);
            |rows| <= |r| <= |rows| + 2 && r[..|rows|] == rows
  {
    var r1 := LogicalWrite(rows, k1, t1, v1, tt1);
    var r2 := LogicalWrite(r1, k2, t2, v2, tt2);
    assert r2[..|r1|] == r1;
    assert r2[..|rows|] == r2[..|r1|][..|rows|];
  }
}
