/** Worked examples on a one-patient table. Days are numbered so that day 10 is
    2024-01-10; all times carry zero seconds. */
module Scenarios {
  import opened Timestamps
  import opened Concepts
  import opened Wrappers
  import opened Facts
  import opened PointQuery
  import opened Mutation
  import opened Properties

  function At(day: int, hour: int, minute: int): Timestamp
  {
    Timestamp(day, hour, minute, 0)
  }

  function John(): Key
  {
    Key("John", "Doe", "11218-5")
  }

  /** Value 5 of concept 11218-5, valid on 2024-01-10 (date only), recorded
      2024-01-10 09:00. */
  function Measurement(): Row
  {
    Row("John", "Doe", "11218-5", "5", At(10, 9, 0), At(10, 0, 0), None)
  }

  const Description: string := "Anatomic pathology & Lab medicine"

  /** The table after deleting the 2024-01-10 value, recorded on 2024-01-12. */
  function AfterDelete(): seq<Row>
  {
    LogicalWrite([Measurement()], John(), At(10, 0, 0), Tombstone, At(12, 0, 0))
  }

  /** The table after then updating the same valid time to 7 on 2024-01-14. */
  function AfterUpdate(): seq<Row>
  {
    LogicalWrite(AfterDelete(), John(), At(10, 0, 0), "7", At(14, 0, 0))
  }

  lemma MeasurementIsFound()
    ensures Retrieve([Measurement()], DefaultDictionary(), John(), At(10, 0, 0), At(11, 0, 0))
         == Found("5", At(10, 0, 0), Description)
  {
    assert IsAnswer([Measurement()], John(), At(10, 0, 0), At(11, 0, 0), 0);
    RetrieveReportsAnswer([Measurement()], DefaultDictionary(), John(), At(10, 0, 0), At(11, 0, 0), 0);
    DefaultDescriptions("11218-5");
  }

  /** A query that spells the patient's names in other letter case finds the
      same measurement. */
  lemma QueryIgnoresNameCase()
    ensures Retrieve([Measurement()], DefaultDictionary(), Key("JOHN", "doe", "11218-5"), At(10, 0, 0), At(11, 0, 0))
         == Found("5", At(10, 0, 0), Description)
  {
    var k := Key("JOHN", "doe", "11218-5");
    assert SameUpToCase("John", "JOHN") && SameUpToCase("Doe", "doe");
    LowerIgnoresCase("John", "JOHN");
    LowerIgnoresCase("Doe", "doe");
    assert IsAnswer([Measurement()], k, At(10, 0, 0), At(11, 0, 0), 0);
    RetrieveReportsAnswer([Measurement()], DefaultDictionary(), k, At(10, 0, 0), At(11, 0, 0), 0);
    DefaultDescriptions("11218-5");
  }

  /** The delete is seen from 2024-01-13 but not from 2024-01-11, before it was
      recorded. */
  lemma DeleteIsSeenOnlyAfterItWasRecorded()
    ensures |AfterDelete()| == 2
    ensures Retrieve(AfterDelete(), DefaultDictionary(), John(), At(10, 0, 0), At(13, 0, 0)) == RecordDeleted
    ensures Retrieve(AfterDelete(), DefaultDictionary(), John(), At(10, 0, 0), At(11, 0, 0))
         == Found("5", At(10, 0, 0), Description)
  {
    assert IsBaseFor([Measurement()][0], John(), At(10, 0, 0));
    LatestWriteWins([Measurement()], DefaultDictionary(), John(), At(10, 0, 0), Tombstone, At(12, 0, 0),
                    At(10, 0, 0), At(13, 0, 0));
    LaterWriteIsInvisible([Measurement()], DefaultDictionary(), John(), At(10, 0, 0), Tombstone, At(12, 0, 0),
                          At(10, 0, 0), At(11, 0, 0));
    MeasurementIsFound();
  }

  /** A later update of the deleted valid time supersedes the tombstone. */
  lemma UpdateSupersedesDelete()
    ensures |AfterUpdate()| == 3
    ensures Retrieve(AfterUpdate(), DefaultDictionary(), John(), At(10, 0, 0), At(15, 0, 0))
         == Found("7", At(10, 0, 0), Description)
  {
    var t1 := AfterDelete();
    assert IsBaseFor(Measurement(), John(), At(10, 0, 0));
    assert |t1| == 2 && t1[0] == Measurement();
    assert IsBaseFor(t1[0], John(), At(10, 0, 0));
    LatestWriteWins(t1, DefaultDictionary(), John(), At(10, 0, 0), "7", At(14, 0, 0), At(10, 0, 0), At(15, 0, 0));
    DefaultDescriptions("11218-5");
  }

  /** A delete for a valid time with no version at all is refused and leaves
      the table as it was. */
  lemma DeleteWithoutBaseChangesNothing()
    ensures LogicalWrite([Measurement()], John(), At(20, 14, 30), Tombstone, At(21, 0, 0)) == [Measurement()]
  {
    assert !IsBaseFor(Measurement(), John(), At(20, 14, 30));
    WriteWithoutBaseIsNoOp([Measurement()], John(), At(20, 14, 30), Tombstone, At(21, 0, 0));
  }

  /** The measurement was taken at 08:30. A date-only delete of 2024-01-10 finds
      it, but its tombstone is valid from midnight, an earlier valid time; a
      later date-only query of that day still reports the 08:30 value. */
  lemma MidnightTombstoneDoesNotHideMorningValue()
    ensures var morning := Measurement().(validStartTime := At(10, 8, 30));
            var table := LogicalWrite([morning], John(), At(10, 0, 0), Tombstone, At(12, 0, 0));
            && |table| == 2
            && Retrieve(table, DefaultDictionary(), John(), At(10, 0, 0), At(13, 0, 0))
               == Found("5", At(10, 8, 30), Description)
  {
    var morning := Measurement().(validStartTime := At(10, 8, 30));
    var table := LogicalWrite([morning], John(), At(10, 0, 0), Tombstone, At(12, 0, 0));
    assert IsBaseFor(morning, John(), At(10, 0, 0));
    assert table == [morning] + [table[1]];
    assert IsAnswer([morning], John(), At(10, 0, 0), At(13, 0, 0), 0);
    EarlierValidTimeDoesNotShadow([morning], DefaultDictionary(), table[1], John(), At(10, 0, 0), At(13, 0, 0), 0);
    RetrieveReportsAnswer([morning], DefaultDictionary(), John(), At(10, 0, 0), At(13, 0, 0), 0);
    DefaultDescriptions("11218-5");
  }
}
