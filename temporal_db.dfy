/** The TemporalDB object: a fact table that only ever grows, the concept
    dictionary, the point query over them, and the logical delete and update
    that append to the table. */
module TemporalDatabase {
  import opened Timestamps
  import opened Concepts
  import opened Wrappers
  import opened Facts
  import opened PointQuery
  import opened Mutation

  class TemporalDB {
    var db: seq<Row>
    var loincDictionary: map<string, string>

    constructor ()
      ensures db == [] && loincDictionary == DefaultDictionary()
    {
      db := [];
      loincDictionary := DefaultDictionary();
    }

    /** The assignment that ends a successful load: the normalised table
        replaces the current one. Reading and parsing the file are not modelled;
        the parsed table is the argument. */
    method LoadData(table: seq<Row>)
      modifies this
      ensures db == table && loincDictionary == old(loincDictionary)
    {
      db := table;
    }

    function GetLoincDesc(code: string): string
      reads this
    {
      Describe(loincDictionary, code)
    }

    /** query_retrieve reads the table and the dictionary and changes neither. */
    function QueryRetrieve(firstName: string, lastName: string, loinc: string,
                           queryValidTime: Timestamp, queryTransactionTime: Timestamp): Outcome
      reads this
    {
      Retrieve(db, loincDictionary, Key(firstName, lastName, loinc), queryValidTime, queryTransactionTime)
    }

    /** Logical delete: append a tombstone version of the first base row, or
        report that there is none and leave the table alone. */
    method OperationDelete(firstName: string, lastName: string, loinc: string,
                           validTimeToDelete: Timestamp, deleteTransactionTime: Timestamp)
      returns (deleted: bool)
      modifies this
      ensures deleted <==> exists j :: 0 <= j < |old(db)|
                             && IsBaseFor(old(db)[j], Key(firstName, lastName, loinc), validTimeToDelete)
      ensures db == LogicalWrite(old(db), Key(firstName, lastName, loinc), validTimeToDelete, Tombstone, deleteTransactionTime)
      ensures loincDictionary == old(loincDictionary)
    {
      var base := FindBase(db, Key(firstName, lastName, loinc), validTimeToDelete, 0);
      if base.None? {
        return false;
      }
      db := db + [NewVersion(db[base.value], validTimeToDelete, Tombstone, deleteTransactionTime)];
      deleted := true;
    }

    /** Logical update: append a version of the first base row carrying the new
        value, or report that there is none and leave the table alone. */
    method OperationUpdate(firstName: string, lastName: string, loinc: string,
                           oldValidTime: Timestamp, newValue: string, updateTransactionTime: Timestamp)
      returns (updated: bool)
      modifies this
      ensures updated <==> exists j :: 0 <= j < |old(db)|
                             && IsBaseFor(old(db)[j], Key(firstName, lastName, loinc), oldValidTime)
      ensures db == LogicalWrite(old(db), Key(firstName, lastName, loinc), oldValidTime, newValue, updateTransactionTime)
      ensures loincDictionary == old(loincDictionary)
    {
      var base := FindBase(db, Key(firstName, lastName, loinc), oldValidTime, 0);
      if base.None? {
        return false;
      }
      db := db + [NewVersion(db[base.value], oldValidTime, newValue, updateTransactionTime)];
      updated := true;
    }
  }
}
