/** The fixed texts the point query returns for its non-value outcomes. The
    class exists in two editions with the same logic: the library edition that
    the interactive menu imports, and the standalone script edition, which
    words three of the failures differently. */
module Messages {
  import opened PointQuery

  datatype Edition = LibraryEdition | ScriptEdition

  function FailureMessage(e: Edition, o: Outcome): string
    requires !o.Found?
  {
    match o
    case DatabaseEmpty => "Database is empty."
    case NoRecordsFound =>
      if e == LibraryEdition then "No records found." else "No records found for this patient/LOINC."
    case NoDataAtTransactionTime =>
      if e == LibraryEdition then "No data at that Transaction Time." else "No data existed at that Transaction Time."
    case NoMatchingRecord =>
      if e == LibraryEdition then "No matching record found." else "No test found matching valid time criteria."
    case RecordDeleted => "Record was deleted."
  }

  /** In either edition, different outcomes are reported with different texts. */
  lemma FailureMessagesAreDistinct(e: Edition, o1: Outcome, o2: Outcome)
    requires !o1.Found? && !o2.Found? && o1 != o2
    ensures FailureMessage(e, o1) != FailureMessage(e, o2)
  {
  }
}
