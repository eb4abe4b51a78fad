# Bitemporal clinical fact table

A model of the `TemporalDB` class of a small bitemporal database of clinical
measurements. Each row of the fact table records that a patient (first and
last name) had a measurement of a LOINC concept with some value. Two times go
with it: the valid start time, when the measurement was true in the world, and
the transaction time, when the database learned of it. The table only grows.
A delete or an update never changes a row. It appends a new version that takes
its key from an existing row of the same measurement, with the new value (the
`DELETED` marker for a delete) and the time of the change as transaction time.

The point query answers "what value did patient P have for concept C at valid
time V, as the database knew it at transaction time T". The model follows the
code step by step:

1. Report an empty table.
2. Report a patient/concept with no rows. Names match case-insensitively; the
   code matches exactly.
3. Report when no such row had been recorded by T.
4. For each valid start time, keep the version with the greatest transaction
   time. On a tie, keep the first such row in table order.
5. Keep the versions that match V. When V has hour and minute zero, it is read
   as a date and matches versions of the same calendar day. Otherwise it
   matches versions valid at or before V.
6. Report the latest of those versions. If it is the `DELETED` marker, report
   the deletion; otherwise report the value, its valid time and the concept's
   description.

The class exists in two editions with the same logic: `temporal_db.py`, which
the interactive menu imports, and the standalone script `AI_Project.py`. They
differ only in three failure messages (`Messages`) and in what they print.

Layout:

- `timestamps.dfy`: points in time and their order.
- `concepts.dfy`: the LOINC dictionary and its lookup.
- `facts.dfy`: rows, keys and the patient/concept filter.
- `point_query.dfy`: the query pipeline `Retrieve`. A declarative
  characterisation of the answer row (`IsAnswer`) is proved equal to it, and
  the answer is proved unique.
- `mutation.dfy`: the shared logic of delete and update (`FindBase`,
  `LogicalWrite`).
- `properties.dfy`: how writes and appends change what a query sees.
- `temporal_db.dfy`: the `TemporalDB` class, with the table and the dictionary
  as fields. Its delete and update methods append in place and are proved
  against `LogicalWrite`.
- `headers.dfy`: the column-alias loop of the load operation, as a method
  proved against a specification function.
- `messages.dfy`: the failure texts of both editions.
- `scenarios.dfy`: worked examples on a one-patient table.

## Model

| member | source | states |
|---|---|---|
| Concepts.Describe | temporal_db.py:64-65 | the description is the dictionary's entry for the code when present, otherwise the fixed text "Unknown Concept" |
| Concepts.DefaultDescriptions | temporal_db.py:9-13 | with the starting dictionary, the fallback text is returned exactly for codes other than the three known ones, and 11218-5 is described as "Anatomic pathology & Lab medicine" |
| Facts.Lower | temporal_db.py:74-75 | lower-casing keeps the length, leaves no upper-case ASCII letter, turns each upper-case letter into its lower-case partner and keeps every other character |
| Facts.LowerIgnoresCase | temporal_db.py:74-75 | two names lower-case to the same text exactly when they differ only in the case of letters |
| Facts.LowerIsIdempotent | temporal_db.py:74-75 | lower-casing an already lower-cased name changes nothing |
| Facts.KeyIgnoresCase | temporal_db.py:109-111 | requested names that differ from the key's only in letter case select exactly the same rows |
| PointQuery.GroupWinner | temporal_db.py:87 | among the visible rows with a given valid start time, the chosen one has the greatest transaction time, and every earlier row of that group has a strictly smaller one (the first maximum); none is chosen exactly when the group is empty |
| PointQuery.Snapshot | temporal_db.py:87-88 | the snapshot holds exactly the rows that are their valid start time's chosen version |
| PointQuery.RepresentativeOfVisible | AI_Project.py:105-106 | every valid start time of a visible row has a chosen version in the snapshot, with that valid start time and a transaction time at least as late |
| PointQuery.MatchingValid | temporal_db.py:91-94 | exactly the snapshot rows whose valid start time matches the requested time are kept: same calendar day for a date-only request, at or before it otherwise |
| PointQuery.LatestValid | temporal_db.py:98 | the chosen row is one of the candidates, and its valid start time is at least every candidate's |
| PointQuery.CandidatesCoverMatches | AI_Project.py:108-117 | no candidate survives exactly when no visible row of the key matches the requested valid time |
| PointQuery.LatestCandidateIsAnswer | AI_Project.py:119-120 | the row the query picks satisfies the declarative answer: visible, latest version for its valid time, matching, and latest among matching versions |
| PointQuery.AnswerIsUnique | AI_Project.py:102-120 | at most one row satisfies the declarative answer, so the outcome is determined by the table and the request |
| PointQuery.AnswerExists | AI_Project.py:108-117 | when some visible row of the key matches the requested valid time, an answer row exists |
| PointQuery.Retrieve | temporal_db.py:67-104 | each failure outcome is reported exactly when its condition holds (empty table; no row of the key; none recorded by the transaction time; none matching the valid time); a deletion or a value is reported only for an answer row, with the value, valid time and concept description of that row |
| PointQuery.RetrieveReportsAnswer | temporal_db.py:98-104 | whenever a row is the answer, the query reports it: a deletion if it holds the marker, otherwise its value, valid time and description |
| Mutation.FindBase | temporal_db.py:109-123 | returns the first row of the key whose valid start time matches the requested time (same calendar day for a date-only time, equal otherwise), and nothing exactly when there is no such row |
| Mutation.LogicalWrite | temporal_db.py:123-128 | the old rows are kept unchanged as a prefix, and at most one row is appended, exactly when a base row exists; that row copies the first base row with the new transaction time, the requested valid time and the new value |
| Mutation.WriteWithoutBaseIsNoOp | temporal_db.py:119-121 | a delete or update with no base row leaves the table unchanged |
| Mutation.WritesAreAppendOnly | AI_Project.py:166 | two successive writes keep the original table as a prefix and add at most two rows |
| Properties.InvisibleAppendKeepsAnswers | temporal_db.py:83 | appending a row that is outside the key or recorded after the perspective time does not change which row is the answer |
| Properties.RetrieveIgnoresInvisibleAppend | temporal_db.py:74-84 | when the key already has rows, appending a row that the query cannot see leaves its outcome unchanged |
| Properties.LaterWriteIsInvisible | AI_Project.py:95-97 | a query from a transaction time before a delete or update was recorded returns what it returned before that write |
| Properties.AppendedRowIsAnswer | temporal_db.py:87-98 | an appended visible row that is later than its group's other versions and valid at least as late as every matching row becomes the answer |
| Properties.LatestWriteWins | temporal_db.py:123-128 | after a successful write that is newer than all versions of its valid time and valid no earlier than any matching row, a later query reports the deletion for a delete and the new value with its valid time for an update |
| Properties.TimedDeleteShadows | temporal_db.py:117-128 | deleting a measurement at an exact (not date-only) time makes a later query for that time report the deletion |
| Properties.EarlierValidTimeDoesNotShadow | temporal_db.py:91-98 | a row valid earlier than the current answer does not change the outcome, so a date-only tombstone stamped at midnight does not hide a value measured later that day |
| TemporalDatabase.TemporalDB.constructor | temporal_db.py:7-13 | a new database has an empty table and the three-entry concept dictionary |
| TemporalDatabase.TemporalDB.LoadData | temporal_db.py:58 | a successful load replaces the table and keeps the dictionary |
| TemporalDatabase.TemporalDB.OperationDelete | temporal_db.py:106-129 | reports success exactly when a base row exists; the new table is the logical write of the `DELETED` marker; the dictionary is unchanged |
| TemporalDatabase.TemporalDB.OperationUpdate | temporal_db.py:131-154 | reports success exactly when a base row exists; the new table is the logical write of the new value; the dictionary is unchanged |
| Headers.FirstPresent | temporal_db.py:46-49 | returns the earliest-listed spelling present in the header row, and nothing exactly when none is present |
| Headers.MapColumns | temporal_db.py:44-49 | the nested alias loop computes the mapping that takes each canonical column's first present spelling to that column |
| Headers.MappedFromFirstAlias | AI_Project.py:50-55 | every mapping entry takes some canonical column's earliest-listed present spelling to that column |
| Headers.AtMostOneSourcePerTarget | AI_Project.py:51-55 | when canonical columns are distinct, no two source columns are renamed to the same canonical column |
| Headers.PresentTargetIsMapped | temporal_db.py:44-49 | when spelling lists are disjoint, every canonical column with a present spelling gets its earliest-listed one |
| Headers.RenamedHeaderHasTarget | temporal_db.py:51 | after renaming, every canonical column with a present spelling appears in the header row |
| Headers.MappingOptionsWellFormed | temporal_db.py:34-42 | the seven canonical columns are distinct and their spelling lists pairwise disjoint |
| Messages.FailureMessagesAreDistinct | AI_Project.py:83-124 | in either edition, different failure outcomes are reported with different texts |
| Scenarios.MeasurementIsFound | temporal_db.py:91-104 | a date-only query for the day of a recorded measurement returns its value, valid time and description |
| Scenarios.QueryIgnoresNameCase | temporal_db.py:74-78 | a query for "JOHN"/"doe" finds the measurement recorded for "John"/"Doe" |
| Scenarios.DeleteIsSeenOnlyAfterItWasRecorded | temporal_db.py:83-101 | after a delete, a query from a later transaction time reports the deletion, and one from before the delete still reports the value |
| Scenarios.UpdateSupersedesDelete | temporal_db.py:131-154 | an update recorded after a delete of the same valid time is what a later query reports |
| Scenarios.DeleteWithoutBaseChangesNothing | temporal_db.py:114-121 | a delete for a time with no recorded measurement leaves the table unchanged |
| Scenarios.MidnightTombstoneDoesNotHideMorningValue | temporal_db.py:114-125 | a date-only delete of a measurement taken at 08:30 appends a tombstone valid from midnight, and a date-only query of that day still reports the 08:30 value |

## Left out

- Reading the file (existence check, Excel/CSV choice, encoding fallback, exception reporting) is I/O. `LoadData` takes the parsed table as its argument.
- The clean-up of header names (trimming whitespace, removing quotes) is not modelled. `MapColumns` takes the cleaned header row.
- Parsing of time columns is not modelled: day-first dates, unparseable cells becoming NaT, and pandas dropping NaT keys in a group-by. Rows carry well-formed timestamps.
- Times have one-second resolution; sub-second precision is not modelled.
- The "now" default for a missing transaction time reads the clock. The transaction time is always an explicit parameter.
- Printed progress and error messages are not modelled. The query's result string becomes the `Outcome` datatype; only its failure texts are modelled, in `Messages`.
- Facts.Lower: lower-cases ASCII letters only. Python's Unicode lower-casing of other letters is not modelled.
- Cell values are modelled as their text rendering, the form in which the tombstone test compares them. Numeric and textual cells with the same text are not distinguished.
- Columns other than the seven canonical ones are not carried in a row. The valid stop time is carried but never consulted, as in the code.
- TemporalDatabase.TemporalDB.OperationDelete and TemporalDatabase.TemporalDB.OperationUpdate: on a database that was never loaded, the code fails with a missing-column error. The model reports "no base row" and leaves the table unchanged.
- The query returns a plain deletion message without the deleted measurement's valid time. The model follows the code.
- The code has no history or range query, so none is modelled.
- `GetLoincDesc` and `QueryRetrieve` on the class only read the fields and call `Describe` and `Retrieve`, whose contracts carry the properties.
- The interactive menu in `main.py` is user I/O and is not part of this model.
