/** One row of the fact table and the patient/code filter that every
    operation of the table starts with. */
module Facts {
  import opened Timestamps
  import opened Wrappers

  /** The value the logical delete writes; a row holding it is a tombstone. */
  const Tombstone: string := "DELETED"

  /** A row of the table. `value` is the cell's text rendering (the table
      compares `str(value)` with the tombstone marker); `validStopTime` is the
      optional stop-time column, carried along when a row is copied. */
  datatype Row = Row(
    firstName: string,
    lastName: string,
    loinc: string,
    value: string,
    transactionTime: Timestamp,
    validStartTime: Timestamp,
    validStopTime: Option<Timestamp>)

  /** What a query or a mutation asks for: a patient and a LOINC code. */
  datatype Key = Key(firstName: string, lastName: string, loinc: string)

  function LowerChar(c: char): (l: char)
  {
    if 'A' <= c <= 'Z' then (c as int + 32) as char else c
  }

  /** Lower-casing of names (ASCII letters only): no upper-case letter is
      left, an upper-case letter becomes its lower-case partner, and every
      other character is kept. */
  function Lower(s: string): (l: string)
    ensures |l| == |s|
    ensures forall i :: 0 <= i < |l| ==> !('A' <= l[i] <= 'Z')
    ensures forall i :: 0 <= i < |s| && 'A' <= s[i] <= 'Z' ==> l[i] as int == s[i] as int + 32
    ensures forall i :: 0 <= i < |s| && !('A' <= s[i] <= 'Z') ==> l[i] == s[i]
  {
    seq(|s|, i requires 0 <= i < |s| => LowerChar(s[i]))
  }

  /** The two strings differ at most in the case of ASCII letters. */
  predicate SameUpToCase(a: string, b: string)
  {
    && |a| == |b|
    && forall i :: 0 <= i < |a| ==>
         || a[i] == b[i]
         || ('A' <= a[i] <= 'Z' && b[i] as int == a[i] as int + 32)
         || ('A' <= b[i] <= 'Z' && a[i] as int == b[i] as int + 32)
  }

  /** Two names lower-case to the same text exactly when they differ only in
      the case of letters. */
  lemma {:induction false} LowerIgnoresCase(a: string, b: string)
    ensures Lower(a) == Lower(b) <==> SameUpToCase(a, b)
  {
    if SameUpToCase(a, b) {
      forall i | 0 <= i < |a|
        ensures Lower(a)[i] == Lower(b)[i]
      {
      }
    }
    if Lower(a) == Lower(b) {
      forall i | 0 <= i < |a|
        ensures || a[i] == b[i]
                || ('A' <= a[i] <= 'Z' && b[i] as int == a[i] as int + 32)
                || ('A' <= b[i] <= 'Z' && a[i] as int == b[i] as int + 32)
      {
        assert Lower(a)[i] == Lower(b)[i];
      }
    }
  }

  /** Lower-casing a lower-cased name changes nothing. */
  lemma LowerIsIdempotent(s: string)
    ensures Lower(Lower(s)) == Lower(s)
  {
    var l := Lower(s);
    assert forall i :: 0 <= i < |l| ==> Lower(l)[i] == l[i];
  }

  /** Names match case-insensitively, the code matches exactly. */
  predicate IsKey(r: Row, k: Key)
  {
    && Lower(r.firstName) == Lower(k.firstName)
    && Lower(r.lastName) == Lower(k.lastName)
    && r.loinc == k.loinc
  }

  /** A row of the key that had been recorded by the perspective time. */
  predicate Visible(r: Row, k: Key, asOf: Timestamp)
  {
    IsKey(r, k) && AtOrBefore(r.transactionTime, asOf)
  }

  /** Name matching ignores the case of ASCII letters: requested names that
      differ from the key's only in letter case select the same rows. */
  lemma KeyIgnoresCase(r: Row, k: Key, first: string, last: string)
    requires SameUpToCase(first, k.firstName) && SameUpToCase(last, k.lastName)
    ensures IsKey(r, k) <==> IsKey(r, Key(first, last, k.loinc))
  {
    LowerIgnoresCase(first, k.firstName);
    LowerIgnoresCase(last, k.lastName);
  }
}
