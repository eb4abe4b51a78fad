/** Header normalisation of a loaded table: each canonical column is given the
    first of its accepted spellings that the file's header row contains, and the
    table's columns are then renamed accordingly. */
module Headers {
  import opened Wrappers

  /** The canonical columns, in order, each with its accepted spellings in
      order of preference. */
  function MappingOptions(): seq<(string, seq<string>)>
  {
    [
      ("FirstName", ["First name", "Firstname", "Name", "First"]),
      ("LastName", ["Last name", "Lastname", "Family Name", "Last"]),
      ("LOINC", ["LOINC", "LOINC-NUM", "LOINC CODE", "Code"]),
      ("Value", ["Value", "Result"]),
      ("TransactionTime", ["Transaction time", "TransactionTime", "TT"]),
      ("ValidStartTime", ["Valid start time", "ValidStartTime", "Time"]),
      ("ValidStopTime", ["Valid stop time", "ValidStopTime"])
    ]
  }

  /** The earliest-listed alias present among the columns, if any. */
  function FirstPresent(aliases: seq<string>, columns: seq<string>): (o: Option<string>)
    ensures o.None? <==> forall p :: 0 <= p < |aliases| ==> aliases[p] !in columns
    ensures o.Some? ==> exists p :: 0 <= p < |aliases| && aliases[p] == o.value && o.value in columns
                          && forall q :: 0 <= q < p ==> aliases[q] !in columns
  {
    if aliases == [] then None
    else if aliases[0] in columns then Some(aliases[0])
    else
      var o := FirstPresent(aliases[1..], columns);
      assert forall p :: 1 <= p < |aliases| ==> aliases[p] == aliases[1..][p - 1];
      o
  }

  /** The mapping from source header to canonical column that the options
      produce, handling the canonical columns in order. */
  function SpecMapping(columns: seq<string>, options: seq<(string, seq<string>)>): map<string, string>
  {
    if options == [] then map[]
    else
      var m := SpecMapping(columns, options[..|options| - 1]);
      match FirstPresent(options[|options| - 1].1, columns)
      case None => m
      case Some(o) => m[o := options[|options| - 1].0]
  }

  /** The loop that fills the mapping: for each canonical column, scan its
      spellings and take the first one present. */
  method MapColumns(columns: seq<string>, options: seq<(string, seq<string>)>) returns (mapping: map<string, string>)
    ensures mapping == SpecMapping(columns, options)
  {
    mapping := map[];
    var t := 0;
    while t < |options|
      invariant 0 <= t <= |options|
      invariant mapping == SpecMapping(columns, options[..t])
    {
      var target := options[t].0;
      var aliases := options[t].1;
      assert options[..t + 1][..t] == options[..t];
      var a := 0;
      while a < |aliases|
        invariant 0 <= a <= |aliases|
        invariant FirstPresent(aliases[a..], columns) == FirstPresent(aliases, columns)
        invariant mapping == SpecMapping(columns, options[..t])
      {
        if aliases[a] in columns {
          mapping := mapping[aliases[a] := target];
          break;
        }
        assert aliases[a..][1..] == aliases[a + 1..];
        a := a + 1;
      }
      t := t + 1;
    }
    assert options[..t] == options;
  }

  /** The table's header row after renaming. */
  function Rename(columns: seq<string>, mapping: map<string, string>): seq<string>
  {
    seq(|columns|, i requires 0 <= i < |columns| =>
      if columns[i] in mapping then mapping[columns[i]] else columns[i])
  }

  ghost predicate DistinctTargets(options: seq<(string, seq<string>)>)
  {
    forall t1, t2 :: 0 <= t1 < t2 < |options| ==> options[t1].0 != options[t2].0
  }

  ghost predicate DisjointAliases(options: seq<(string, seq<string>)>)
  {
    forall t1, t2, a :: 0 <= t1 < |options| && 0 <= t2 < |options| && t1 != t2 && a in options[t1].1
      ==> a !in options[t2].1
  }

  /** Every entry of the mapping takes the earliest-listed present spelling of
      some canonical column to that column. */
  lemma {:induction false} MappedFromFirstAlias(columns: seq<string>, options: seq<(string, seq<string>)>, o: string)
    requires o in SpecMapping(columns, options)
    ensures exists t :: 0 <= t < |options| && options[t].0 == SpecMapping(columns, options)[o]
                          && FirstPresent(options[t].1, columns) == Some(o)
  {
    var n := |options| - 1;
    var prefix := options[..n];
    var m := SpecMapping(columns, prefix);
    if FirstPresent(options[n].1, columns) == Some(o) {
      assert options[n].0 == SpecMapping(columns, options)[o];
    } else {
      assert o in m && SpecMapping(columns, options)[o] == m[o];
      MappedFromFirstAlias(columns, prefix, o);
      var t :| 0 <= t < |prefix| && prefix[t].0 == m[o] && FirstPresent(prefix[t].1, columns) == Some(o);
      assert options[t] == prefix[t];
    }
  }

  /** Each canonical column receives at most one source column. */
  lemma AtMostOneSourcePerTarget(columns: seq<string>, options: seq<(string, seq<string>)>, o1: string, o2: string)
    requires DistinctTargets(options)
    requires o1 in SpecMapping(columns, options) && o2 in SpecMapping(columns, options)
    requires SpecMapping(columns, options)[o1] == SpecMapping(columns, options)[o2]
    ensures o1 == o2
  {
    MappedFromFirstAlias(columns, options, o1);
    MappedFromFirstAlias(columns, options, o2);
    var m := SpecMapping(columns, options);
    var t1 :| 0 <= t1 < |options| && options[t1].0 == m[o1] && FirstPresent(options[t1].1, columns) == Some(o1);
    var t2 :| 0 <= t2 < |options| && options[t2].0 == m[o2] && FirstPresent(options[t2].1, columns) == Some(o2);
    assert t1 == t2;
  }

  /** With disjoint spelling lists, every canonical column with a present
      spelling receives its earliest-listed one. */
  lemma {:induction false} PresentTargetIsMapped(columns: seq<string>, options: seq<(string, seq<string>)>, t: nat, o: string)
    requires DisjointAliases(options)
    requires t < |options| && FirstPresent(options[t].1, columns) == Some(o)
    ensures o in SpecMapping(columns, options) && SpecMapping(columns, options)[o] == options[t].0
  {
    var n := |options| - 1;
    var prefix := options[..n];
    if t < n {
      assert DisjointAliases(prefix) by {
        forall t1, t2, a | 0 <= t1 < |prefix| && 0 <= t2 < |prefix| && t1 != t2 && a in prefix[t1].1
          ensures a !in prefix[t2].1
        {
          assert prefix[t1] == options[t1] && prefix[t2] == options[t2];
        }
      }
      assert prefix[t] == options[t];
      PresentTargetIsMapped(columns, prefix, t, o);
      assert o in options[t].1;
      match FirstPresent(options[n].1, columns)
      case None =>
      case Some(o') =>
        assert o' in options[n].1;
        assert o' != o;
    }
  }

  /** After renaming, every canonical column with a present spelling appears
      in the header row. */
  lemma RenamedHeaderHasTarget(columns: seq<string>, options: seq<(string, seq<string>)>, t: nat)
    requires DisjointAliases(options)
    requires t < |options| && FirstPresent(options[t].1, columns).Some?
    ensures options[t].0 in Rename(columns, SpecMapping(columns, options))
  {
    var o := FirstPresent(options[t].1, columns).value;
    PresentTargetIsMapped(columns, options, t, o);
    var i :| 0 <= i < |columns| && columns[i] == o;
    assert Rename(columns, SpecMapping(columns, options))[i] == options[t].0;
  }

  /** The table of accepted spellings has distinct canonical columns and
      disjoint spelling lists, so no source column maps to two targets. */
  lemma MappingOptionsWellFormed()
    ensures DistinctTargets(MappingOptions())
    ensures DisjointAliases(MappingOptions())
  {
    var o := MappingOptions();
    SpellingsDisjointFrom0();
    SpellingsDisjointFrom1();
    SpellingsDisjointFrom2();
    SpellingsDisjointFrom3();
    SpellingsDisjointFrom4();
    SpellingsDisjointFrom5();
    forall t1, t2, a | 0 <= t1 < |o| && 0 <= t2 < |o| && t1 != t2 && a in o[t1].1
      ensures a !in o[t2].1
    {
      if t1 < t2 { assert Disjoint(o[t1].1, o[t2].1); } else { assert Disjoint(o[t2].1, o[t1].1); }
    }
  }

  /** The spelling list of column i shares no spelling with the later lists. */
  lemma SpellingsDisjointFrom0()
    ensures Disjoint(MappingOptions()[0].1, MappingOptions()[1].1)
    ensures Disjoint(MappingOptions()[0].1, MappingOptions()[2].1)
    ensures Disjoint(MappingOptions()[0].1, MappingOptions()[3].1)
    ensures Disjoint(MappingOptions()[0].1, MappingOptions()[4].1)
    ensures Disjoint(MappingOptions()[0].1, MappingOptions()[5].1)
    ensures Disjoint(MappingOptions()[0].1, MappingOptions()[6].1)
  {
  }

  lemma SpellingsDisjointFrom1()
    ensures Disjoint(MappingOptions()[1].1, MappingOptions()[2].1)
    ensures Disjoint(MappingOptions()[1].1, MappingOptions()[3].1)
    ensures Disjoint(MappingOptions()[1].1, MappingOptions()[4].1)
    ensures Disjoint(MappingOptions()[1].1, MappingOptions()[5].1)
    ensures Disjoint(MappingOptions()[1].1, MappingOptions()[6].1)
  {
  }

  lemma SpellingsDisjointFrom2()
    ensures Disjoint(MappingOptions()[2].1, MappingOptions()[3].1)
    ensures Disjoint(MappingOptions()[2].1, MappingOptions()[4].1)
    ensures Disjoint(MappingOptions()[2].1, MappingOptions()[5].1)
    ensures Disjoint(MappingOptions()[2].1, MappingOptions()[6].1)
  {
  }

  lemma SpellingsDisjointFrom3()
    ensures Disjoint(MappingOptions()[3].1, MappingOptions()[4].1)
    ensures Disjoint(MappingOptions()[3].1, MappingOptions()[5].1)
    ensures Disjoint(MappingOptions()[3].1, MappingOptions()[6].1)
  {
  }

  lemma SpellingsDisjointFrom4()
    ensures Disjoint(MappingOptions()[4].1, MappingOptions()[5].1)
    ensures Disjoint(MappingOptions()[4].1, MappingOptions()[6].1)
  {
  }

  lemma SpellingsDisjointFrom5()
    ensures Disjoint(MappingOptions()[5].1, MappingOptions()[6].1)
  {
  }

  predicate Disjoint(xs: seq<string>, ys: seq<string>)
  {
    forall a :: a in xs ==> a !in ys
  }
}
