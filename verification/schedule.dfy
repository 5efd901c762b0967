/**
  `build_schedule_grids`: one grid per schedule entry, keyed by the entry's name. The
  entries are compiled in order and the first entry whose pattern fails aborts the whole
  build with that error; no entry is skipped. When two entries share a name, the later
  one's grid is kept.
 */
module Schedules {
  import opened Errors
  import opened Grid
  import opened Pattern

  /** One entry of the input list: the keys `name`, `pattern` and `days` the builder reads. */
  datatype Entry = Entry(name: string, pattern: string, days: string)

  type Schedule = map<string, seq<seq<bool>>>

  /** The outcome of compiling each entry's pattern, in order. */
  function Outcomes(entries: seq<Entry>): (os: seq<Result<seq<seq<bool>>>>)
    ensures |os| == |entries|
    ensures OkGrids(os)
    decreases |entries|
  {
    if entries == [] then []
    else [ParsePattern(entries[0].pattern, entries[0].days)] + Outcomes(entries[1..])
  }

  lemma {:induction false} OutcomesAt(entries: seq<Entry>, i: nat)
    requires i < |entries|
    ensures Outcomes(entries)[i] == ParsePattern(entries[i].pattern, entries[i].days)
    decreases i
  {
    if i > 0 {
      OutcomesAt(entries[1..], i - 1);
    }
  }

  /** The entries' names, in order. */
  function NameList(entries: seq<Entry>): (names: seq<string>)
    ensures |names| == |entries|
    ensures forall i :: 0 <= i < |entries| ==> names[i] == entries[i].name
  {
    seq(|entries|, i requires 0 <= i < |entries| => entries[i].name)
  }

  /** Every successful outcome is a 7×24 grid. */
  predicate OkGrids(os: seq<Result<seq<seq<bool>>>>) {
    forall i :: 0 <= i < |os| && os[i].Ok? ==> IsGrid(os[i].value)
  }

  /** No later name equals the i-th. */
  predicate LastWithName(names: seq<string>, i: nat) {
    i < |names| && forall j :: i < j < |names| ==> names[j] != names[i]
  }

  function NameSet(names: seq<string>): set<string> {
    set i | 0 <= i < |names| :: names[i]
  }

  /** Every value of the map is a 7×24 grid. */
  predicate AllGrids(m: Schedule) {
    forall n :: n in m ==> IsGrid(m[n])
  }

  /** The comprehension, from the left: each name is bound to its outcome's grid, on top of
      the grids already in `acc`; the first failed outcome aborts with its error. */
  function Collect(acc: Schedule, names: seq<string>, os: seq<Result<seq<seq<bool>>>>): (r: Result<Schedule>)
    requires |names| == |os| && AllGrids(acc) && OkGrids(os)
    ensures r.Ok? ==> AllGrids(r.value)
    decreases |os|
  {
    if os == [] then Ok(acc)
    else
      match os[0]
      case Err(e) => Err(e)
      case Ok(g) => Collect(acc[names[0] := g], names[1..], os[1..])
  }

  /** `Collect` succeeds exactly when every outcome did, and otherwise fails with the error of
      the first failed outcome. */
  lemma {:induction false} CollectOutcome(acc: Schedule, names: seq<string>, os: seq<Result<seq<seq<bool>>>>)
    requires |names| == |os| && AllGrids(acc) && OkGrids(os)
    ensures Collect(acc, names, os).Ok? <==> AllOk(os)
    ensures Collect(acc, names, os).Err? ==> FirstFailure(os, FirstFailedIndex(os), Collect(acc, names, os).error)
    decreases |os|
  {
    if os != [] && os[0].Ok? {
      var acc' := acc[names[0] := os[0].value];
      CollectOutcome(acc', names[1..], os[1..]);
      BuiltStep(os);
    } else if os != [] {
      assert os[..0] == [];
    }
  }

  /** The index of the first failed outcome (|os| when there is none). */
  function FirstFailedIndex(os: seq<Result<seq<seq<bool>>>>): (i: nat)
    ensures i <= |os|
    decreases |os|
  {
    if os == [] || os[0].Err? then 0 else 1 + FirstFailedIndex(os[1..])
  }

  /** Lifts the facts about the tail of the outcomes over a first outcome that succeeded. */
  lemma BuiltStep(os: seq<Result<seq<seq<bool>>>>)
    requires os != [] && os[0].Ok?
    ensures AllOk(os) <==> AllOk(os[1..])
    ensures forall e :: FirstFailure(os[1..], FirstFailedIndex(os[1..]), e) ==> FirstFailure(os, FirstFailedIndex(os), e)
  {
    forall e | FirstFailure(os[1..], FirstFailedIndex(os[1..]), e)
      ensures FirstFailure(os, FirstFailedIndex(os), e)
    {
      var i := FirstFailedIndex(os[1..]);
      assert os[..i + 1] == [os[0]] + os[1..][..i];
    }
    if AllOk(os[1..]) {
      forall i | 0 <= i < |os|
        ensures os[i].Ok?
      {
        if i > 0 {
          assert os[i] == os[1..][i - 1];
        }
      }
    }
  }

  /** On success the keys are those of `acc` plus every name. */
  lemma {:induction false} CollectKeys(acc: Schedule, names: seq<string>, os: seq<Result<seq<seq<bool>>>>)
    requires |names| == |os| && AllGrids(acc) && OkGrids(os)
    requires Collect(acc, names, os).Ok?
    ensures Collect(acc, names, os).value.Keys == acc.Keys + NameSet(names)
    decreases |os|
  {
    if os != [] {
      CollectKeys(acc[names[0] := os[0].value], names[1..], os[1..]);
      NameSetStep(names);
    }
  }

  lemma NameSetStep(names: seq<string>)
    requires |names| >= 1
    ensures NameSet(names) == {names[0]} + NameSet(names[1..])
  {
    forall n | n in NameSet(names)
      ensures n == names[0] || n in NameSet(names[1..])
    {
      var i :| 0 <= i < |names| && names[i] == n;
      if i > 0 {
        assert names[1..][i - 1] == names[i];
      }
    }
    forall n | n in NameSet(names[1..])
      ensures n in NameSet(names)
    {
      var i :| 0 <= i < |names| - 1 && names[1..][i] == n;
      assert names[i + 1] == names[1..][i];
    }
  }

  /** On success each name is bound to the grid of the last outcome with that name, and the
      grids of `acc` under other names are kept. */
  lemma {:induction false} CollectValues(acc: Schedule, names: seq<string>, os: seq<Result<seq<seq<bool>>>>)
    requires |names| == |os| && AllGrids(acc) && OkGrids(os)
    requires Collect(acc, names, os).Ok?
    ensures forall i: nat :: LastWithName(names, i) ==>
              os[i].Ok? && names[i] in Collect(acc, names, os).value && Collect(acc, names, os).value[names[i]] == os[i].value
    ensures forall n :: n in acc && n !in NameSet(names) ==>
              n in Collect(acc, names, os).value && Collect(acc, names, os).value[n] == acc[n]
    decreases |os|
  {
    if os != [] {
      CollectOutcome(acc, names, os);
      var acc' := acc[names[0] := os[0].value];
      CollectValues(acc', names[1..], os[1..]);
      CollectKeys(acc', names[1..], os[1..]);
      CollectKeys(acc, names, os);
      NameSetStep(names);
      LastWithNameStep(names);
      var r := Collect(acc, names, os).value;
      if LastWithName(names, 0) {
        assert names[0] !in NameSet(names[1..]);
        assert r[names[0]] == acc'[names[0]];
      }
    }
  }

  lemma LastWithNameStep(names: seq<string>)
    requires |names| >= 1
    ensures forall i: nat :: 0 < i < |names| ==> (LastWithName(names, i) <==> LastWithName(names[1..], i - 1))
    ensures LastWithName(names, 0) <==> names[0] !in NameSet(names[1..])
  {
    forall i | 0 < i < |names|
      ensures LastWithName(names, i) <==> LastWithName(names[1..], i - 1)
    {
      assert forall j :: i < j < |names| ==> names[j] == names[1..][j - 1];
    }
    if !LastWithName(names, 0) {
      var j :| 0 < j < |names| && names[j] == names[0];
      assert names[1..][j - 1] == names[j];
    }
  }

  /** `build_schedule_grids(patterns)`: fails with the error of the first entry whose
      pattern fails; otherwise maps exactly the entries' names, each to the grid of the last
      entry carrying that name. */
  function BuildScheduleGrids(entries: seq<Entry>): (r: Result<Schedule>)
    ensures r.Ok? <==> AllOk(Outcomes(entries))
    ensures r.Err? ==> FirstFailure(Outcomes(entries), FirstFailedIndex(Outcomes(entries)), r.error)
    ensures r.Ok? ==> r.value.Keys == NameSet(NameList(entries))
    ensures r.Ok? ==> forall i: nat :: LastWithName(NameList(entries), i) ==>
              r.value[entries[i].name] == Outcomes(entries)[i].value
    ensures r.Ok? ==> AllGrids(r.value)
  {
    var names, os := NameList(entries), Outcomes(entries);
    CollectOutcome(map[], names, os);
    if Collect(map[], names, os).Ok? then
      CollectKeys(map[], names, os);
      CollectValues(map[], names, os);
      Collect(map[], names, os)
    else
      Collect(map[], names, os)
  }

  /** One entry whose pattern fails makes the whole build fail: no entry is skipped. */
  lemma BuildFailsOnAnyBadEntry(entries: seq<Entry>, i: nat)
    requires i < |entries| && ParsePattern(entries[i].pattern, entries[i].days).Err?
    ensures BuildScheduleGrids(entries).Err?
  {
    OutcomesAt(entries, i);
  }

  /** With distinct names, every entry's name maps to the grid of its own pattern. */
  lemma BuildDistinctNames(entries: seq<Entry>, i: nat)
    requires forall j, k :: 0 <= j < k < |entries| ==> entries[j].name != entries[k].name
    requires i < |entries|
    requires BuildScheduleGrids(entries).Ok?
    ensures ParsePattern(entries[i].pattern, entries[i].days).Ok?
    ensures BuildScheduleGrids(entries).value[entries[i].name] == ParsePattern(entries[i].pattern, entries[i].days).value
  {
    OutcomesAt(entries, i);
    assert LastWithName(NameList(entries), i);
  }

  /** Of two outcomes under the same name, the later one's grid is kept. */
  lemma CollectSameNamePair(names: seq<string>, os: seq<Result<seq<seq<bool>>>>)
    requires |names| == |os| == 2 && names[0] == names[1] && OkGrids(os)
    requires Collect(map[], names, os).Ok?
    ensures os[1].Ok? && Collect(map[], names, os).value == map[names[1] := os[1].value]
  {
    CollectOutcome(map[], names, os);
    assert os[0].Ok? && os[1].Ok?;
    var m1 := map[names[0] := os[0].value];
    var m2 := m1[names[1] := os[1].value];
    assert Collect(map[], names, os) == Collect(m1, names[1..], os[1..]);
    assert Collect(m1, names[1..], os[1..]) == Collect(m2, [], []);
    assert m2 == map[names[1] := os[1].value];
  }

  /** Of two entries with the same name, the later one's grid is kept. */
  lemma BuildLaterEntryWins(entries: seq<Entry>)
    requires |entries| == 2 && entries[0].name == entries[1].name
    requires BuildScheduleGrids(entries).Ok?
    ensures ParsePattern(entries[1].pattern, entries[1].days).Ok?
    ensures BuildScheduleGrids(entries).value ==
              map[entries[1].name := ParsePattern(entries[1].pattern, entries[1].days).value]
  {
    OutcomesAt(entries, 1);
    CollectSameNamePair(NameList(entries), Outcomes(entries));
  }
}
