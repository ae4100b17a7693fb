/** The page of schedule tables: the map from table id to its schedules,
    the duplicate / remove / delete-entry updates applied to it, the rule
    that disables the remove button, and the table being dragged from. */
module ScheduleTables {
  import opened Types
  import opened Builtins
  import ScheduleTable
  import SearchDialog

  type SchedulesMap = map<string, seq<Schedule>>

  /** `Object.keys(schedulesMap).length === 1` */
  predicate DisabledRemoveButton(m: SchedulesMap) {
    |m| == 1
  }

  /** The schedules a delete of (day, time) targets. */
  predicate Matches(s: Schedule, day: string, time: int) {
    s.day == day && time in s.range
  }

  /** `schedules.filter(s => s.day !== day || !s.range.includes(time))` */
  function KeepUnmatched(s: seq<Schedule>, day: string, time: int): seq<Schedule> {
    if s == [] then []
    else (if s[0].day != day || time !in s[0].range then [s[0]] else []) + KeepUnmatched(s[1..], day, time)
  }

  /** Every schedule that does not match is kept as often as it occurs, and
      every matching one is gone. */
  lemma {:induction false} KeepUnmatchedCounts(s: seq<Schedule>, day: string, time: int, x: Schedule)
    ensures multiset(KeepUnmatched(s, day, time))[x] == if Matches(x, day, time) then 0 else multiset(s)[x]
  {
    if s != [] {
      KeepUnmatchedCounts(s[1..], day, time, x);
      assert s == [s[0]] + s[1..];
    }
  }

  /** The kept schedules are in their original order. */
  lemma {:induction false} KeepUnmatchedIsSubsequence(s: seq<Schedule>, day: string, time: int)
    ensures IsSubsequence(KeepUnmatched(s, day, time), s)
  {
    if s != [] {
      KeepUnmatchedIsSubsequence(s[1..], day, time);
      var rest := KeepUnmatched(s[1..], day, time);
      if !Matches(s[0], day, time) {
        assert KeepUnmatched(s, day, time) == [s[0]] + rest;
        assert ([s[0]] + rest)[1..] == rest;
      } else {
        assert KeepUnmatched(s, day, time) == rest;
      }
    }
  }

  /** When nothing matches, the table is unchanged. */
  lemma {:induction false} KeepUnmatchedNoMatchIsNoOp(s: seq<Schedule>, day: string, time: int)
    requires forall i :: 0 <= i < |s| ==> !Matches(s[i], day, time)
    ensures KeepUnmatched(s, day, time) == s
  {
    if s != [] {
      KeepUnmatchedNoMatchIsNoOp(s[1..], day, time);
    }
  }

  /** Deleting twice is deleting once. */
  lemma KeepUnmatchedIdempotent(s: seq<Schedule>, day: string, time: int)
    ensures KeepUnmatched(KeepUnmatched(s, day, time), day, time) == KeepUnmatched(s, day, time)
  {
    var r := KeepUnmatched(s, day, time);
    forall i | 0 <= i < |r|
      ensures !Matches(r[i], day, time)
    {
      KeepUnmatchedCounts(s, day, time, r[i]);
    }
    KeepUnmatchedNoMatchIsNoOp(r, day, time);
  }

  /** The schedule whose delete button was pressed is removed, together
      with every other schedule on that day that covers its first period. */
  lemma PressedScheduleRemoved(s: seq<Schedule>, i: nat)
    requires i < |s|
    requires forall j :: 0 <= j < |s| ==> |s[j].range| > 0
    ensures var p := ScheduleTable.DeleteButtonPayloads(s)[i];
      s[i] !in KeepUnmatched(s, p.day, p.time)
  {
    var p := ScheduleTable.DeleteButtonPayloads(s)[i];
    KeepUnmatchedCounts(s, p.day, p.time, s[i]);
  }

  /** `{ ...prev, [newKey]: [...prev[targetId]] }`; spreading a missing
      table throws, which leaves no new map (None). */
  function DuplicateTable(m: SchedulesMap, target: string, newKey: string): (r: Option<SchedulesMap>)
    ensures r.Some? <==> target in m
    ensures r.Some? ==> r.value.Keys == m.Keys + {newKey} && r.value[newKey] == m[target]
    ensures r.Some? ==> forall k :: k in m && k != newKey ==> r.value[k] == m[k]
  {
    if target in m then Some(m[newKey := m[target]]) else None
  }

  /** The map after `delete prev[targetId]`. */
  function RemoveTable(m: SchedulesMap, target: string): (r: SchedulesMap)
    ensures r.Keys == m.Keys - {target}
    ensures forall k :: k in r ==> r[k] == m[k]
  {
    m - {target}
  }

  /** `{ ...prev, [tableId]: prev[tableId].filter(...) }`; a missing table
      throws (None). */
  function DeleteEntries(m: SchedulesMap, tableId: string, day: string, time: int): (r: Option<SchedulesMap>)
    ensures r.Some? <==> tableId in m
    ensures r.Some? ==> r.value.Keys == m.Keys && r.value[tableId] == KeepUnmatched(m[tableId], day, time)
    ensures r.Some? ==> forall k :: k in m && k != tableId ==> r.value[k] == m[k]
  {
    if tableId in m then Some(m[tableId := KeepUnmatched(m[tableId], day, time)]) else None
  }

  /** Deleting the same (day, time) twice gives the same map as once. */
  lemma DeleteEntriesIdempotent(m: SchedulesMap, tableId: string, day: string, time: int)
    requires tableId in m
    ensures DeleteEntries(DeleteEntries(m, tableId, day, time).value, tableId, day, time)
         == DeleteEntries(m, tableId, day, time)
  {
    KeepUnmatchedIdempotent(m[tableId], day, time);
    var once := DeleteEntries(m, tableId, day, time).value;
    assert once[tableId := KeepUnmatched(once[tableId], day, time)] == once;
  }

  /** A delete that matches nothing on the table leaves the map as it was. */
  lemma DeleteEntriesNoMatchIsNoOp(m: SchedulesMap, tableId: string, day: string, time: int)
    requires tableId in m
    requires forall i :: 0 <= i < |m[tableId]| ==> !Matches(m[tableId][i], day, time)
    ensures DeleteEntries(m, tableId, day, time) == Some(m)
  {
    KeepUnmatchedNoMatchIsNoOp(m[tableId], day, time);
    assert m[tableId := m[tableId]] == m;
  }

  /** Removing a table that is not there changes nothing. */
  lemma RemoveAbsentIsNoOp(m: SchedulesMap, target: string)
    requires target !in m
    ensures RemoveTable(m, target) == m
  {
  }

  /** `remove` does not check the button rule: removing the only table
      leaves no table at all. */
  lemma RemovingOnlyTableEmptiesMap(m: SchedulesMap, target: string)
    requires |m| == 1 && target in m
    ensures RemoveTable(m, target) == map[]
  {
    forall k | k in m
      ensures k == target
    {
      if k != target {
        assert {k, target} <= m.Keys;
        assert |{k, target}| == 2;
        SubsetCardinality({k, target}, m.Keys);
      }
    }
    assert RemoveTable(m, target).Keys == {};
  }

  /** While the button is enabled, removing one of several tables leaves at
      least one. */
  lemma EnabledRemoveKeepsATable(m: SchedulesMap, target: string)
    requires !DisabledRemoveButton(m) && |m| > 0
    ensures |RemoveTable(m, target)| >= 1
  {
    var r := RemoveTable(m, target);
    if target in m {
      assert m.Keys == r.Keys + {target};
      assert |m.Keys| == |r.Keys| + 1;
    } else {
      assert r.Keys == m.Keys;
    }
  }

  /** `activeTableId`: the text before the first ':' of the active drag id,
      or None when no drag is active (an empty id is falsy too). */
  function ActiveTableId(activeId: Option<string>): (r: Option<string>)
    ensures r.Some? <==> activeId.Some? && activeId.value != ""
    ensures r.Some? ==> r.value <= activeId.value && ':' !in r.value
    ensures r.Some? && |r.value| < |activeId.value| ==> activeId.value[|r.value|] == ':'
  {
    if activeId.Some? && activeId.value != "" then Some(SplitHead(activeId.value, ':')) else None
  }

  /** The drag id of a schedule leads back to its table, as long as the
      table id has no ':' of its own. */
  lemma ActiveTableIdOfDragId(tableId: string, index: nat)
    requires ':' !in tableId
    ensures ActiveTableId(Some(ScheduleTable.DragId(tableId, index))) == Some(tableId)
  {
    var id := ScheduleTable.DragId(tableId, index);
    var h := SplitHead(id, ':');
    assert forall j :: 0 <= j < |tableId| ==> id[j] == tableId[j] && id[j] != ':';
    assert id[|tableId|] == ':';
    assert h == id[..|tableId|];
  }

  /** A table id containing ':' is cut short. */
  lemma ColonInTableIdIsCutShort()
    ensures ActiveTableId(Some(ScheduleTable.DragId("a:b", 0))) == Some("a")
  {
    var id := ScheduleTable.DragId("a:b", 0);
    assert id[..3] == "a:b";
    assert id[0] == 'a' && id[1] == ':';
    assert SplitHead(id[1..], ':') == [];
    assert SplitHead(id, ':') == ['a'] + SplitHead(id[1..], ':');
    assert ['a'] + [] == "a";
  }

  /** `handleScheduleTimeClick`: `{ tableId, ...timeInfo }`. */
  function SearchInfoFromClick(tableId: string, info: TimeInfo): SearchInfo {
    SearchInfo(tableId, Some(info.day), Some(info.time))
  }

  /** Clicking an empty cell opens the search dialog pre-filtered to that
      cell's day and period. */
  lemma CellClickPrefiltersDialog(tableId: string, dayLabels: seq<string>, timeIndex: nat, dayIndex: nat)
    requires timeIndex < ScheduleTable.PERIOD_COUNT && dayIndex < |dayLabels|
    requires dayLabels[dayIndex] != ""
    ensures var info := Some(SearchInfoFromClick(tableId, ScheduleTable.CellClickPayload(dayLabels, timeIndex, dayIndex)));
      && SearchDialog.PrefilterDays(info) == [dayLabels[dayIndex]]
      && SearchDialog.PrefilterTimes(info) == [timeIndex + 1]
  {
  }

  /** The add button of a table opens the dialog with `{ tableId }` alone:
      no day and no period pre-filter. */
  lemma AddButtonOpensUnfiltered(tableId: string)
    ensures SearchDialog.PrefilterDays(Some(SearchInfo(tableId, None, None))) == []
    ensures SearchDialog.PrefilterTimes(Some(SearchInfo(tableId, None, None))) == []
  {
  }

  /** The JS object held by the `schedulesMap` state: a reference, so
      changing it in place is seen by everyone who holds it. */
  class TablesObject {
    var entries: SchedulesMap

    constructor (entries: SchedulesMap)
      ensures this.entries == entries
    {
      this.entries := entries;
    }
  }

  /** The `schedulesMap` state slot and the updates passed to its setter. */
  class ScheduleStore {
    var current: TablesObject

    constructor (initial: SchedulesMap)
      ensures fresh(current) && current.entries == initial
    {
      current := new TablesObject(initial);
    }

    /** `duplicate(targetId)` with `newKey` standing for
        `schedule-${Date.now()}`: a fresh object; the previous one is left
        as it was. */
    method Duplicate(target: string, newKey: string) returns (ok: bool)
      modifies this
      ensures ok <==> target in old(current.entries)
      ensures ok ==> fresh(current) && current.entries == DuplicateTable(old(current.entries), target, newKey).value
      ensures !ok ==> current == old(current)
      ensures old(current).entries == old(current.entries)
    {
      var next := DuplicateTable(current.entries, target, newKey);
      ok := next.Some?;
      if ok {
        current := new TablesObject(next.value);
      }
    }

    /** `remove(targetId)`: deletes the key from the previous object in
        place, then copies it into a fresh object. Whoever still holds the
        previous object sees the table gone as well. */
    method Remove(target: string)
      modifies this, current
      ensures fresh(current) && current.entries == RemoveTable(old(current.entries), target)
      ensures old(current).entries == current.entries
    {
      current.entries := current.entries - {target};
      current := new TablesObject(current.entries);
    }

    /** `handleDeleteButtonClick` of table `tableId`: a fresh object in which
        only that table changes. */
    method DeleteButtonClick(tableId: string, info: TimeInfo) returns (ok: bool)
      modifies this
      ensures ok <==> tableId in old(current.entries)
      ensures ok ==> fresh(current)
                     && current.entries == DeleteEntries(old(current.entries), tableId, info.day, info.time).value
      ensures !ok ==> current == old(current)
      ensures old(current).entries == old(current.entries)
    {
      var next := DeleteEntries(current.entries, tableId, info.day, info.time);
      ok := next.Some?;
      if ok {
        current := new TablesObject(next.value);
      }
    }
  }
}
