/** The search dialog's state: the fetched catalog, the current page and the
    filter options, with the updates its handlers and effects apply. */
module SearchDialog {
  import opened Types
  import opened Builtins
  import opened LectureFilter
  import opened Pagination
  import LectureFetch

  /** The keys of `SearchOption`. */
  datatype Field = QueryField | GradesField | DaysField | TimesField | MajorsField | CreditsField

  /** A `changeSearchOption(field, value)` call: one field and its new value. */
  datatype Change =
    | SetQuery(query: string)
    | SetGrades(grades: seq<int>)
    | SetDays(days: seq<string>)
    | SetTimes(times: seq<int>)
    | SetMajors(majors: seq<string>)
    | SetCredits(credits: Option<nat>)

  function FieldOf(c: Change): Field {
    match c
    case SetQuery(_) => QueryField
    case SetGrades(_) => GradesField
    case SetDays(_) => DaysField
    case SetTimes(_) => TimesField
    case SetMajors(_) => MajorsField
    case SetCredits(_) => CreditsField
  }

  /** The current value of field f, as the change that would set it. */
  function Read(o: SearchOption, f: Field): (c: Change)
    ensures FieldOf(c) == f
  {
    match f
    case QueryField => SetQuery(o.query)
    case GradesField => SetGrades(o.grades)
    case DaysField => SetDays(o.days)
    case TimesField => SetTimes(o.times)
    case MajorsField => SetMajors(o.majors)
    case CreditsField => SetCredits(o.credits)
  }

  /** `{ ...prev, [field]: value }`: the named field takes the new value and
      every other field keeps its old one. */
  function WithChange(o: SearchOption, c: Change): (r: SearchOption)
    ensures Read(r, FieldOf(c)) == c
    ensures forall f :: f != FieldOf(c) ==> Read(r, f) == Read(o, f)
  {
    match c
    case SetQuery(q) => o.(query := q)
    case SetGrades(g) => o.(grades := g)
    case SetDays(d) => o.(days := d)
    case SetTimes(t) => o.(times := t)
    case SetMajors(m) => o.(majors := m)
    case SetCredits(cr) => o.(credits := cr)
  }

  /** The options are determined by the value of each field. */
  lemma OptionsDeterminedByFields(o1: SearchOption, o2: SearchOption)
    requires forall f :: Read(o1, f) == Read(o2, f)
    ensures o1 == o2
  {
    assert Read(o1, QueryField) == Read(o2, QueryField);
    assert Read(o1, GradesField) == Read(o2, GradesField);
    assert Read(o1, DaysField) == Read(o2, DaysField);
    assert Read(o1, TimesField) == Read(o2, TimesField);
    assert Read(o1, MajorsField) == Read(o2, MajorsField);
    assert Read(o1, CreditsField) == Read(o2, CreditsField);
  }

  /** The day pre-filter the `searchInfo` effect installs: `[day]` when a
      non-empty day is given, otherwise none. */
  function PrefilterDays(info: Option<SearchInfo>): (r: seq<string>)
    ensures |r| <= 1
    ensures r != [] <==> info.Some? && info.value.day.Some? && info.value.day.value != ""
    ensures r != [] ==> r[0] == info.value.day.value
  {
    if info.Some? && info.value.day.Some? && info.value.day.value != "" then [info.value.day.value] else []
  }

  /** The period pre-filter: `[time]` when a non-zero period is given. */
  function PrefilterTimes(info: Option<SearchInfo>): (r: seq<int>)
    ensures |r| <= 1
    ensures r != [] <==> info.Some? && info.value.time.Some? && info.value.time.value != 0
    ensures r != [] ==> r[0] == info.value.time.value
  {
    if info.Some? && info.value.time.Some? && info.value.time.value != 0 then [info.value.time.value] else []
  }

  /** `[...new Set(lectures.map(l => l.major))]`: the majors offered as
      checkboxes, each once, in catalog order. */
  function AllMajors(lectures: seq<Lecture>): (r: seq<string>)
    ensures NoDuplicates(r)
    ensures forall m :: m in r <==> exists i :: 0 <= i < |lectures| && lectures[i].major == m
  {
    var majors := seq(|lectures|, i requires 0 <= i < |lectures| => lectures[i].major);
    var r := Distinct(majors);
    assert forall i :: 0 <= i < |lectures| ==> majors[i] == lectures[i].major;
    r
  }

  /** Insertion into an ascending sequence. */
  function Insert(x: int, s: seq<int>): (r: seq<int>)
    requires Ascending(s)
    ensures Ascending(r)
    ensures multiset(r) == multiset(s) + multiset{x}
  {
    if s == [] || x <= s[0] then [x] + s
    else
      var rest := Insert(x, s[1..]);
      assert s == [s[0]] + s[1..];
      BoundedByHead(s[0], s[1..], x, rest);
      [s[0]] + rest
  }

  /** A head no larger than every element of the tail keeps the list
      ascending. */
  lemma BoundedByHead(h: int, tail: seq<int>, x: int, rest: seq<int>)
    requires Ascending([h] + tail) && h < x
    requires Ascending(rest) && multiset(rest) == multiset(tail) + multiset{x}
    ensures Ascending([h] + rest)
  {
    var s := [h] + rest;
    forall i, j | 0 <= i < j < |s|
      ensures s[i] <= s[j]
    {
      var y := rest[j - 1];
      assert s[j] == y;
      if i == 0 && y != x {
        assert y in multiset(rest);
        assert y in multiset(tail);
        var k :| 0 <= k < |tail| && tail[k] == y;
        assert ([h] + tail)[0] == h && ([h] + tail)[k + 1] == y;
      } else if i == 0 {
        assert s[0] == h;
      } else {
        assert s[i] == rest[i - 1];
      }
    }
  }

  predicate Ascending(s: seq<int>) {
    forall i, j :: 0 <= i < j < |s| ==> s[i] <= s[j]
  }

  /** `times.sort((a, b) => a - b)`: the same periods, in ascending order. */
  function SortAscending(s: seq<int>): (r: seq<int>)
    ensures Ascending(r)
    ensures multiset(r) == multiset(s)
  {
    if s == [] then []
    else
      assert s == [s[0]] + s[1..];
      Insert(s[0], SortAscending(s[1..]))
  }

  class SearchDialogState {
    const env: Env
    var lectures: seq<Lecture>
    var page: nat
    var options: SearchOption

    constructor (env: Env)
      ensures this.env == env
      ensures lectures == [] && page == 1 && options == INITIAL_OPTIONS
    {
      this.env := env;
      lectures := [];
      page := 1;
      options := INITIAL_OPTIONS;
    }

    /** `filteredLectures` */
    function Filtered(): seq<Lecture>
      reads this
    {
      Filter(env, options, lectures)
    }

    /** `visibleLectures` */
    function Visible(): seq<Lecture>
      reads this
    {
      VisibleLectures(Filtered(), page)
    }

    /** `changeSearchOption`: replace one field and go back to page 1. */
    method ChangeSearchOption(c: Change)
      modifies this
      ensures options == WithChange(old(options), c)
      ensures page == 1
      ensures lectures == old(lectures)
      ensures |Visible()| <= PAGE_SIZE
    {
      page := 1;
      options := WithChange(options, c);
    }

    /** The sentinel came into view: advance one page, never past the last. */
    method OnLoaderVisible()
      modifies this`page
      ensures page == NextPage(old(page), LastPage(|Filtered()|))
      ensures page <= LastPage(|Filtered()|)
      ensures old(page) == LastPage(|Filtered()|) ==> page == old(page)
      ensures old(Visible()) <= Visible()
    {
      VisibleGrowsWithStep(Filtered(), page);
      page := Pagination.Min(LastPage(|Filter(env, options, lectures)|), page + 1);
    }

    /** The `searchInfo` effect: install the day and period pre-filters,
        keep the other options, and go back to page 1. */
    method OnSearchInfo(info: Option<SearchInfo>)
      modifies this
      ensures options == old(options).(days := PrefilterDays(info), times := PrefilterTimes(info))
      ensures page == 1
      ensures lectures == old(lectures)
      ensures |Visible()| <= PAGE_SIZE
    {
      options := options.(days := PrefilterDays(info), times := PrefilterTimes(info));
      page := 1;
    }

    /** Rendering the period tags sorts the selected periods in place; the
        search result does not change. */
    method SortTimesForDisplay()
      modifies this`options
      ensures options == old(options).(times := SortAscending(old(options.times)))
      ensures Ascending(options.times)
      ensures Filtered() == old(Filtered())
    {
      var sorted := SortAscending(options.times);
      forall t ensures t in sorted <==> t in options.times {
        assert t in sorted <==> t in multiset(sorted);
        assert t in options.times <==> t in multiset(options.times);
      }
      FilterIgnoresTimesOrder(env, options, sorted, lectures);
      options := options.(times := sorted);
    }

    /** The fetch effect: once every request has resolved, the catalog is
        their lists one after another; if one failed it stays as it was. */
    method LoadLectures(results: seq<LectureFetch.Request>, respond: LectureFetch.Request -> Option<seq<Lecture>>)
      modifies this`lectures
      ensures LectureFetch.Assemble(results, respond).Some? ==> lectures == LectureFetch.Assemble(results, respond).value
      ensures LectureFetch.Assemble(results, respond).None? ==> lectures == old(lectures)
    {
      var assembled := LectureFetch.Assemble(results, respond);
      if assembled.Some? {
        lectures := assembled.value;
      }
    }
  }

  /** After the dialog opens on a clicked cell, a lecture is shown exactly
      when the other options accept it and it has a parsed entry on that
      day and one covering that period. */
  lemma PrefilteredDialogAccepts(env: Env, o: SearchOption, info: SearchInfo, l: Lecture)
    requires info.day.Some? && info.day.value != ""
    requires info.time.Some? && info.time.value != 0
    ensures var o' := o.(days := PrefilterDays(Some(info)), times := PrefilterTimes(Some(info)));
      Accepts(env, o', l) <==>
        && Accepts(env, o.(days := [], times := []), l)
        && (exists p :: p in ParsedEntries(env, l) && p.day == info.day.value)
        && (exists p :: p in ParsedEntries(env, l) && info.time.value in p.range)
  {
  }
}
