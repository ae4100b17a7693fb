/** The lecture search filter of the search dialog (`filteredLectures`):
    a stable filter of the catalog by six optional clauses. */
module LectureFilter {
  import opened Types
  import opened Builtins

  /** The dialog's filter state. An empty query, absent or zero credits and
      an empty grades, days, times or majors list impose no constraint. */
  datatype SearchOption = SearchOption(
    query: string,
    grades: seq<int>,
    days: seq<string>,
    times: seq<int>,
    majors: seq<string>,
    credits: Option<nat>)

  /** The options the dialog starts with. */
  const INITIAL_OPTIONS := SearchOption("", [], [], [], [], None)

  /** The helpers the filter calls whose definitions this model does not
      include: `parseSchedule` (src/basic/utils.ts) and `toLowerCase`. */
  datatype Env = Env(parseSchedule: string -> seq<ParsedSchedule>, toLowerCase: string -> string)

  /** `lecture.schedule ? parseSchedule(lecture.schedule) : []` */
  function ParsedEntries(env: Env, l: Lecture): seq<ParsedSchedule> {
    if l.schedule == "" then [] else env.parseSchedule(l.schedule)
  }

  /** `credits` is truthy: present and not 0. */
  predicate CreditsOn(o: SearchOption) {
    o.credits.Some? && o.credits.value != 0
  }

  /** The callback given to `lectures.filter`, with its early returns in source order. */
  predicate Accepts(env: Env, o: SearchOption, l: Lecture) {
    var q := env.toLowerCase(o.query);
    if o.query != "" && !Includes(env.toLowerCase(l.title), q) && !Includes(env.toLowerCase(l.id), q) then false
    else if |o.grades| > 0 && l.grade !in o.grades then false
    else if |o.majors| > 0 && l.major !in o.majors then false
    else if CreditsOn(o) && !(DecimalString(o.credits.value) <= l.credits) then false
    else
      var ps := ParsedEntries(env, l);
      if |o.days| > 0 && !(exists p :: p in ps && p.day in o.days) then false
      else if |o.times| > 0 && !(exists p :: p in ps && exists t :: t in p.range && t in o.times) then false
      else true
  }

  /** `lectures.filter(Accepts)`: the accepted lectures, in catalog order. */
  function Filter(env: Env, o: SearchOption, ls: seq<Lecture>): seq<Lecture> {
    if ls == [] then []
    else (if Accepts(env, o, ls[0]) then [ls[0]] else []) + Filter(env, o, ls[1..])
  }

  // The clauses, each stated positively.

  predicate QueryHolds(env: Env, o: SearchOption, l: Lecture) {
    Includes(env.toLowerCase(l.title), env.toLowerCase(o.query))
    || Includes(env.toLowerCase(l.id), env.toLowerCase(o.query))
  }

  predicate DayHolds(env: Env, o: SearchOption, l: Lecture) {
    exists p :: p in ParsedEntries(env, l) && p.day in o.days
  }

  predicate TimeHolds(env: Env, o: SearchOption, l: Lecture) {
    exists p :: p in ParsedEntries(env, l) && exists t :: t in p.range && t in o.times
  }

  /** A lecture is accepted exactly when every switched-on clause holds. */
  predicate AllActiveClausesHold(env: Env, o: SearchOption, l: Lecture) {
    && (o.query != "" ==> QueryHolds(env, o, l))
    && (|o.grades| > 0 ==> l.grade in o.grades)
    && (|o.majors| > 0 ==> l.major in o.majors)
    && (CreditsOn(o) ==> DecimalString(o.credits.value) <= l.credits)
    && (|o.days| > 0 ==> DayHolds(env, o, l))
    && (|o.times| > 0 ==> TimeHolds(env, o, l))
  }

  lemma AcceptsIffAllActiveClausesHold(env: Env, o: SearchOption, l: Lecture)
    ensures Accepts(env, o, l) <==> AllActiveClausesHold(env, o, l)
  {
  }

  /** The filter keeps each accepted lecture as often as the catalog holds
      it, and drops every other lecture. */
  lemma {:induction false} FilterCounts(env: Env, o: SearchOption, ls: seq<Lecture>, x: Lecture)
    ensures multiset(Filter(env, o, ls))[x] == if Accepts(env, o, x) then multiset(ls)[x] else 0
  {
    if ls != [] {
      FilterCounts(env, o, ls[1..], x);
      assert ls == [ls[0]] + ls[1..];
    }
  }

  /** A lecture is in the result exactly when it is in the catalog and accepted. */
  lemma FilterMembers(env: Env, o: SearchOption, ls: seq<Lecture>, x: Lecture)
    ensures x in Filter(env, o, ls) <==> x in ls && Accepts(env, o, x)
  {
    FilterCounts(env, o, ls, x);
  }

  /** The result keeps the catalog's order: it is a subsequence of it. */
  lemma {:induction false} FilterIsSubsequence(env: Env, o: SearchOption, ls: seq<Lecture>)
    ensures IsSubsequence(Filter(env, o, ls), ls)
  {
    if ls != [] {
      FilterIsSubsequence(env, o, ls[1..]);
      var rest := Filter(env, o, ls[1..]);
      if Accepts(env, o, ls[0]) {
        assert Filter(env, o, ls) == [ls[0]] + rest;
        assert ([ls[0]] + rest)[1..] == rest;
      } else {
        assert Filter(env, o, ls) == rest;
        if rest != [] {
          assert IsSubsequence(rest, ls[1..]);
        }
      }
    }
  }

  /** A catalog whose every lecture is accepted passes unchanged. */
  lemma {:induction false} FilterKeepsAllAccepted(env: Env, o: SearchOption, ls: seq<Lecture>)
    requires forall i :: 0 <= i < |ls| ==> Accepts(env, o, ls[i])
    ensures Filter(env, o, ls) == ls
  {
    if ls != [] {
      FilterKeepsAllAccepted(env, o, ls[1..]);
    }
  }

  /** Filtering the result again with the same options changes nothing. */
  lemma FilterIdempotent(env: Env, o: SearchOption, ls: seq<Lecture>)
    ensures Filter(env, o, Filter(env, o, ls)) == Filter(env, o, ls)
  {
    var r := Filter(env, o, ls);
    forall i | 0 <= i < |r|
      ensures Accepts(env, o, r[i])
    {
      FilterMembers(env, o, ls, r[i]);
    }
    FilterKeepsAllAccepted(env, o, r);
  }

  /** With no option switched on, the whole catalog is shown in its order. */
  lemma InitialOptionsKeepEverything(env: Env, ls: seq<Lecture>)
    ensures Filter(env, INITIAL_OPTIONS, ls) == ls
  {
    FilterKeepsAllAccepted(env, INITIAL_OPTIONS, ls);
  }

  /** A lecture with no schedule text has no parsed entries, so any day or
      period selection rejects it. */
  lemma EmptyScheduleRejectedByDayOrTime(env: Env, o: SearchOption, l: Lecture)
    requires l.schedule == ""
    requires |o.days| > 0 || |o.times| > 0
    ensures !Accepts(env, o, l)
  {
    assert ParsedEntries(env, l) == [];
  }

  /** Filtering distributes over the concatenation of two catalogs. */
  lemma {:induction false} FilterConcat(env: Env, o: SearchOption, a: seq<Lecture>, b: seq<Lecture>)
    ensures Filter(env, o, a + b) == Filter(env, o, a) + Filter(env, o, b)
  {
    if a != [] {
      FilterConcat(env, o, a[1..], b);
      assert (a + b)[1..] == a[1..] + b;
    } else {
      assert a + b == b;
    }
  }

  /** Only the set of selected periods matters, not their order or repetition. */
  lemma FilterIgnoresTimesOrder(env: Env, o: SearchOption, times: seq<int>, ls: seq<Lecture>)
    requires forall t :: t in times <==> t in o.times
    ensures Filter(env, o.(times := times), ls) == Filter(env, o, ls)
  {
    var o' := o.(times := times);
    if |times| > 0 {
      var t := times[0];
      assert t in times ==> t in o.times;
    }
    if |o.times| > 0 {
      var t := o.times[0];
      assert t in o.times ==> t in times;
    }
    assert |times| > 0 <==> |o.times| > 0;
    forall l | true
      ensures Accepts(env, o', l) == Accepts(env, o, l)
    {
      assert TimeHolds(env, o', l) == TimeHolds(env, o, l);
    }
    FilterSameAcceptance(env, o', o, ls);
  }

  lemma {:induction false} FilterSameAcceptance(env: Env, o1: SearchOption, o2: SearchOption, ls: seq<Lecture>)
    requires forall l :: Accepts(env, o1, l) == Accepts(env, o2, l)
    ensures Filter(env, o1, ls) == Filter(env, o2, ls)
  {
    if ls != [] {
      FilterSameAcceptance(env, o1, o2, ls[1..]);
    }
  }

  /** Credits match by text prefix: option 1 accepts "1", "1.5" and "10",
      and rejects "2". */
  lemma CreditsMatchByPrefix(env: Env, l: Lecture)
    ensures Accepts(env, INITIAL_OPTIONS.(credits := Some(1)), l.(credits := "1"))
    ensures Accepts(env, INITIAL_OPTIONS.(credits := Some(1)), l.(credits := "1.5"))
    ensures Accepts(env, INITIAL_OPTIONS.(credits := Some(1)), l.(credits := "10"))
    ensures !Accepts(env, INITIAL_OPTIONS.(credits := Some(1)), l.(credits := "2"))
  {
    assert DecimalString(1) == "1";
    assert "2"[0] != "1"[0];
  }

  /** The day clause and the period clause may be met by different parsed
      entries: a lecture on day A in period 5 and on day B in period 3
      passes the selection (day A, period 3). */
  lemma DayAndTimeMatchedIndependently(l: Lecture, lower: string -> string, a: string, b: string)
    requires l.schedule != "" && a != b
    ensures
      var parse := (s: string) => [ParsedSchedule(a, [5], ""), ParsedSchedule(b, [3], "")];
      var o := INITIAL_OPTIONS.(days := [a], times := [3]);
      Accepts(Env(parse, lower), o, l)
  {
    var parse := (s: string) => [ParsedSchedule(a, [5], ""), ParsedSchedule(b, [3], "")];
    var env := Env(parse, lower);
    var ps := ParsedEntries(env, l);
    assert ps[0] in ps && ps[0].day == a;
    assert ps[1] in ps && 3 in ps[1].range;
  }
}
