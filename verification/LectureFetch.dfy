/** The memoising wrapper around the two lecture-list requests
    (`createCachedFetch`), the six-call aggregate `fetchAllLectures`, and
    the assembly of its results into the catalog. Each network request is
    an opaque token; what it resolves to is a parameter of the assembly. */
module LectureFetch {
  import opened Types
  import opened Builtins
  import LectureFilter

  /** The two cached lecture lists: "majors" and "liberalArts". */
  datatype Category = Majors | LiberalArts

  /** An issued request: its category and how many requests were issued
      before it. */
  datatype Request = Request(category: Category, serial: nat)

  /** The cache record and a count of the underlying requests issued. */
  class LectureCache {
    var cache: map<Category, Request>
    var callCount: nat

    /** Every entry was written once, by the request it holds, and each
        request issued is held by exactly one entry. */
    ghost predicate Valid()
      reads this
    {
      && callCount == |cache|
      && (forall c :: c in cache ==> cache[c].category == c && cache[c].serial < callCount)
      && (forall c, d :: c in cache && d in cache && c != d ==> cache[c].serial != cache[d].serial)
    }

    constructor ()
      ensures Valid()
      ensures cache == map[] && callCount == 0
    {
      cache := map[];
      callCount := 0;
    }

    /** `fetchMajorsWithCache` / `fetchLiberalArtsWithCache`: issue the
        request on the first call for a category, and hand back the stored
        request on every call. */
    method FetchWithCache(c: Category) returns (r: Request)
      requires Valid()
      modifies this
      ensures Valid()
      ensures c in cache && r == cache[c] && r.category == c
      ensures c in old(cache) ==> r == old(cache[c]) && cache == old(cache) && callCount == old(callCount)
      ensures c !in old(cache) ==>
                && r == Request(c, old(callCount))
                && cache == old(cache)[c := r]
                && callCount == old(callCount) + 1
    ensures forall d :: d in old(cache) ==> d in cache && cache[d] == old(cache[d])
    {
      if c !in cache {
        cache := cache[c := Request(c, callCount)];
        callCount := callCount + 1;
      }
      r := cache[c];
    }
  }

  /** However often the cached fetches are called, at most one request per
      category is ever issued. */
  lemma AtMostOneRequestPerCategory(cache: LectureCache)
    requires cache.Valid()
    ensures cache.callCount <= 2
  {
    var keys := cache.cache.Keys;
    assert keys <= {Majors, LiberalArts} by {
      forall c | c in keys ensures c in {Majors, LiberalArts} {
        match c
        case Majors =>
        case LiberalArts =>
      }
    }
    SubsetCardinality(keys, {Majors, LiberalArts});
  }

  /** Once both categories are cached, the cache holds nothing else and
      exactly two requests have been issued. */
  lemma BothCachedIsFull(cache: LectureCache)
    requires cache.Valid() && Majors in cache.cache && LiberalArts in cache.cache
    ensures cache.cache.Keys == {Majors, LiberalArts} && cache.callCount == 2
  {
    forall c | c in cache.cache ensures c in {Majors, LiberalArts} {
      match c
      case Majors =>
      case LiberalArts =>
    }
  }

  /** `fetchAllLectures`: the six cached calls in source order. */
  method FetchAllLectures(cache: LectureCache) returns (results: seq<Request>)
    requires cache.Valid()
    modifies cache
    ensures cache.Valid()
    ensures Majors in cache.cache && LiberalArts in cache.cache
    ensures results == [cache.cache[Majors], cache.cache[LiberalArts],
                        cache.cache[Majors], cache.cache[LiberalArts],
                        cache.cache[Majors], cache.cache[LiberalArts]]
    ensures forall c :: c in old(cache.cache) ==> cache.cache[c] == old(cache.cache[c])
    ensures cache.callCount == 2
    ensures cache.callCount - old(cache.callCount) == 2 - |old(cache.cache)|
  {
    var m1 := cache.FetchWithCache(Majors);
    var l1 := cache.FetchWithCache(LiberalArts);
    BothCachedIsFull(cache);
    ghost var filled := cache.cache;
    var m2 := cache.FetchWithCache(Majors);
    assert cache.cache == filled;
    var l2 := cache.FetchWithCache(LiberalArts);
    assert cache.cache == filled;
    var m3 := cache.FetchWithCache(Majors);
    assert cache.cache == filled;
    var l3 := cache.FetchWithCache(LiberalArts);
    assert cache.cache == filled;
    results := [m1, l1, m2, l2, m3, l3];
  }

  /** `results.flatMap(result => result.data)`, where `respond` says what
      each request resolves to; a failed request rejects `Promise.all`
      and the whole assembly fails. */
  function Assemble(results: seq<Request>, respond: Request -> Option<seq<Lecture>>): (r: Option<seq<Lecture>>)
    ensures r.Some? <==> forall i :: 0 <= i < |results| ==> respond(results[i]).Some?
  {
    if results == [] then Some([])
    else
      match (respond(results[0]), Assemble(results[1..], respond))
      case (Some(data), Some(rest)) => Some(data + rest)
      case _ => None
  }

  /** Although only two requests are issued, the assembled catalog is the
      majors list and the liberal-arts list three times over, so every
      fetched lecture occurs three times as often as in its list. */
  lemma {:induction false} EveryLectureThreeTimes(m: Request, l: Request, respond: Request -> Option<seq<Lecture>>,
                                                 majors: seq<Lecture>, liberalArts: seq<Lecture>)
    requires respond(m) == Some(majors) && respond(l) == Some(liberalArts)
    ensures var r := Assemble([m, l, m, l, m, l], respond);
      && r == Some(majors + liberalArts + majors + liberalArts + majors + liberalArts)
      && forall x :: multiset(r.value)[x] == 3 * (multiset(majors)[x] + multiset(liberalArts)[x])
  {
    var t1 := liberalArts;
    var t2 := majors + t1;
    var t3 := liberalArts + t2;
    var t4 := majors + t3;
    var t5 := liberalArts + t4;
    var t6 := majors + t5;
    assert [l][1..] == [];
    assert liberalArts + [] == t1;
    assert Assemble([l], respond) == Some(t1);
    assert [m, l][1..] == [l];
    assert Assemble([m, l], respond) == Some(t2);
    assert [l, m, l][1..] == [m, l];
    assert Assemble([l, m, l], respond) == Some(t3);
    assert [m, l, m, l][1..] == [l, m, l];
    assert Assemble([m, l, m, l], respond) == Some(t4);
    assert [l, m, l, m, l][1..] == [m, l, m, l];
    assert Assemble([l, m, l, m, l], respond) == Some(t5);
    assert [m, l, m, l, m, l][1..] == [l, m, l, m, l];
    assert Assemble([m, l, m, l, m, l], respond) == Some(t6);
    assert t6 == majors + liberalArts + majors + liberalArts + majors + liberalArts;
  }

  /** If either list fails to load, nothing is assembled. */
  lemma FailedListFailsAssembly(m: Request, l: Request, respond: Request -> Option<seq<Lecture>>)
    requires respond(m).None? || respond(l).None?
    ensures Assemble([m, l, m, l, m, l], respond).None?
  {
    if respond(m).None? {
      assert !(respond([m, l, m, l, m, l][0]).Some?);
    } else {
      assert !(respond([m, l, m, l, m, l][1]).Some?);
    }
  }

  /** The search result over the tripled catalog is the search result over
      each list, tripled in the same pattern. */
  lemma FilteredResultTripled(env: LectureFilter.Env, o: LectureFilter.SearchOption,
                              majors: seq<Lecture>, liberalArts: seq<Lecture>)
    ensures
      var fm := LectureFilter.Filter(env, o, majors);
      var fl := LectureFilter.Filter(env, o, liberalArts);
      LectureFilter.Filter(env, o, majors + liberalArts + majors + liberalArts + majors + liberalArts)
        == fm + fl + fm + fl + fm + fl
  {
    var ml := majors + liberalArts;
    LectureFilter.FilterConcat(env, o, majors, liberalArts);
    LectureFilter.FilterConcat(env, o, ml, majors);
    LectureFilter.FilterConcat(env, o, ml + majors, liberalArts);
    LectureFilter.FilterConcat(env, o, ml + majors + liberalArts, majors);
    LectureFilter.FilterConcat(env, o, ml + majors + liberalArts + majors, liberalArts);
  }
}
