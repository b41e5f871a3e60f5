/**
 * The statistics server: a table of endpoint hits, one per recorded request,
 * and the aggregation behind GET /stats.  Hits inside a closed time window
 * (optionally only for some URIs) are grouped by (app, uri), each group is
 * counted either by hits or by distinct client addresses, and the groups
 * are listed most counted first.
 */
module Stats {
  import opened Common
  import opened DateTimeMapper
  import opened Sorting

  datatype EndpointHit = EndpointHit(id: int, app: string, uri: string, ip: string, timestamp: DateTime)

  /** ViewStatsDto. */
  datatype ViewStats = ViewStats(app: string, uri: string, hits: int)

  /** The group a hit is counted in. */
  function Key(h: EndpointHit): (string, string)
  {
    (h.app, h.uri)
  }

  function HitsOf(v: ViewStats): int
  {
    v.hits
  }

  /** `h.timestamp BETWEEN :start AND :end`, and `h.uri IN :uris` for the
      by-URI queries. */
  predicate Counted(h: EndpointHit, start: DateTime, end: DateTime, uris: Option<seq<string>>)
  {
    !IsBefore(h.timestamp, start) && !IsBefore(end, h.timestamp) && (uris.None? || h.uri in uris.value)
  }

  /** The hits the WHERE clause keeps, in table order. */
  function Window(hits: seq<EndpointHit>, start: DateTime, end: DateTime, uris: Option<seq<string>>): (r: seq<EndpointHit>)
    ensures |r| <= |hits|
    ensures forall h :: h in r <==> h in hits && Counted(h, start, end, uris)
  {
    if hits == [] then []
    else
      var rest := Window(hits[1..], start, end, uris);
      assert forall h :: h in hits <==> h == hits[0] || h in hits[1..];
      if Counted(hits[0], start, end, uris) then [hits[0]] + rest else rest
  }

  /** COUNT(h.id) of a group. */
  function GroupSize(hits: seq<EndpointHit>, g: (string, string)): (n: nat)
    ensures n <= |hits|
    ensures n > 0 <==> exists h :: h in hits && Key(h) == g
  {
    if hits == [] then 0
    else
      assert forall h :: h in hits <==> h == hits[0] || h in hits[1..];
      (if Key(hits[0]) == g then 1 else 0) + GroupSize(hits[1..], g)
  }

  /** The client addresses of a group; COUNT(DISTINCT h.ip) is its size. */
  function GroupIps(hits: seq<EndpointHit>, g: (string, string)): set<string>
  {
    set h | h in hits && Key(h) == g :: h.ip
  }

  /** A group has no more distinct addresses than hits, and at least one
      address once it has a hit. */
  lemma {:induction false} UniqueAtMostAll(hits: seq<EndpointHit>, g: (string, string))
    ensures |GroupIps(hits, g)| <= GroupSize(hits, g)
    ensures GroupSize(hits, g) > 0 ==> |GroupIps(hits, g)| > 0
  {
    if hits != [] {
      UniqueAtMostAll(hits[1..], g);
      var first := if Key(hits[0]) == g then {hits[0].ip} else {};
      assert forall h :: h in hits <==> h == hits[0] || h in hits[1..];
      assert GroupIps(hits, g) == GroupIps(hits[1..], g) + first;
      if GroupSize(hits, g) > 0 {
        var h :| h in hits && Key(h) == g;
        assert h.ip in GroupIps(hits, g);
      }
    }
  }

  /** The count of a group under either query. */
  function Count(hits: seq<EndpointHit>, g: (string, string), unique: bool): nat
  {
    if unique then |GroupIps(hits, g)| else GroupSize(hits, g)
  }

  /** The groups that have a hit, each once. */
  function Groups(hits: seq<EndpointHit>): (r: seq<(string, string)>)
    ensures forall g :: g in r <==> exists h :: h in hits && Key(h) == g
    ensures forall i, j :: 0 <= i < j < |r| ==> r[i] != r[j]
  {
    if hits == [] then []
    else
      var rest := Groups(hits[1..]);
      assert forall h :: h in hits <==> h == hits[0] || h in hits[1..];
      if Key(hits[0]) in rest then rest else [Key(hits[0])] + rest
  }

  /** One row per group, before ordering. */
  function Rows(hits: seq<EndpointHit>, unique: bool): (r: seq<ViewStats>)
    ensures forall v :: v in r ==> (v.app, v.uri) in Groups(hits) && v.hits == Count(hits, (v.app, v.uri), unique)
    ensures forall g :: g in Groups(hits) ==> ViewStats(g.0, g.1, Count(hits, g, unique)) in r
    ensures forall i, j :: 0 <= i < j < |r| ==> (r[i].app, r[i].uri) != (r[j].app, r[j].uri)
  {
    var gs := Groups(hits);
    var r := seq(|gs|, k requires 0 <= k < |gs| => ViewStats(gs[k].0, gs[k].1, Count(hits, gs[k], unique)));
    assert forall k :: 0 <= k < |gs| ==> (r[k].app, r[k].uri) == gs[k];
    r
  }

  /** A sequence without repeats holds each element once. */
  lemma {:induction false} OnceEach<T>(s: seq<T>)
    requires forall i, j :: 0 <= i < j < |s| ==> s[i] != s[j]
    ensures forall x :: multiset(s)[x] <= 1
  {
    if s != [] {
      OnceEach(s[1..]);
      assert s == [s[0]] + s[1..];
      assert s[0] !in s[1..];
    }
  }

  /** A sequence that holds each element at most once has no repeats. */
  lemma NoRepeats<T>(s: seq<T>)
    requires forall x :: multiset(s)[x] <= 1
    ensures forall i, j :: 0 <= i < j < |s| ==> s[i] != s[j]
  {
    forall i, j | 0 <= i < j < |s|
      ensures s[i] != s[j]
    {
      assert s == s[..j] + s[j..];
      assert s[i] in s[..j];
      assert s[j] in s[j..];
      assert multiset(s) == multiset(s[..j]) + multiset(s[j..]);
      assert multiset(s)[s[i]] == multiset(s[..j])[s[i]] + multiset(s[j..])[s[i]];
      assert multiset(s[..j])[s[i]] >= 1 && multiset(s[j..])[s[j]] >= 1;
      assert multiset(s)[s[i]] <= 1;
    }
  }

  /** The rows of the groups, most counted first. */
  function Aggregate(hits: seq<EndpointHit>, unique: bool): (r: seq<ViewStats>)
    ensures forall v :: v in r <==> v in Rows(hits, unique)
  {
    var rows := Rows(hits, unique);
    var r := SortDesc(rows, HitsOf);
    assert forall v :: v in r <==> v in multiset(rows);
    r
  }

  /** The four queries of EndpointHitRepository: statsAll (no URI list, by
      hits), statsAllByUris, statsUnique (by distinct addresses) and
      statsUniqueByUris. */
  function Query(hits: seq<EndpointHit>, start: DateTime, end: DateTime, uris: Option<seq<string>>, unique: bool): (r: seq<ViewStats>)
    ensures forall v :: v in r ==> exists h :: h in hits && Counted(h, start, end, uris) && Key(h) == (v.app, v.uri)
  {
    Aggregate(Window(hits, start, end, uris), unique)
  }

  /** Each group ends up in exactly one row. */
  lemma AggregateOncePerGroup(hits: seq<EndpointHit>, unique: bool)
    ensures var r := Aggregate(hits, unique);
      forall i, j :: 0 <= i < j < |r| ==> (r[i].app, r[i].uri) != (r[j].app, r[j].uri)
  {
    var rows := Rows(hits, unique);
    var r := Aggregate(hits, unique);
    OnceEach(rows);
    NoRepeats(r);
    forall i, j | 0 <= i < j < |r|
      ensures (r[i].app, r[i].uri) != (r[j].app, r[j].uri)
    {
      assert r[i] in rows && r[j] in rows;
    }
  }

  /** What a query returns: only groups with a counted hit in the window,
      every such group, once, with its hit count or its number of distinct
      addresses (never zero), only for the URIs asked for, most counted
      first. */
  lemma QueryRows(hits: seq<EndpointHit>, start: DateTime, end: DateTime, uris: Option<seq<string>>, unique: bool)
    ensures var w := Window(hits, start, end, uris);
      var r := Query(hits, start, end, uris, unique);
      && SortedDesc(r, HitsOf)
      && (forall v :: v in r ==>
            && v.hits == Count(w, (v.app, v.uri), unique) && v.hits >= 1
            && (exists h :: h in hits && Counted(h, start, end, uris) && Key(h) == (v.app, v.uri))
            && (uris.Some? ==> v.uri in uris.value))
      && (forall h :: h in hits && Counted(h, start, end, uris) ==> ViewStats(h.app, h.uri, Count(w, Key(h), unique)) in r)
      && (forall i, j :: 0 <= i < j < |r| ==> (r[i].app, r[i].uri) != (r[j].app, r[j].uri))
  {
    var w := Window(hits, start, end, uris);
    var r := Query(hits, start, end, uris, unique);
    SortDescSorted(Rows(w, unique), HitsOf);
    AggregateOncePerGroup(w, unique);
    forall v | v in r
      ensures v.hits >= 1 && (uris.Some? ==> v.uri in uris.value)
    {
      var g := (v.app, v.uri);
      var h :| h in w && Key(h) == g;
      UniqueAtMostAll(w, g);
    }
    forall h | h in hits && Counted(h, start, end, uris)
      ensures ViewStats(h.app, h.uri, Count(w, Key(h), unique)) in r
    {
      assert Key(h) in Groups(w);
    }
  }

  /** For the same window, a group never has more distinct addresses than
      hits. */
  lemma UniqueNeverExceedsAll(hits: seq<EndpointHit>, start: DateTime, end: DateTime, uris: Option<seq<string>>)
    ensures forall v :: v in Query(hits, start, end, uris, true) ==>
      exists w :: w in Query(hits, start, end, uris, false) && w.app == v.app && w.uri == v.uri && v.hits <= w.hits
  {
    var sel := Window(hits, start, end, uris);
    forall v | v in Query(hits, start, end, uris, true)
      ensures exists w :: w in Query(hits, start, end, uris, false) && w.app == v.app && w.uri == v.uri && v.hits <= w.hits
    {
      var g := (v.app, v.uri);
      UniqueAtMostAll(sel, g);
      assert ViewStats(g.0, g.1, Count(sel, g, false)) in Query(hits, start, end, uris, false);
    }
  }

  /** getStats: both bounds must parse, the end must not lie before the
      start, and a null or empty URI list means every URI. */
  function GetStatsResult(hits: seq<EndpointHit>, start: string, end: string, uris: Option<seq<string>>,
                          unique: bool): (r: Result<seq<ViewStats>>)
    ensures r.Err? <==> Parse(start).None? || Parse(end).None? || IsBefore(Parse(end).value, Parse(start).value)
    ensures r.Err? ==> (r.error == IllegalArgument <==> Parse(start).Some? && Parse(end).Some?)
    ensures r.Err? ==> r.error == IllegalArgument || r.error == DateTimeParse
  {
    match (Parse(start), Parse(end))
    case (None, _) => Err(DateTimeParse)
    case (_, None) => Err(DateTimeParse)
    case (Some(s), Some(e)) =>
      if IsBefore(e, s) then Err(IllegalArgument)
      else Ok(Query(hits, s, e, if uris.None? || uris.value == [] then None else uris, unique))
  }

  /** A window that starts and ends at the same second is accepted, and an
      empty URI list filters nothing. */
  lemma GetStatsDispatch(hits: seq<EndpointHit>, start: string, end: string, uris: Option<seq<string>>, unique: bool)
    requires Parse(start).Some? && Parse(end).Some?
    ensures start == end ==> GetStatsResult(hits, start, end, uris, unique).Ok?
    ensures GetStatsResult(hits, start, end, uris, unique).Ok? && (uris.None? || uris.value == []) ==>
      GetStatsResult(hits, start, end, uris, unique).value == Query(hits, Parse(start).value, Parse(end).value, None, unique)
  {
    var s := Parse(start).value;
    IsBeforeStrictTotal(s, s, s);
  }

  // ---------------------------------------------------------------------
  // Recording hits
  // ---------------------------------------------------------------------

  /** A recorded hit joins the counts of its own group in any window that
      holds it, and no other group's. */
  lemma {:induction false} RecordedHitCounts(hits: seq<EndpointHit>, h: EndpointHit, g: (string, string))
    ensures GroupSize(hits + [h], g) == GroupSize(hits, g) + (if Key(h) == g then 1 else 0)
    decreases |hits|
  {
    if hits == [] {
      assert hits + [h] == [h];
    } else {
      assert (hits + [h])[1..] == hits[1..] + [h];
      RecordedHitCounts(hits[1..], h, g);
    }
  }

  /** The window of a longer table is the window of the shorter one, plus
      the new hit when it is counted. */
  lemma {:induction false} WindowAppend(hits: seq<EndpointHit>, h: EndpointHit, start: DateTime, end: DateTime,
                                         uris: Option<seq<string>>)
    ensures Window(hits + [h], start, end, uris) ==
      Window(hits, start, end, uris) + (if Counted(h, start, end, uris) then [h] else [])
    decreases |hits|
  {
    if hits == [] {
      assert hits + [h] == [h];
    } else {
      assert (hits + [h])[1..] == hits[1..] + [h];
      WindowAppend(hits[1..], h, start, end, uris);
    }
  }

  /** After saveHit the hit count of the new hit's group, in every window
      that holds the hit, is one more; every other count is unchanged. */
  lemma SavedHitCounted(hits: seq<EndpointHit>, h: EndpointHit, start: DateTime, end: DateTime,
                        uris: Option<seq<string>>, g: (string, string))
    ensures Count(Window(hits + [h], start, end, uris), g, false) ==
      Count(Window(hits, start, end, uris), g, false) + (if Counted(h, start, end, uris) && Key(h) == g then 1 else 0)
  {
    var w := Window(hits, start, end, uris);
    WindowAppend(hits, h, start, end, uris);
    if Counted(h, start, end, uris) {
      RecordedHitCounts(w, h, g);
    } else {
      assert w + [] == w;
    }
  }

  /** The distinct ids of the table, below the next one. */
  ghost predicate IdsBelow(hits: seq<EndpointHit>, nextId: int)
  {
    forall i :: 0 <= i < |hits| ==> 1 <= hits[i].id < nextId
  }

  class StatsService {
    var hits: seq<EndpointHit>
    var nextId: int

    ghost predicate Valid()
      reads this
    {
      nextId >= 1 && IdsBelow(hits, nextId) && (forall i, j :: 0 <= i < j < |hits| ==> hits[i].id < hits[j].id)
    }

    constructor ()
      ensures Valid() && hits == [] && nextId == 1
    {
      hits := [];
      nextId := 1;
    }

    /** saveHit: exactly one new hit, under a fresh id. */
    method SaveHit(app: string, uri: string, ip: string, timestamp: DateTime)
      requires Valid()
      modifies this
      ensures Valid()
      ensures hits == old(hits) + [EndpointHit(old(nextId), app, uri, ip, timestamp)]
      ensures nextId == old(nextId) + 1
    {
      hits := hits + [EndpointHit(nextId, app, uri, ip, timestamp)];
      nextId := nextId + 1;
    }

    /** getStats, over the hits recorded so far: a parse error or an
        inverted window is refused; otherwise one row per group with a hit in
        the window, most hits first. */
    method GetStats(start: string, end: string, uris: Option<seq<string>>, unique: bool) returns (result: Result<seq<ViewStats>>)
      ensures result == GetStatsResult(hits, start, end, uris, unique)
      ensures result.Err? <==> Parse(start).None? || Parse(end).None? || IsBefore(Parse(end).value, Parse(start).value)
      ensures result.Err? ==> (result.error == IllegalArgument <==> Parse(start).Some? && Parse(end).Some?)
      ensures result.Ok? ==> SortedDesc(result.value, HitsOf)
      ensures result.Ok? ==> forall v :: v in result.value ==>
        v.hits >= 1 && (exists h :: h in hits && Key(h) == (v.app, v.uri))
        && (uris.Some? && uris.value != [] ==> v.uri in uris.value)
      ensures result.Ok? ==> forall i, j :: 0 <= i < j < |result.value| ==>
        (result.value[i].app, result.value[i].uri) != (result.value[j].app, result.value[j].uri)
    {
      result := GetStatsResult(hits, start, end, uris, unique);
      if result.Ok? {
        QueryRows(hits, Parse(start).value, Parse(end).value, if uris.None? || uris.value == [] then None else uris, unique);
      }
    }
  }
}
