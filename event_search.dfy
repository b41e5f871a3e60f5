/**
 * The filters of EventRepository's two search queries, evaluated over the
 * rows of the event table, together with the LIKE matching the public text
 * search relies on.  Paging and ordering of the result are not part of the
 * filter.
 */
module EventSearch {
  import opened Common
  import opened Events

  // ---------------------------------------------------------------------
  // SQL LIKE
  // ---------------------------------------------------------------------

  /** `s LIKE p`: '%' matches any run of characters, '_' any one character,
      every other character itself. */
  predicate Like(s: string, p: string)
    decreases |p|
  {
    if p == [] then s == []
    else if p[0] == '%' then exists k | 0 <= k <= |s| :: Like(s[k..], p[1..])
    else if p[0] == '_' then |s| > 0 && Like(s[1..], p[1..])
    else |s| > 0 && s[0] == p[0] && Like(s[1..], p[1..])
  }

  /** No character of `t` is a LIKE wildcard. */
  predicate NoWildcards(t: string)
  {
    forall i :: 0 <= i < |t| ==> t[i] != '%' && t[i] != '_'
  }

  /** A wildcard-free `t` followed by '%' matches exactly the texts that
      start with `t`. */
  lemma {:induction false} LikePrefix(s: string, t: string)
    requires NoWildcards(t)
    ensures Like(s, t + "%") <==> |t| <= |s| && s[..|t|] == t
    decreases |t|
  {
    if t == [] {
      assert t + "%" == "%";
      assert Like(s[|s|..], []);
    } else {
      assert (t + "%")[0] == t[0];
      assert (t + "%")[1..] == t[1..] + "%";
      if |s| > 0 {
        LikePrefix(s[1..], t[1..]);
        if |t| <= |s| && s[..|t|] == t {
          assert s[1..][..|t| - 1] == t[1..];
        }
        if |t| - 1 <= |s| - 1 && s[1..][..|t| - 1] == t[1..] && s[0] == t[0] {
          assert s[..|t|] == [s[0]] + s[1..][..|t| - 1];
        }
      }
    }
  }

  /** `s LIKE '%' + t + '%'` for a wildcard-free `t` is exactly "s contains t". */
  lemma LikeContains(s: string, t: string)
    requires NoWildcards(t)
    ensures Like(s, "%" + t + "%") <==> Contains(s, t)
  {
    var p := "%" + t + "%";
    assert p[0] == '%';
    assert p[1..] == t + "%";
    if Like(s, p) {
      var k :| 0 <= k <= |s| && Like(s[k..], t + "%");
      LikePrefix(s[k..], t);
      assert s[k..k + |t|] == s[k..][..|t|];
      assert OccursAt(s, t, k);
    }
    if Contains(s, t) {
      var k :| 0 <= k <= |s| - |t| && OccursAt(s, t, k);
      LikePrefix(s[k..], t);
      assert s[k..][..|t|] == s[k..k + |t|];
      assert Like(s[k..], t + "%");
    }
  }

  // ---------------------------------------------------------------------
  // searchPublic
  // ---------------------------------------------------------------------

  /** The search parameter the service passes: null for a missing or blank
      text, else the lower-cased text between two '%'. */
  function SearchPattern(text: Option<string>): (r: Option<string>)
    ensures r.None? <==> text.None? || IsBlank(text.value)
    ensures r.Some? ==> r.value == "%" + Lower(text.value) + "%"
  {
    if text.None? || IsBlank(text.value) then None else Some("%" + Lower(text.value) + "%")
  }

  /** A list parameter that is null or empty filters nothing. */
  predicate InOrUnfiltered<T(==)>(list: Option<seq<T>>, x: T)
  {
    list.None? || list.value == [] || x in list.value
  }

  /** `e.eventDate >= COALESCE(:rangeStart, e.eventDate) AND
      e.eventDate <= COALESCE(:rangeEnd, e.eventDate)`. */
  predicate InRange(date: int, rangeStart: Option<int>, rangeEnd: Option<int>)
  {
    date >= rangeStart.GetOr(date) && date <= rangeEnd.GetOr(date)
  }

  datatype PublicFilter = PublicFilter(search: Option<string>, categories: Option<seq<int>>, paid: Option<bool>,
                                       rangeStart: Option<int>, rangeEnd: Option<int>)

  /** The WHERE clause of searchPublic. */
  predicate MatchesPublic(e: Event, f: PublicFilter)
  {
    && e.state == Some(PUBLISHED)
    && (f.search.None?
        || Like(Lower(e.annotation), f.search.value)
        || Like(Lower(e.description), f.search.value)
        || Like(Lower(e.title), f.search.value))
    && InOrUnfiltered(f.categories, e.category)
    && (f.paid.None? || e.paid == f.paid)
    && InRange(e.eventDate, f.rangeStart, f.rangeEnd)
  }

  /** searchPublic without paging: the matching rows, in table order. */
  function SearchPublic(rows: seq<Event>, f: PublicFilter): (r: seq<Event>)
    ensures |r| <= |rows|
    ensures forall e :: e in r <==> e in rows && MatchesPublic(e, f)
    ensures forall i :: 0 <= i < |r| ==> r[i].state == Some(PUBLISHED)
  {
    if rows == [] then []
    else
      var tail := SearchPublic(rows[1..], f);
      assert forall e :: e in rows <==> e == rows[0] || e in rows[1..];
      if MatchesPublic(rows[0], f) then [rows[0]] + tail else tail
  }

  /** For a text without wildcards the public search is a case-insensitive
      "contains" on annotation, description or title. */
  lemma TextSearchIsContains(e: Event, text: string, f: PublicFilter)
    requires !IsBlank(text) && NoWildcards(text)
    requires f.search == SearchPattern(Some(text))
    ensures MatchesPublic(e, f) <==>
      && e.state == Some(PUBLISHED)
      && (Contains(Lower(e.annotation), Lower(text))
          || Contains(Lower(e.description), Lower(text))
          || Contains(Lower(e.title), Lower(text)))
      && InOrUnfiltered(f.categories, e.category)
      && (f.paid.None? || e.paid == f.paid)
      && InRange(e.eventDate, f.rangeStart, f.rangeEnd)
  {
    assert NoWildcards(Lower(text));
    LikeContains(Lower(e.annotation), Lower(text));
    LikeContains(Lower(e.description), Lower(text));
    LikeContains(Lower(e.title), Lower(text));
  }

  // ---------------------------------------------------------------------
  // searchAdmin
  // ---------------------------------------------------------------------

  datatype AdminFilter = AdminFilter(users: Option<seq<int>>, states: Option<seq<EventState>>,
                                     categories: Option<seq<int>>, rangeStart: Option<int>, rangeEnd: Option<int>)

  /** The WHERE clause of searchAdmin. */
  predicate MatchesAdmin(e: Event, f: AdminFilter)
  {
    && InOrUnfiltered(f.users, e.initiator)
    && (f.states.None? || f.states.value == [] || (e.state.Some? && e.state.value in f.states.value))
    && InOrUnfiltered(f.categories, e.category)
    && InRange(e.eventDate, f.rangeStart, f.rangeEnd)
  }

  /** searchAdmin without paging. */
  function SearchAdmin(rows: seq<Event>, f: AdminFilter): (r: seq<Event>)
    ensures |r| <= |rows|
    ensures forall e :: e in r <==> e in rows && MatchesAdmin(e, f)
  {
    if rows == [] then []
    else
      var tail := SearchAdmin(rows[1..], f);
      assert forall e :: e in rows <==> e == rows[0] || e in rows[1..];
      if MatchesAdmin(rows[0], f) then [rows[0]] + tail else tail
  }

  /** With every list empty and no bounds, searchAdmin returns the whole table. */
  lemma {:induction false} AdminNoFilter(rows: seq<Event>)
    ensures SearchAdmin(rows, AdminFilter(None, None, None, None, None)) == rows
  {
    if rows != [] {
      AdminNoFilter(rows[1..]);
      assert rows == [rows[0]] + rows[1..];
    }
  }

  /** A bound equal to the event's date admits it: both bounds are inclusive. */
  lemma RangeInclusive(date: int)
    ensures InRange(date, Some(date), Some(date))
    ensures !InRange(date, Some(date + 1), None) && !InRange(date, None, Some(date - 1))
  {
  }
}
