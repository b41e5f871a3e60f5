/**
 * The three rules PublicEventsController applies before handing a public
 * search to the event service: which address a hit is recorded for, the
 * check that a fully given date range is not inverted, and the
 * normalisation of the sort parameter.
 */
module PublicEvents {
  import opened Common
  import opened DateTimeMapper
  import EventService

  /** clientIp: the first hop of a non-blank X-Forwarded-For header, trimmed,
      or else the remote address.  Only a comma after the first character
      splits the header. */
  function ClientIp(forwardedFor: Option<string>, remoteAddr: string): (ip: string)
    ensures forwardedFor.None? || IsBlank(forwardedFor.value) ==> ip == remoteAddr
    ensures forwardedFor.Some? && !IsBlank(forwardedFor.value) ==>
      Contains(forwardedFor.value, ip) && (ip != [] ==> !IsTrimmed(ip[0]) && !IsTrimmed(ip[|ip| - 1]))
  {
    if forwardedFor.None? || IsBlank(forwardedFor.value) then remoteAddr
    else
      var xff := forwardedFor.value;
      var comma := IndexOf(xff, ',');
      if comma > 0 then
        var hop := Trim(xff[..comma]);
        ContainsPrefix(xff, xff[..comma], hop);
        hop
      else Trim(xff)
  }

  /** Text contained in a prefix is contained in the whole. */
  lemma ContainsPrefix(s: string, p: string, t: string)
    requires p <= s && Contains(p, t)
    ensures Contains(s, t)
  {
    var k :| 0 <= k <= |p| - |t| && OccursAt(p, t, k);
    assert s[k..k + |t|] == p[k..k + |t|];
    assert OccursAt(s, t, k);
  }

  /** The first comma of a text whose prefix `a` has none lies past `a`. */
  lemma {:induction false} IndexOfPastPrefix(a: string, b: string, c: char)
    requires c !in a && c in b
    ensures IndexOf(a + b, c) == |a| + IndexOf(b, c)
    decreases |a|
  {
    if a != [] {
      assert (a + b)[0] == a[0];
      assert (a + b)[1..] == a[1..] + b;
      IndexOfPastPrefix(a[1..], b, c);
    } else {
      assert a + b == b;
    }
  }

  /** A non-blank proxy chain "client, proxy, ..." yields the client, trimmed,
      even when the client part itself is blank. */
  lemma ClientIpIsFirstHop(first: string, rest: string, remoteAddr: string)
    requires first != [] && ',' !in first && !IsBlank(first + "," + rest)
    ensures ClientIp(Some(first + "," + rest), remoteAddr) == Trim(first)
  {
    var xff := first + "," + rest;
    assert xff == first + ("," + rest);
    assert xff[..|first|] == first;
    IndexOfPastPrefix(first, "," + rest, ',');
  }

  /** Without a comma the whole header is the address, trimmed. */
  lemma ClientIpWithoutComma(xff: string, remoteAddr: string)
    requires ',' !in xff && !IsBlank(xff)
    ensures ClientIp(Some(xff), remoteAddr) == Trim(xff)
  {
  }

  /** A comma in first place does not split the header. */
  lemma ClientIpLeadingComma(remoteAddr: string)
    ensures ClientIp(Some(",10.0.0.1"), remoteAddr) == ",10.0.0.1"
  {
    var xff := ",10.0.0.1";
    assert !IsWhitespace(xff[0]);
    TrimmedEnds(xff);
  }

  /** Blanks before the first comma give the empty address. */
  lemma ClientIpBlankFirstHop(remoteAddr: string)
    ensures ClientIp(Some(" , 10.0.0.1"), remoteAddr) == ""
  {
    var xff := " , 10.0.0.1";
    assert !IsWhitespace(xff[1]);
    IndexOfPastPrefix(" ", ", 10.0.0.1", ',');
    assert xff[..1] == " ";
  }

  /** A blank header falls back to the remote address. */
  lemma ClientIpBlankHeader(remoteAddr: string)
    ensures ClientIp(Some("   "), remoteAddr) == remoteAddr
  {
    assert IsBlank("   ");
  }

  /** A text whose ends are not trimmed is its own trim. */
  lemma TrimmedEnds(s: string)
    requires s != [] && !IsTrimmed(s[0]) && !IsTrimmed(s[|s| - 1])
    ensures Trim(s) == s
  {
    assert LeadingTrimmed(s) == 0;
    assert s[0..] == s;
    assert TrailingTrimmed(s) == 0;
  }

  /** The sort the controller passes on: "VIEWS" for any case of VIEWS, and
      "EVENT_DATE" for anything else, including the default. */
  function NormalizedSort(sort: Option<string>): (r: string)
    ensures r == "VIEWS" || r == "EVENT_DATE"
    ensures r == "VIEWS" <==> sort.Some? && Lower(sort.value) == Lower("VIEWS")
  {
    if EqualsIgnoreCase("VIEWS", sort) then "VIEWS" else "EVENT_DATE"
  }

  /** Normalising twice changes nothing, and the service orders by views for
      exactly the sorts the controller normalises to VIEWS. */
  lemma NormalizedSortAgrees(sort: Option<string>)
    ensures NormalizedSort(Some(NormalizedSort(sort))) == NormalizedSort(sort)
    ensures EventService.ByViews(Some(NormalizedSort(sort))) <==> EventService.ByViews(sort)
  {
    assert Lower("EVENT_DATE") != Lower("VIEWS") by {
      assert Lower("EVENT_DATE")[0] == 'e';
      assert Lower("VIEWS")[0] == 'v';
    }
  }

  /** The range check of search: when both bounds are given and not blank,
      both must parse and the end must not lie before the start. */
  function RangeCheck(rangeStart: Option<string>, rangeEnd: Option<string>): (r: Outcome)
    ensures r.Fail? ==> r.error == DateTimeParse || r.error == BadRequest
    ensures rangeStart.None? || IsBlank(rangeStart.value) || rangeEnd.None? || IsBlank(rangeEnd.value) ==> r == Pass
  {
    if rangeStart.None? || IsBlank(rangeStart.value) || rangeEnd.None? || IsBlank(rangeEnd.value) then Pass
    else
      match (Parse(rangeStart.value), Parse(rangeEnd.value))
      case (None, _) => Fail(DateTimeParse)
      case (_, None) => Fail(DateTimeParse)
      case (Some(start), Some(end)) => if IsBefore(end, start) then Fail(BadRequest) else Pass
  }

  /** Two well-formed bounds are refused exactly when the end is strictly
      before the start; equal bounds pass. */
  lemma RangeCheckOrder(a: DateTime, b: DateTime)
    requires Valid(a) && Valid(b) && a.nano == 0 && b.nano == 0
    ensures RangeCheck(Some(Format(a)), Some(Format(b))) == (if IsBefore(b, a) then Fail(BadRequest) else Pass)
    ensures RangeCheck(Some(Format(a)), Some(Format(a))) == Pass
  {
    ParseFormat(a);
    ParseFormat(b);
    FormattedNotBlank(a);
    FormattedNotBlank(b);
    IsBeforeStrictTotal(a, a, a);
  }

  lemma FormattedNotBlank(t: DateTime)
    requires Valid(t)
    ensures !IsBlank(Format(t))
  {
    ParseFormat(t);
    assert Format(t)[4] == '-';
  }
}
