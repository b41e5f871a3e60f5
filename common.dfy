/**
 * Shared vocabulary of the model: optional values, the exceptions the
 * services raise (each one aborts the whole transactional operation), the
 * hour used for lead times, and the few java.lang.String operations the
 * business rules depend on.
 */
module Common {

  datatype Option<+T> = None | Some(value: T)
  {
    /** The value, or `default` for a Java null. */
    function GetOr(default: T): T
    {
      if Some? then value else default
    }
  }

  /** The exceptions of the core, by the HTTP answer they lead to. */
  datatype ErrorKind =
    | NotFound            // NotFoundException
    | Conflict            // ConflictException
    | BadRequest          // BadRequestException
    | IllegalArgument     // IllegalArgumentException (paging, stats window)
    | IntegrityViolation  // DataIntegrityViolationException from a unique constraint
    | DateTimeParse       // an unchecked DateTimeParseException
    | Arithmetic          // ArithmeticException, from an integer division by zero

  datatype Result<+T> = Ok(value: T) | Err(error: ErrorKind)

  /** The outcome of a void operation that may throw. */
  datatype Outcome = Pass | Fail(error: ErrorKind)

  /** Timestamps are whole seconds. */
  const HOUR: int := 3600

  /** findById on a table that is never deleted from, whose row ids are
      their positions plus one. */
  function FindById<T>(rows: seq<T>, id: int): (r: Option<T>)
    ensures r.Some? <==> 1 <= id <= |rows|
    ensures r.Some? ==> r.value == rows[id - 1]
  {
    if 1 <= id <= |rows| then Some(rows[id - 1]) else None
  }

  /** findById followed by deleteById on a table keyed by id: a missing id is
      NotFound; otherwise exactly that row goes and every other row stays. */
  function DeleteExisting<T>(rows: map<int, T>, id: int): (r: Result<map<int, T>>)
    ensures r.Err? <==> id !in rows
    ensures r.Err? ==> r.error == NotFound
    ensures r.Ok? ==> r.value.Keys == rows.Keys - {id}
    ensures r.Ok? ==> forall k :: k in r.value ==> r.value[k] == rows[k]
  {
    if id !in rows then Err(NotFound) else Ok(rows - {id})
  }

  // ---------------------------------------------------------------------
  // java.lang.String, restricted to what the rules use
  // ---------------------------------------------------------------------

  /** Character.isWhitespace: the ASCII controls TAB..CR and FS..US, and the
      Unicode space, line and paragraph separators except the non-breaking
      ones (U+00A0, U+2007, U+202F). */
  predicate IsWhitespace(c: char)
  {
    c == ' ' || ('\t' <= c <= '\r') || ('\U{1C}' <= c <= '\U{1F}')
    || c == '\U{1680}' || ('\U{2000}' <= c <= '\U{2006}') || ('\U{2008}' <= c <= '\U{200A}')
    || c == '\U{2028}' || c == '\U{2029}' || c == '\U{205F}' || c == '\U{3000}'
  }

  /** String.isBlank: empty, or whitespace only. */
  predicate IsBlank(s: string)
  {
    forall i :: 0 <= i < |s| ==> IsWhitespace(s[i])
  }

  /** A character String.trim removes: any code point up to the space. */
  predicate IsTrimmed(c: char)
  {
    c <= ' '
  }

  /** The number of characters String.trim removes at the front. */
  function LeadingTrimmed(s: string): (n: nat)
    ensures n <= |s|
    ensures forall i :: 0 <= i < n ==> IsTrimmed(s[i])
    ensures n < |s| ==> !IsTrimmed(s[n])
  {
    if s == [] || !IsTrimmed(s[0]) then 0 else 1 + LeadingTrimmed(s[1..])
  }

  /** The number of characters String.trim removes at the back. */
  function TrailingTrimmed(s: string): (n: nat)
    ensures n <= |s|
    ensures forall i :: |s| - n <= i < |s| ==> IsTrimmed(s[i])
    ensures n < |s| ==> !IsTrimmed(s[|s| - n - 1])
  {
    if s == [] || !IsTrimmed(s[|s| - 1]) then 0 else 1 + TrailingTrimmed(s[..|s| - 1])
  }

  /** String.trim: the longest infix that neither starts nor ends with a
      character up to the space.  `s` is the characters LeadingTrimmed
      counts, all up to the space, then `t`, then more such characters. */
  function Trim(s: string): (t: string)
    ensures |t| <= |s|
    ensures t == [] <==> forall i :: 0 <= i < |s| ==> IsTrimmed(s[i])
    ensures t != [] ==> !IsTrimmed(t[0]) && !IsTrimmed(t[|t| - 1])
    ensures Contains(s, t)
    ensures LeadingTrimmed(s) + |t| <= |s| && s[LeadingTrimmed(s)..LeadingTrimmed(s) + |t|] == t
    ensures forall i :: LeadingTrimmed(s) + |t| <= i < |s| ==> IsTrimmed(s[i])
  {
    var a := LeadingTrimmed(s);
    var b := TrailingTrimmed(s[a..]);
    assert s[a..][..|s[a..]| - b] == s[a..a + (|s| - a - b)];
    assert OccursAt(s, s[a..][..|s[a..]| - b], a);
    s[a..][..|s[a..]| - b]
  }

  /** Trimming twice is trimming once. */
  lemma {:induction false} TrimIdempotent(s: string)
    ensures Trim(Trim(s)) == Trim(s)
  {
    var t := Trim(s);
    if t != [] {
      assert LeadingTrimmed(t) == 0;
      assert t[0..] == t;
      assert TrailingTrimmed(t) == 0;
    }
  }

  /** Character.toLowerCase on ASCII letters; other characters unchanged. */
  function LowerChar(c: char): char
  {
    if 'A' <= c <= 'Z' then (c as int + 32) as char else c
  }

  /** String.toLowerCase (ASCII letters only). */
  function Lower(s: string): (t: string)
    ensures |t| == |s|
    ensures forall i :: 0 <= i < |s| ==> t[i] == LowerChar(s[i])
  {
    seq(|s|, i requires 0 <= i < |s| => LowerChar(s[i]))
  }

  /** Character.toUpperCase on ASCII letters; other characters unchanged. */
  function UpperChar(c: char): char
  {
    if 'a' <= c <= 'z' then (c as int - 32) as char else c
  }

  /** String.toUpperCase (ASCII letters only). */
  function Upper(s: string): (t: string)
    ensures |t| == |s|
    ensures forall i :: 0 <= i < |s| ==> t[i] == UpperChar(s[i])
  {
    seq(|s|, i requires 0 <= i < |s| => UpperChar(s[i]))
  }

  /** String.equalsIgnoreCase against a possibly null argument (ASCII). */
  predicate EqualsIgnoreCase(a: string, b: Option<string>)
  {
    b.Some? && Lower(a) == Lower(b.value)
  }

  /** String.indexOf(char): the first position of `c`, or -1. */
  function IndexOf(s: string, c: char): (i: int)
    ensures -1 <= i < |s|
    ensures i == -1 <==> c !in s
    ensures i >= 0 ==> s[i] == c && c !in s[..i]
  {
    if s == [] then -1
    else if s[0] == c then 0
    else
      var j := IndexOf(s[1..], c);
      assert s[1..] == s[1..][..|s| - 1];
      if j == -1 then -1
      else
        assert s[..j + 1] == [s[0]] + s[1..][..j];
        j + 1
  }

  /** String.contains. */
  predicate Contains(s: string, part: string)
  {
    exists i :: 0 <= i <= |s| - |part| && OccursAt(s, part, i)
  }

  /** `part` occurs in `s` starting at position `i`. */
  predicate OccursAt(s: string, part: string, i: int)
  {
    0 <= i <= |s| - |part| && s[i..i + |part|] == part
  }

  // ---------------------------------------------------------------------
  // findAllById
  // ---------------------------------------------------------------------

  /** The ids of `ids` that name a row of a table of `n` rows, each once, in
      the order of their first occurrence. */
  function DistinctPresent(n: int, ids: seq<int>): (r: seq<int>)
    ensures forall x :: x in r <==> x in ids && 1 <= x <= n
    ensures forall i, j :: 0 <= i < j < |r| ==> r[i] != r[j]
    ensures forall k :: 0 <= k < |r| ==> 1 <= r[k] <= n
    ensures |r| <= |ids|
  {
    if ids == [] then []
    else
      var p := DistinctPresent(n, ids[..|ids| - 1]);
      var x := ids[|ids| - 1];
      assert ids == ids[..|ids| - 1] + [x];
      if 1 <= x <= n && x !in p then p + [x] else p
  }

  /** No id occurs twice. */
  predicate NoDuplicates(ids: seq<int>)
  {
    forall i, j :: 0 <= i < j < |ids| ==> ids[i] != ids[j]
  }

  /** findAllById finds as many rows as ids were asked for exactly when every
      id names a row and no id is asked for twice. */
  lemma {:induction false} DistinctPresentAll(n: int, ids: seq<int>)
    ensures |DistinctPresent(n, ids)| == |ids| <==>
      (forall k :: 0 <= k < |ids| ==> 1 <= ids[k] <= n) && NoDuplicates(ids)
  {
    if ids != [] {
      var pre := ids[..|ids| - 1];
      var x := ids[|ids| - 1];
      var p := DistinctPresent(n, pre);
      DistinctPresentAll(n, pre);
      assert ids == pre + [x];
      if (forall k :: 0 <= k < |ids| ==> 1 <= ids[k] <= n) && NoDuplicates(ids) {
        assert forall k :: 0 <= k < |pre| ==> pre[k] == ids[k];
        assert x !in pre by {
          forall k | 0 <= k < |pre|
            ensures pre[k] != x
          {
            assert ids[k] != ids[|ids| - 1];
          }
        }
        assert 1 <= x <= n;
      }
      if |DistinctPresent(n, ids)| == |ids| {
        assert 1 <= x <= n && x !in p;
        assert |p| == |pre|;
        forall k | 0 <= k < |pre|
          ensures pre[k] != x
        {
          assert pre[k] in p;
        }
      }
    }
  }

  function DigitChar(d: int): char
    requires 0 <= d < 10
  {
    ('0' as int + d) as char
  }

  /** Long.toString of a non-negative number. */
  function NatToString(n: nat): (s: string)
    ensures s != []
    ensures forall i :: 0 <= i < |s| ==> '0' <= s[i] <= '9'
  {
    if n < 10 then [DigitChar(n)] else NatToString(n / 10) + [DigitChar(n % 10)]
  }

  /** Long.toString. */
  function IntToString(n: int): string
  {
    if n < 0 then "-" + NatToString(-n) else NatToString(n)
  }
}
