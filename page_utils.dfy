/**
 * PageUtils: turns the API's offset paging (`from`, `size`) into a Spring
 * page request.  The page index is `from / size` in Java's int division,
 * which truncates toward zero; PageRequest.of refuses a negative page index.
 */
module PageUtils {
  import opened Common
  import opened Sorting

  datatype Sort = Unsorted | OrderBy(property: string, ascending: bool)

  /** A PageRequest: the page index, its size and the ordering. */
  datatype PageRequest = PageRequest(page: int, size: int, sort: Sort)
  {
    /** Pageable.getOffset: the position of the page's first element. */
    function Offset(): int
    {
      page * size
    }
  }

  /** Java's `/` on int: the quotient truncated toward zero. */
  function JavaDiv(a: int, b: int): (q: int)
    requires b > 0
    ensures a >= 0 ==> q == a / b
    ensures a < 0 ==> q == -((-a) / b)
  {
    if a >= 0 then a / b else -((-a) / b)
  }

  /** The quotient of a non-negative number is zero exactly below the divisor. */
  lemma QuotientZero(a: int, b: int)
    requires a >= 0 && b > 0
    ensures a / b >= 0
    ensures a / b == 0 <==> a < b
  {
    var q, m := a / b, a % b;
    assert a == b * q + m && 0 <= m < b;
    if q >= 1 {
      assert b * q >= b;
    }
  }

  /** by(from, size, sort): a non-positive size, and a negative page index
      (PageRequest.of), are IllegalArgumentExceptions. */
  function By(from: int, size: int, sort: Sort): (r: Result<PageRequest>)
    ensures size <= 0 ==> r == Err(IllegalArgument)
    ensures r.Ok? ==> r.value.size == size && r.value.sort == sort && r.value.page >= 0
    ensures size > 0 && from > -size ==> r.Ok?
    ensures size > 0 && from <= -size ==> r == Err(IllegalArgument)
  {
    if size <= 0 then Err(IllegalArgument)
    else
      var page := JavaDiv(from, size);
      QuotientZero(if from >= 0 then from else -from, size);
      if page < 0 then Err(IllegalArgument) else Ok(PageRequest(page, size, sort))
  }

  /** by(from, size): the same, unsorted. */
  function ByUnsorted(from: int, size: int): (r: Result<PageRequest>)
    ensures r == By(from, size, Unsorted)
  {
    By(from, size, Unsorted)
  }

  /** Page.getContent: the elements of `items` that fall on page `p`. */
  function Content<T>(items: seq<T>, p: PageRequest): (r: seq<T>)
    requires p.page >= 0 && p.size > 0
    ensures |r| <= p.size
    ensures forall k :: 0 <= k < |r| ==> p.Offset() + k < |items| && r[k] == items[p.Offset() + k]
    ensures p.Offset() < |items| ==> |r| == if |items| - p.Offset() < p.size then |items| - p.Offset() else p.size
    ensures p.Offset() >= |items| ==> r == []
  {
    if p.Offset() >= |items| then []
    else if |items| - p.Offset() < p.size then items[p.Offset()..]
    else items[p.Offset()..p.Offset() + p.size]
  }

  /** A page holds elements of the list it is cut from. */
  lemma PageMembers<T>(s: seq<T>, page: PageRequest)
    requires page.page >= 0 && page.size > 0
    ensures forall x :: x in Content(s, page) ==> x in s
  {
    var content := Content(s, page);
    forall x | x in content
      ensures x in s
    {
      var k :| 0 <= k < |content| && content[k] == x;
      assert s[page.Offset() + k] == x;
    }
  }

  /** A page of a sorted list is sorted. */
  lemma PageSorted<T>(s: seq<T>, key: T -> int, page: PageRequest)
    requires page.page >= 0 && page.size > 0
    requires SortedDesc(s, key)
    ensures SortedDesc(Content(s, page), key)
  {
    var content := Content(s, page);
    forall i, j | 0 <= i < j < |content|
      ensures key(content[i]) >= key(content[j])
    {
      assert content[i] == s[page.Offset() + i] && content[j] == s[page.Offset() + j];
    }
  }

  /** A page of a list sorted by `key` holds elements of the list, in the
      same order. */
  lemma SortedPage<T>(s: seq<T>, key: T -> int, page: PageRequest)
    requires page.page >= 0 && page.size > 0
    ensures forall x :: x in Content(SortDesc(s, key), page) ==> x in s
    ensures SortedDesc(Content(SortDesc(s, key), page), key)
  {
    var sorted := SortDesc(s, key);
    SortDescSorted(s, key);
    PageSorted(sorted, key, page);
    PageMembers(sorted, page);
    forall x | x in sorted
      ensures x in s
    {
      assert x in multiset(sorted);
    }
  }

  /** For a non-negative offset the element at position `from` lies on the
      page returned, and the page starts exactly at `from` when `from` is a
      multiple of `size`. */
  lemma PageContainsOffset(from: int, size: int, sort: Sort)
    requires from >= 0 && size > 0
    ensures By(from, size, sort).Ok?
    ensures var p := By(from, size, sort).value;
      p.Offset() <= from < p.Offset() + size
      && (p.Offset() == from <==> from % size == 0)
  {
    var p := By(from, size, sort).value;
    assert p.page == from / size;
    assert from == p.page * size + from % size;
  }

  /** An offset below one page is the first page. */
  lemma SmallOffsetIsFirstPage(from: int, size: int, sort: Sort)
    requires 0 <= from < size
    ensures By(from, size, sort) == Ok(PageRequest(0, size, sort))
  {
  }

  /** Because the division truncates, a negative offset above `-size` is
      still the first page rather than an error. */
  lemma NegativeOffsetTruncates()
    ensures By(-5, 10, Unsorted) == Ok(PageRequest(0, 10, Unsorted))
    ensures By(-10, 10, Unsorted) == Err(IllegalArgument)
  {
  }
}
