/** Identifiers, handler outcomes and the page/limit rules that every list
    handler of the API shares. */
module Common {

  /** A document identifier. Handlers only compare identifiers for equality;
      the store hands out fresh ones from a counter. */
  type Id = nat

  /** A point in time in milliseconds, passed in where the handlers call Date.now(). */
  type Time = int

  datatype Option<T> = None | Some(value: T)

  /** The kind of response a handler sends. `Failed` is an error handed to the
      error-handling middleware through next(err): a schema validation error or a
      query the database refuses. */
  datatype Outcome = Ok | NotFound | Unauthorized | BadRequest | Failed

  /** The reply of a read-only handler: the data it sends, or the kind of
      error response it sends instead. */
  datatype Response<T> = Success(data: T) | Refused(outcome: Outcome)

  function Abs(x: int): (r: nat)
    ensures r == x || r == -x
  {
    if x < 0 then -x else x
  }

  /** A numeric query value with its default: a value that does not parse (None) or parses
      to 0 falls back to the default d; any other value, negative ones included,
      is kept. */
  function OrDefault(raw: Option<int>, d: int): (v: int)
    ensures raw.Some? && raw.value != 0 ==> v == raw.value
    ensures raw.None? || raw.value == 0 ==> v == d
  {
    if raw.Some? && raw.value != 0 then raw.value else d
  }

  lemma OrDefaultNeverZero(raw: Option<int>, d: int)
    requires d != 0
    ensures OrDefault(raw, d) != 0
  {
  }

  /** The page-and-limit objects of a pagination descriptor. */
  datatype PageRef = PageRef(page: int, limit: int)
  datatype Pagination = Pagination(next: Option<PageRef>, prev: Option<PageRef>)

  /** The pagination descriptor every list handler builds from
      startIndex = (page - 1) * limit and endIndex = page * limit. */
  function Paginate(page: int, limit: int, total: int): (p: Pagination)
    ensures p.next.Some? ==> p.next.value == PageRef(page + 1, limit)
    ensures p.prev.Some? ==> p.prev.value == PageRef(page - 1, limit)
  {
    Pagination(
      if page * limit < total then Some(PageRef(page + 1, limit)) else None,
      if (page - 1) * limit > 0 then Some(PageRef(page - 1, limit)) else None)
  }

  /** With a positive limit, `prev` is offered exactly on the pages after the first. */
  lemma {:induction false} PrevIffLaterPage(page: int, limit: int, total: int)
    requires limit >= 1
    ensures Paginate(page, limit, total).prev.Some? <==> page > 1
  {
    ProductSign(page - 1, limit);
  }

  lemma {:induction false} ProductSign(a: int, b: nat)
    ensures a > 0 && b > 0 ==> a * b > 0
    ensures a <= 0 ==> a * b <= 0
  {
    if b > 0 {
      ProductSign(a, b - 1);
      assert a * b == a * (b - 1) + a;
    }
  }

  /** With a positive limit, `next` is offered exactly when `total` exceeds the
      last position the current page can hold. */
  lemma {:induction false} NextIffMoreThanPage(page: int, limit: int, total: int)
    requires page >= 1 && limit >= 1
    ensures Paginate(page, limit, total).next.Some? <==> total > (page - 1) * limit + limit
  {
    assert (page - 1) * limit + limit == page * limit;
  }

  /** MongoDB's skip and limit on a cursor: a negative limit returns
      at most |limit| documents in one batch and a limit of 0 means no limit. */
  function Window<T>(s: seq<T>, skip: nat, limit: int): (w: seq<T>)
    ensures |w| <= |s|
    ensures limit != 0 ==> |w| <= Abs(limit)
    ensures skip >= |s| ==> w == []
    ensures skip < |s| ==> skip + |w| <= |s| && w == s[skip..skip + |w|]
    ensures skip < |s| && limit != 0 && skip + Abs(limit) <= |s| ==> |w| == Abs(limit)
    ensures skip < |s| && (limit == 0 || skip + Abs(limit) > |s|) ==> skip + |w| == |s|
  {
    if skip >= |s| then []
    else if limit == 0 || skip + Abs(limit) > |s| then s[skip..]
    else s[skip..skip + Abs(limit)]
  }

  /** One page of a list response: the documents and the pagination descriptor. */
  datatype Page<T> = Page(items: seq<T>, pagination: Pagination)

  /** The shared page/limit logic of a list handler over the already filtered
      and ordered documents `s`, with `total` the count the handler reports
      against. None when the skip is negative, which the database refuses. */
  function Paged<T>(s: seq<T>, rawPage: Option<int>, rawLimit: Option<int>, total: int): (r: Option<Page<T>>)
    ensures var page, limit := OrDefault(rawPage, 1), OrDefault(rawLimit, 10);
      && (r.None? <==> (page - 1) * limit < 0)
      && (r.Some? ==>
            && r.value.items == Window(s, (page - 1) * limit, limit)
            && r.value.pagination == Paginate(page, limit, total))
  {
    var page := OrDefault(rawPage, 1);
    var limit := OrDefault(rawLimit, 10);
    var startIndex := (page - 1) * limit;
    if startIndex < 0 then None
    else Some(Page(Window(s, startIndex, limit), Paginate(page, limit, total)))
  }

  /** For page >= 1 and limit >= 1 a page holds at most `limit` documents, the
      ones at positions (page - 1) * limit onwards. */
  lemma {:induction false} PagedWindow<T>(s: seq<T>, page: int, limit: int, total: int)
    requires page >= 1 && limit >= 1
    ensures var r := Paged(s, Some(page), Some(limit), total);
      && r.Some?
      && |r.value.items| <= limit
      && forall i :: 0 <= i < |r.value.items| ==> r.value.items[i] == s[(page - 1) * limit + i]
  {
    ProductSign(page - 1, limit);
    var skip := (page - 1) * limit;
    assert skip >= 0;
    var w := Window(s, skip, limit);
    assert Paged(s, Some(page), Some(limit), total) == Some(Page(w, Paginate(page, limit, total)));
  }
}
