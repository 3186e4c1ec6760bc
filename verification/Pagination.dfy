/** Pages of an ordered result: two page counts, one slice, and the walk that follows has_next. */
module Pagination {
  import opened Wrappers

  function Max(a: int, b: int): int { if a < b then b else a }
  function Min(a: int, b: int): int { if a < b then a else b }

  datatype Info = Info(total: int, page: int, perPage: int, totalPages: int, hasNext: bool, hasPrev: bool)

  datatype Response<E> = Response(items: seq<E>, pagination: Info)

  /** The page count of the user views. */
  function TotalPages(total: int, perPage: int): int {
    if perPage > 0 then Max(1, (total + perPage - 1) / perPage) else 1
  }

  function PaginatedResponse<E>(items: seq<E>, total: int, page: int, perPage: int): Response<E> {
    var pages := TotalPages(total, perPage);
    Response(items, Info(total, page, perPage, pages, page < pages, page > 1))
  }

  /** Rounding up, as math.ceil does. */
  function Ceil(x: real): int {
    -(-x).Floor
  }

  /** The page count of the generic schema. */
  function SchemaTotalPages(total: int, pageSize: int): int {
    if total > 0 && pageSize > 0 then Ceil(total as real / pageSize as real) else 1
  }

  /** The schema's parameters are validated. */
  datatype Params = Params(page: int, pageSize: int)
  {
    predicate Valid() { 1 <= page && 1 <= pageSize <= 100 }

    function Skip(): int { (page - 1) * pageSize }
  }

  function SchemaResponse<E>(items: seq<E>, total: int, params: Params): Response<E> {
    var pages := SchemaTotalPages(total, params.pageSize);
    Response(items, Info(total, params.page, params.pageSize, pages, params.page < pages, params.page > 1))
  }

  /** A slice of a query; a negative bound is an error. */
  function Slice<T>(rows: seq<T>, start: int, stop: int): Option<seq<T>> {
    if start < 0 || stop < 0 then None
    else
      var from := Min(start, |rows|);
      Some(rows[from..Max(from, Min(stop, |rows|))])
  }

  function Map<T, E>(toEntity: T -> E, rows: seq<T>): seq<E> {
    seq(|rows|, i requires 0 <= i < |rows| => toEntity(rows[i]))
  }

  /** What a page query answers: its entities and the total. Errors are logged and answered by nothing at all. */
  function PageOf<T, E>(toEntity: T -> E, rows: seq<T>, page: int, perPage: int): (seq<E>, int) {
    var offset := (page - 1) * perPage;
    var users := Slice(rows, offset, offset + perPage);
    if users.Some? then (Map(toEntity, users.value), |rows|) else ([], 0)
  }

  method GetPaginated<T, E>(toEntity: T -> E, rows: seq<T>, page: int, perPage: int)
    returns (users: seq<E>, total: int)
    ensures (users, total) == PageOf(toEntity, rows, page, perPage)
  {
    var offset := (page - 1) * perPage;
    var found := Slice(rows, offset, offset + perPage);
    if found.None? {
      return [], 0;
    }
    users := [];
    for i := 0 to |found.value|
      invariant users == Map(toEntity, found.value[..i])
    {
      users := users + [toEntity(found.value[i])];
    }
    assert found.value[..|found.value|] == found.value;
    total := |rows|;
  }

  /** The response for a page, and the entities that a client collects by following has_next from it. */
  function Serve<T, E>(toEntity: T -> E, rows: seq<T>, page: int, perPage: int): Response<E> {
    var answer := PageOf(toEntity, rows, page, perPage);
    PaginatedResponse(answer.0, answer.1, page, perPage)
  }

  function Walk<T, E>(toEntity: T -> E, rows: seq<T>, page: int, perPage: int): seq<Response<E>>
    decreases Max(TotalPages(|rows|, perPage), 1) - page
  {
    var response := Serve(toEntity, rows, page, perPage);
    if response.pagination.hasNext then [response] + Walk(toEntity, rows, page + 1, perPage) else [response]
  }

  function Collected<E>(responses: seq<Response<E>>): seq<E> {
    if responses == [] then [] else responses[0].items + Collected(responses[1..])
  }

  // ---- Page counts ----

  lemma DivBounds(n: int, d: int, q: int)
    requires d > 0 && q * d <= n < (q + 1) * d
    ensures n / d == q
  {
    var r := n - q * d;
    assert n == q * d + r && 0 <= r < d;
    if n / d < q {
      LessTimes(n / d + 1, q, d);
    } else if n / d > q {
      LessTimes(q + 1, n / d, d);
    }
  }

  lemma LessTimes(a: int, b: int, d: int)
    requires a <= b && d >= 0
    ensures a * d <= b * d
  {
  }

  /** The page count is the least number of pages with room for everything, but at least one. */
  lemma TotalPagesIsLeast(total: int, perPage: int, pages: int)
    requires perPage > 0
    ensures TotalPages(total, perPage) <= pages <==> 1 <= pages && total <= pages * perPage
  {
    var n := total + perPage - 1;
    var q := n / perPage;
    assert q * perPage <= n < (q + 1) * perPage;
    if q <= pages {
      LessTimes(q, pages, perPage);
    } else {
      LessTimes(pages + 1, q, perPage);
    }
  }

  lemma CeilIsLeast(total: int, size: int, pages: int)
    requires size > 0
    ensures Ceil(total as real / size as real) <= pages <==> total <= pages * size
  {
    var x, s := total as real / size as real, size as real;
    assert x * s == total as real;
    assert (pages * size) as real == pages as real * s;
    if x <= pages as real {
      RealLessTimes(x, pages as real, s);
    } else {
      RealLessTimes(pages as real, x, s);
      assert x * s > pages as real * s;
    }
  }

  lemma RealLessTimes(a: real, b: real, s: real)
    requires a <= b && s > 0.0
    ensures a * s <= b * s && (a < b ==> a * s < b * s)
  {
  }

  /** The two formulas agree on every total and every page size, so the two responses do. */
  lemma PageCountsAgree(total: int, size: int)
    ensures TotalPages(total, size) == SchemaTotalPages(total, size)
    ensures size <= 0 ==> TotalPages(total, size) == 1
  {
    if size > 0 {
      var a, b := TotalPages(total, size), SchemaTotalPages(total, size);
      TotalPagesIsLeast(total, size, a);
      TotalPagesIsLeast(total, size, b);
      TotalPagesIsLeast(total, size, 1);
      CeilIsLeast(total, size, a);
      CeilIsLeast(total, size, b);
      CeilIsLeast(total, size, 0);
    }
  }

  // ---- Pages of a result ----

  lemma OffsetOf(page: int, perPage: int)
    requires page >= 1 && perPage >= 1
    ensures (page - 1) * perPage >= 0 && (page - 1) * perPage + perPage == page * perPage
  {
  }

  /** A page holds the items from its offset on, as many as fit. */
  lemma PageHolds<T, E>(toEntity: T -> E, rows: seq<T>, page: int, perPage: int)
    requires page >= 1 && perPage >= 1
    ensures var offset := (page - 1) * perPage;
      && 0 <= offset
      && PageOf(toEntity, rows, page, perPage) ==
           (Map(toEntity, rows[Min(offset, |rows|)..Min(page * perPage, |rows|)]), |rows|)
  {
    OffsetOf(page, perPage);
  }

  /** The schema's response over the records from skip on is the one that the views serve. */
  lemma SchemaServesTheSame<T, E>(toEntity: T -> E, rows: seq<T>, params: Params)
    requires params.Valid()
    ensures params.Skip() >= 0
    ensures var from := Min(params.Skip(), |rows|);
      Serve(toEntity, rows, params.page, params.pageSize) ==
        SchemaResponse(Map(toEntity, rows[from..Min(from + params.pageSize, |rows|)]), |rows|, params)
  {
    hide TotalPages, SchemaTotalPages, PageOf;
    PageHolds(toEntity, rows, params.page, params.pageSize);
    PageCountsAgree(|rows|, params.pageSize);
    OffsetOf(params.page, params.pageSize);
    assert Min(Min(params.Skip(), |rows|) + params.pageSize, |rows|) == Min(params.page * params.pageSize, |rows|);
  }

  /** There is a next page exactly when items are left. */
  lemma HasNextExactly<T, E>(toEntity: T -> E, rows: seq<T>, page: int, perPage: int)
    requires page >= 1 && perPage >= 1
    ensures Serve(toEntity, rows, page, perPage).pagination.hasNext <==> page * perPage < |rows|
  {
    PageHolds(toEntity, rows, page, perPage);
    TotalPagesIsLeast(|rows|, perPage, page);
  }

  /** The fields of a response: the total, the page asked for and its size, the least number of pages with room for
      everything, and whether items lie before and after the page. */
  lemma ServedFields<T, E>(toEntity: T -> E, rows: seq<T>, page: int, perPage: int, pages: int)
    requires page >= 1 && perPage >= 1
    ensures var info := Serve(toEntity, rows, page, perPage).pagination;
      && info.total == |rows| && info.page == page && info.perPage == perPage
      && (info.totalPages <= pages <==> 1 <= pages && |rows| <= pages * perPage)
      && (info.hasPrev <==> (page - 1) * perPage > 0)
      && (info.hasNext <==> page * perPage < |rows|)
  {
    PageHolds(toEntity, rows, page, perPage);
    TotalPagesIsLeast(|rows|, perPage, pages);
    HasNextExactly(toEntity, rows, page, perPage);
    if page > 1 {
      LessTimes(1, page - 1, perPage);
    }
  }

  /** A page that begins or ends before the first item is an error, answered by nothing and a total of zero. */
  lemma NegativeBounds<T, E>(toEntity: T -> E, rows: seq<T>, page: int, perPage: int)
    requires (page - 1) * perPage < 0 || page * perPage < 0
    ensures PageOf(toEntity, rows, page, perPage) == ([], 0)
  {
    assert page * perPage == (page - 1) * perPage + perPage;
  }

  lemma PageOfItem(i: nat, page: int, perPage: int)
    requires page >= 1 && perPage >= 1
    ensures (page - 1) * perPage <= i < page * perPage <==> page == i / perPage + 1
  {
    if (page - 1) * perPage <= i < page * perPage {
      DivBounds(i, perPage, page - 1);
    }
  }

  /** Every item is on exactly one page, at one place. */
  lemma EachItemOnOnePage<T, E>(toEntity: T -> E, rows: seq<T>, i: nat, page: int, perPage: int)
    requires i < |rows| && page >= 1 && perPage >= 1
    ensures (page - 1) * perPage <= i < page * perPage <==> page == i / perPage + 1
    ensures var items := PageOf(toEntity, rows, page, perPage).0;
      page == i / perPage + 1 ==> i % perPage < |items| && items[i % perPage] == toEntity(rows[i])
  {
    hide PageOf;
    PageHolds(toEntity, rows, page, perPage);
    PageOfItem(i, page, perPage);
    var offset := (page - 1) * perPage;
    if page == i / perPage + 1 {
      assert i - offset == i % perPage;
      var held := rows[offset..Min(page * perPage, |rows|)];
      assert held[i - offset] == rows[i];
    }
  }

  lemma MapJoin<T, E>(toEntity: T -> E, a: seq<T>, b: seq<T>)
    ensures Map(toEntity, a) + Map(toEntity, b) == Map(toEntity, a + b)
  {
  }

  /** Following has_next from any page collects exactly the items from that page's offset on, in order. */
  lemma {:induction false} WalkCollects<T, E>(toEntity: T -> E, rows: seq<T>, page: int, perPage: int)
    requires page >= 1 && perPage >= 1
    ensures (page - 1) * perPage >= 0
    ensures Collected(Walk(toEntity, rows, page, perPage)) ==
      Map(toEntity, rows[Min((page - 1) * perPage, |rows|)..])
    ensures |Walk(toEntity, rows, page, perPage)| == Max(TotalPages(|rows|, perPage) - page + 1, 1)
    decreases Max(TotalPages(|rows|, perPage), 1) - page
  {
    OffsetOf(page, perPage);
    PageHolds(toEntity, rows, page, perPage);
    HasNextExactly(toEntity, rows, page, perPage);
    var response := Serve(toEntity, rows, page, perPage);
    var from := Min((page - 1) * perPage, |rows|);
    if response.pagination.hasNext {
      WalkCollects(toEntity, rows, page + 1, perPage);
      var rest := Walk(toEntity, rows, page + 1, perPage);
      assert ([response] + rest)[1..] == rest;
      MapJoin(toEntity, rows[from..page * perPage], rows[page * perPage..]);
      assert rows[from..page * perPage] + rows[page * perPage..] == rows[from..];
    } else {
      assert Collected([response]) == response.items + Collected([]);
      assert response.items == Map(toEntity, rows[from..|rows|]);
    }
  }

  /** From the first page the walk visits every page and collects the whole result, once and in order, exactly
      when the page size is positive or there is nothing to collect. */
  lemma WalkCollectsEverything<T, E>(toEntity: T -> E, rows: seq<T>, perPage: int)
    ensures |Walk(toEntity, rows, 1, perPage)| == TotalPages(|rows|, perPage)
    ensures Collected(Walk(toEntity, rows, 1, perPage)) == Map(toEntity, rows) <==> perPage >= 1 || rows == []
  {
    if perPage >= 1 {
      WalkCollects(toEntity, rows, 1, perPage);
      assert rows[0..] == rows;
    } else {
      NothingServed(toEntity, rows, perPage);
    }
  }

  lemma NothingServed<T, E>(toEntity: T -> E, rows: seq<T>, perPage: int)
    requires perPage <= 0
    ensures |Walk(toEntity, rows, 1, perPage)| == 1 && Collected(Walk(toEntity, rows, 1, perPage)) == []
  {
    var response := Serve(toEntity, rows, 1, perPage);
    assert Walk(toEntity, rows, 1, perPage) == [response];
    assert Collected([response]) == response.items + Collected([]);
  }
}
