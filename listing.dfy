/** The list endpoints' query arithmetic: the page window that
    `findAndCountAll` returns for `LIMIT limit OFFSET (page-1)*limit`, the
    `totalPages` figure of the pagination envelope, and the whitelists that
    normalise the `sortBy` and `sortOrder` parameters. */
module Listing {
  import opened Common

  /** Defaults of the `page` and `limit` query parameters. */
  const DefaultPage: nat := 1
  const DefaultLimit: nat := 10

  /** Sort columns accepted by the product list. */
  const ProductSortFields: seq<string> := ["title", "createdAt", "updatedAt"]
  /** Sort columns accepted by the user list. */
  const UserSortFields: seq<string> := ["firstName", "lastName", "email", "createdAt", "updatedAt"]
  const DefaultSortField: string := "createdAt"
  const SortOrders: seq<string> := ["ASC", "DESC"]
  const DefaultSortOrder: string := "DESC"

  /** The query parameters for which the arithmetic is defined: a first
      page of 1 and at least one row per page. */
  predicate ValidPaging(page: nat, limit: nat) {
    page >= 1 && limit >= 1
  }

  /** `offset = (page - 1) * limit`. */
  function Offset(page: nat, limit: nat): nat
    requires page >= 1
  {
    (page - 1) * limit
  }

  /** `Math.ceil(count / limit)`: the least number of pages of `limit` rows
      that hold `count` rows. */
  function TotalPages(count: nat, limit: nat): (t: nat)
    requires limit >= 1
    ensures t * limit >= count
    ensures t == 0 || (t - 1) * limit < count
    ensures t == 0 <==> count == 0
  {
    var t := (count + limit - 1) / limit;
    var rem := (count + limit - 1) % limit;
    assert t * limit + rem == count + limit - 1;
    assert t == 0 || (t - 1) * limit == t * limit - limit;
    t
  }

  /** The rows of one page: at most `limit` consecutive rows starting at
      the offset, fewer on the last page, none past the end. */
  function PageOf<T>(items: seq<T>, page: nat, limit: nat): (r: seq<T>)
    requires page >= 1
    ensures |r| == if Offset(page, limit) >= |items| then 0
                   else Min(limit, |items| - Offset(page, limit))
    ensures forall k :: 0 <= k < |r| ==> r[k] == items[Offset(page, limit) + k]
  {
    var o := Offset(page, limit);
    if o >= |items| then [] else items[o .. o + Min(limit, |items| - o)]
  }

  function Min(a: nat, b: nat): nat {
    if a <= b then a else b
  }

  lemma MulLess(a: nat, b: nat, c: nat)
    requires c >= 1 && a * c < b * c
    ensures a < b
  {
    if a >= b {
      MulMono(b, a, c);
    }
  }

  lemma MulMono(a: nat, b: nat, c: nat)
    requires a <= b
    ensures a * c <= b * c
  {
    assert b * c == a * c + (b - a) * c;
  }

  /** A page has rows exactly when its number is at most `totalPages`. */
  lemma PageNonEmpty<T>(items: seq<T>, page: nat, limit: nat)
    requires page >= 1 && limit >= 1
    ensures |PageOf(items, page, limit)| > 0 <==> page <= TotalPages(|items|, limit)
  {
    var t := TotalPages(|items|, limit);
    if page <= t {
      MulMono(page - 1, t - 1, limit);
    }
    if (page - 1) * limit < |items| {
      MulLess(page - 1, t, limit);
    }
  }

  /** The first `n` pages laid end to end. */
  function Pages<T>(items: seq<T>, limit: nat, n: nat): seq<T>
  {
    if n == 0 then [] else Pages(items, limit, n - 1) + PageOf(items, n, limit)
  }

  /** The first `n` pages are the first `n * limit` rows. */
  lemma {:induction false} PagesPrefix<T>(items: seq<T>, limit: nat, n: nat)
    ensures Pages(items, limit, n) == items[..Min(n * limit, |items|)]
  {
    if n > 0 {
      PagesPrefix(items, limit, n - 1);
      var o := (n - 1) * limit;
      assert n * limit == o + limit;
      var p := PageOf(items, n, limit);
      if o >= |items| {
        assert p == [];
        assert Min(n * limit, |items|) == |items|;
      } else {
        var e := Min(n * limit, |items|);
        assert p == items[o..e];
        assert items[..o] + items[o..e] == items[..e];
      }
    }
  }

  /** `OFFSET (page - 1) * limit` skips exactly the rows of the earlier
      pages. */
  lemma OffsetSkipsEarlierPages<T>(items: seq<T>, page: nat, limit: nat)
    requires page >= 1
    ensures Pages(items, limit, page - 1) == items[..Min(Offset(page, limit), |items|)]
    ensures Pages(items, limit, page - 1) + PageOf(items, page, limit) == Pages(items, limit, page)
  {
    PagesPrefix(items, limit, page - 1);
  }

  /** Walking pages 1 to `totalPages` yields every row once, in order. */
  lemma PagesCoverAll<T>(items: seq<T>, limit: nat)
    requires limit >= 1
    ensures Pages(items, limit, TotalPages(|items|, limit)) == items
  {
    PagesPrefix(items, limit, TotalPages(|items|, limit));
  }

  /** The pagination envelope of a list response. */
  datatype Pagination = Pagination(currentPage: nat, totalPages: nat, totalItems: nat, itemsPerPage: nat)

  /** Page and limit default to 1 and 10 when absent. */
  function Paginate(count: nat, page: Option<nat>, limit: Option<nat>): (p: Pagination)
    requires ValidPaging(page.GetOr(DefaultPage), limit.GetOr(DefaultLimit))
    ensures p.totalItems == count
    ensures p.currentPage == (if page.Some? then page.value else 1)
    ensures p.itemsPerPage == (if limit.Some? then limit.value else 10)
    ensures p.totalPages * p.itemsPerPage >= count
    ensures p.totalPages == 0 || (p.totalPages - 1) * p.itemsPerPage < count
  {
    var l := limit.GetOr(DefaultLimit);
    Pagination(page.GetOr(DefaultPage), TotalPages(count, l), count, l)
  }

  /** `sortBy`: a whitelisted column is kept, anything else, including an
      absent parameter, becomes `createdAt`. */
  function SortField(allowed: seq<string>, sortBy: Option<string>): (f: string)
    ensures sortBy.Some? && sortBy.value in allowed ==> f == sortBy.value
    ensures !(sortBy.Some? && sortBy.value in allowed) ==> f == DefaultSortField
    ensures DefaultSortField in allowed ==> f in allowed
  {
    var s := sortBy.GetOr(DefaultSortField);
    if s in allowed then s else DefaultSortField
  }

  /** Both lists whitelist `createdAt`, so either list's normalised column
      is one of its own. */
  lemma SortFieldWhitelisted(sortBy: Option<string>)
    ensures SortField(ProductSortFields, sortBy) in ProductSortFields
    ensures SortField(UserSortFields, sortBy) in UserSortFields
  {
    assert ProductSortFields[1] == DefaultSortField;
    assert UserSortFields[3] == DefaultSortField;
  }

  /** `sortOrder`: compared after `toUpperCase`, so any letter case of ASC
      or DESC is accepted and reported in upper case; anything else
      becomes DESC. */
  function SortOrder(sortOrder: Option<string>): (o: string)
    ensures o in SortOrders
    ensures Upper(sortOrder.GetOr(DefaultSortOrder)) in SortOrders ==>
      o == Upper(sortOrder.GetOr(DefaultSortOrder))
    ensures Upper(sortOrder.GetOr(DefaultSortOrder)) !in SortOrders ==> o == DefaultSortOrder
  {
    var u := Upper(sortOrder.GetOr(DefaultSortOrder));
    if u in SortOrders then u else DefaultSortOrder
  }

  /** `String.prototype.toUpperCase` on ASCII letters. */
  function UpperChar(c: char): char {
    if 'a' <= c <= 'z' then (c as int - 32) as char else c
  }

  function Upper(s: string): (u: string)
    ensures |u| == |s|
    ensures forall i :: 0 <= i < |s| ==> u[i] == UpperChar(s[i])
  {
    if s == [] then [] else [UpperChar(s[0])] + Upper(s[1..])
  }

  /** Two strings that differ only in letter case sort the same way. */
  lemma SortOrderIgnoresCase(s: string, t: string)
    requires |s| == |t| && forall i :: 0 <= i < |s| ==> UpperChar(s[i]) == UpperChar(t[i])
    ensures SortOrder(Some(s)) == SortOrder(Some(t))
  {
    assert Upper(s) == Upper(t);
  }

  /** A normalised sort order is a fixed point. */
  lemma SortOrderIdempotent(sortOrder: Option<string>)
    ensures SortOrder(Some(SortOrder(sortOrder))) == SortOrder(sortOrder)
  {
    assert Upper("ASC") == "ASC";
    assert Upper("DESC") == "DESC";
  }
}
