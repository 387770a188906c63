/** Offset-based pagination of a listing: a 1-based page number selects a
    window of at most `limit` entries, and the page count is the ceiling of the
    listing's length over `limit`. The list handler uses it with `Limit`. */
module Pagination {
  import opened Wrappers

  /** The page size the list handler hard-codes. */
  const Limit: nat := 1

  /** The number of entries before the first one of `page`. */
  function Offset(page: int, limit: nat): int {
    (page - 1) * limit
  }

  /** The offset of a page is non-negative exactly for pages numbered from 1. */
  lemma OffsetSign(page: int, limit: nat)
    requires limit > 0
    ensures Offset(page, limit) >= 0 <==> page >= 1
  {
    if page >= 1 {
      assert (page - 1) * limit >= 0;
    } else {
      assert (page - 1) * limit <= -1 * limit;
    }
  }

  /** The ceiling of `total / limit`, computed in exact integer arithmetic. */
  function CeilDiv(total: nat, limit: nat): (n: nat)
    requires limit > 0
    ensures n * limit >= total
    ensures (n - 1) * limit < total || n == 0
  {
    if total == 0 then 0
    else 1 + CeilDiv(if total <= limit then 0 else total - limit, limit)
  }

  /** The at most `limit` entries of `listing` from position `start` on. */
  function Window<T>(listing: seq<T>, start: nat, limit: nat): (w: seq<T>)
    ensures |w| <= limit
    ensures start + |w| <= |listing| || |w| == 0
    ensures forall i :: 0 <= i < |w| ==> w[i] == listing[start + i]
    ensures |w| < limit ==> start + |w| >= |listing|
  {
    if start >= |listing| then []
    else if start + limit >= |listing| then listing[start..]
    else listing[start..start + limit]
  }

  /** The entries of `page`: those at positions `Offset(page, limit)` up to
      (excluding) `Offset(page, limit) + limit`. A negative offset is refused
      by the document store, modelled as `None`. */
  function PageOf<T>(listing: seq<T>, page: int, limit: nat): (r: Option<seq<T>>)
    requires limit > 0
    ensures r.Some? <==> page >= 1
    ensures r.Some? ==> |r.value| <= limit
    ensures r.Some? ==> Offset(page, limit) + |r.value| <= |listing| || |r.value| == 0
    ensures r.Some? ==> forall i :: 0 <= i < |r.value| ==> r.value[i] == listing[Offset(page, limit) + i]
    ensures r.Some? && |r.value| < limit ==> Offset(page, limit) + |r.value| >= |listing|
  {
    var start := Offset(page, limit);
    OffsetSign(page, limit);
    if start < 0 then None else Some(Window(listing, start, limit))
  }

  /** Multiplying by a non-negative factor keeps order. */
  lemma MulMonotone(a: int, b: int, c: nat)
    requires a <= b
    ensures a * c <= b * c
  {
    assert b * c - a * c == (b - a) * c;
  }

  /** A page holds entries exactly when its number lies between 1 and the
      page count reported beside it. */
  lemma PageNonEmptyIff<T>(listing: seq<T>, page: int, limit: nat)
    requires limit > 0
    ensures (PageOf(listing, page, limit).Some? && |PageOf(listing, page, limit).value| > 0)
        <==> 1 <= page <= CeilDiv(|listing|, limit)
  {
    var n := CeilDiv(|listing|, limit);
    var r := PageOf(listing, page, limit);
    if page >= 1 {
      assert |r.value| > 0 <==> Offset(page, limit) < |listing|;
      if page <= n {
        MulMonotone(page - 1, n - 1, limit);
      } else {
        MulMonotone(n, page - 1, limit);
      }
    }
  }

  /** The concatenation of pages 1 to `k`. */
  function Pages<T>(listing: seq<T>, limit: nat, k: nat): seq<T>
    requires limit > 0
  {
    if k == 0 then [] else Pages(listing, limit, k - 1) + PageOf(listing, k, limit).value
  }

  function Min(a: int, b: int): int {
    if a <= b then a else b
  }

  /** Page `k + 1` starts one page size after page `k`, and never before the
      listing. */
  lemma NextOffset(k: nat, limit: nat)
    requires limit > 0
    ensures Offset(k + 1, limit) == Offset(k, limit) + limit
    ensures k > 0 ==> Offset(k, limit) >= 0
  {
    MulMonotone(0, k, limit);
  }

  /** The entries of page `k`, written as one slice of the listing. */
  lemma PageSlice<T>(listing: seq<T>, k: nat, limit: nat)
    requires k > 0 && limit > 0
    ensures Offset(k, limit) >= 0
    ensures PageOf(listing, k, limit).value
         == listing[Min(Offset(k, limit), |listing|)..Min(Offset(k, limit) + limit, |listing|)]
  {
    OffsetSign(k, limit);
  }

  /** Adjacent slices of a prefix join up. */
  lemma JoinSlices<T>(s: seq<T>, a: nat, b: nat)
    requires a <= b <= |s|
    ensures s[..a] + s[a..b] == s[..b]
  {
  }

  /** Pages 1 to `k` together are the listing up to where page `k + 1` would
      start, in order. */
  lemma {:induction false} PagesArePrefix<T>(listing: seq<T>, limit: nat, k: nat)
    requires limit > 0
    ensures Pages(listing, limit, k) == listing[..Min(Offset(k + 1, limit), |listing|)]
  {
    NextOffset(k, limit);
    if k == 0 {
      assert Offset(1, limit) == 0;
    } else {
      PagesArePrefix(listing, limit, k - 1);
      PageSlice(listing, k, limit);
      var start := Offset(k, limit);
      var a := Min(start, |listing|);
      var b := Min(start + limit, |listing|);
      var prev := Pages(listing, limit, k - 1);
      var page := PageOf(listing, k, limit).value;
      assert Pages(listing, limit, k) == prev + page;
      assert prev == listing[..a];
      assert page == listing[a..b];
      JoinSlices(listing, a, b);
    }
  }

  /** Walking pages 1 to the reported page count visits every entry of the
      listing exactly once and in order. */
  lemma PagesCoverListing<T>(listing: seq<T>, limit: nat)
    requires limit > 0
    ensures Pages(listing, limit, CeilDiv(|listing|, limit)) == listing
  {
    var n := CeilDiv(|listing|, limit);
    PagesArePrefix(listing, limit, n);
    assert Offset(n + 1, limit) == n * limit;
  }

  /** With the hard-coded page size of one, the page count is the number of
      entries and page `p` holds exactly the `p`-th entry. */
  lemma UnitPages<T>(listing: seq<T>, page: int)
    ensures CeilDiv(|listing|, Limit) == |listing|
    ensures 1 <= page <= |listing| ==> PageOf(listing, page, Limit) == Some([listing[page - 1]])
    ensures page > |listing| ==> PageOf(listing, page, Limit) == Some([])
  {
    assert Offset(page, Limit) == page - 1;
    if 1 <= page <= |listing| {
      var r := PageOf(listing, page, Limit).value;
      assert |r| == 1 && r[0] == listing[page - 1];
      assert r == [listing[page - 1]];
    }
  }
}
