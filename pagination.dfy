/**
  Pagination arithmetic of the note listing: how a 1-based page number and a
  page size select a run of matching notes, and the metadata (total count,
  number of pages, clamped current page) that accompanies that run.
*/
module Pagination {

  function Min(a: int, b: int): int { if a <= b then a else b }

  /**
    Number of matching documents passed over before the requested page; for a
    positive page size it is negative exactly when the page is below 1.
  */
  function Skip(page: int, limit: int): (r: int)
    ensures limit > 0 ==> (r >= 0 <==> page >= 1)
  {
    SkipSign(page, limit);
    (page - 1) * limit
  }

  lemma SkipSign(page: int, limit: int)
    ensures limit > 0 ==> ((page - 1) * limit >= 0 <==> page >= 1)
  {
    if limit > 0 {
      if page >= 1 {
        MulMonotone(0, page - 1, limit);
      } else {
        MulMonotone(page - 1, -1, limit);
      }
    }
  }

  /** Multiplying by a positive factor keeps the order. */
  lemma MulMonotone(a: int, b: int, limit: int)
    requires a <= b && limit > 0
    ensures a * limit <= b * limit
  {
    assert b * limit - a * limit == (b - a) * limit;
  }

  lemma MulStep(k: int, limit: int)
    ensures k * limit == (k - 1) * limit + limit
  {
  }

  /** Integer ceiling division by a positive divisor brackets its dividend. */
  lemma CeilDivBounds(n: nat, limit: int)
    requires n > 0 && limit > 0
    ensures (n + limit - 1) / limit >= 1
    ensures ((n + limit - 1) / limit - 1) * limit < n <= ((n + limit - 1) / limit) * limit
  {
    var q := (n + limit - 1) / limit;
    var rem := (n + limit - 1) % limit;
    assert n + limit - 1 == q * limit + rem && 0 <= rem < limit;
    assert (q - 1) * limit == q * limit - limit;
    if q < 1 {
      MulMonotone(q, 0, limit);
      assert false;
    }
  }

  /**
    The number of pages: the ceiling of totalNotes / limit, and 0 when nothing
    matches.
  */
  function TotalPages(totalNotes: nat, limit: int): (r: nat)
    requires limit > 0
    ensures r == 0 <==> totalNotes == 0
    ensures totalNotes > 0 ==> (r - 1) * limit < totalNotes <= r * limit
  {
    if totalNotes > 0 then
      CeilDivBounds(totalNotes, limit);
      (totalNotes + limit - 1) / limit
    else 0
  }

  /** The bracket in TotalPages' contract pins the page count down uniquely. */
  lemma TotalPagesIsCeiling(totalNotes: nat, limit: int, k: int)
    requires limit > 0 && totalNotes > 0
    requires (k - 1) * limit < totalNotes <= k * limit
    ensures k == TotalPages(totalNotes, limit)
  {
    var r := TotalPages(totalNotes, limit);
    if k < r {
      MulMonotone(k, r - 1, limit);
    } else if k > r {
      MulMonotone(r, k - 1, limit);
    }
  }

  /** The reported page: the requested one, clamped down to the last page. */
  function CurrentPage(page: int, totalPages: nat): (r: int)
    ensures r <= page && r <= totalPages
    ensures r == page || r == totalPages
  {
    if page > totalPages then totalPages else page
  }

  datatype Metadata = Metadata(totalNotes: nat, totalPages: nat, currentPage: int)

  /**
    The metadata object of one listing reply: the match count, the page
    count, and the requested page clamped to the last one.
  */
  function MetadataFor(totalNotes: nat, page: int, limit: int): (m: Metadata)
    requires limit > 0
    ensures m.totalNotes == totalNotes && m.totalPages == TotalPages(totalNotes, limit)
    ensures m.currentPage <= m.totalPages
    ensures page <= m.totalPages ==> m.currentPage == page
    ensures page > m.totalPages ==> m.currentPage == m.totalPages
  {
    var pages := TotalPages(totalNotes, limit);
    Metadata(totalNotes, pages, CurrentPage(page, pages))
  }

  /**
    What the store returns for `skip` followed by a positive `limit`: the
    documents from position `skip` on, at most `limit` of them.
  */
  function PageOf<T>(s: seq<T>, skip: nat, limit: int): (r: seq<T>)
    requires limit > 0
    ensures |r| == if skip >= |s| then 0 else Min(limit, |s| - skip)
    ensures forall i :: 0 <= i < |r| ==> r[i] == s[skip + i]
  {
    if skip >= |s| then [] else s[skip..Min(skip + limit, |s|)]
  }

  /** Pages 1 through k, one after the other. */
  function Pages<T>(s: seq<T>, limit: int, k: nat): seq<T>
    requires limit > 0
  {
    if k == 0 then []
    else
      MulMonotone(0, k - 1, limit);
      Pages(s, limit, k - 1) + PageOf(s, (k - 1) * limit, limit)
  }

  /** The documents before `skip`, then the page at `skip`: the documents before `skip + limit`. */
  lemma PrefixStep<T>(s: seq<T>, skip: nat, limit: int)
    requires limit > 0
    ensures s[..Min(skip, |s|)] + PageOf(s, skip, limit) == s[..Min(skip + limit, |s|)]
  {
    if skip < |s| {
      assert s[..skip] + s[skip..Min(skip + limit, |s|)] == s[..Min(skip + limit, |s|)];
    }
  }

  /** The first k pages together are the first k * limit documents. */
  lemma {:induction false} PagesPrefix<T>(s: seq<T>, limit: int, k: nat)
    requires limit > 0
    ensures k * limit >= 0
    ensures Pages(s, limit, k) == s[..Min(k * limit, |s|)]
  {
    MulMonotone(0, k, limit);
    if k > 0 {
      PagesPrefix(s, limit, k - 1);
      MulStep(k, limit);
      PrefixStep(s, (k - 1) * limit, limit);
    }
  }

  /** Going through pages 1 .. totalPages lists every match exactly once, in order. */
  lemma PagesCoverAll<T>(s: seq<T>, limit: int)
    requires limit > 0
    ensures Pages(s, limit, TotalPages(|s|, limit)) == s
  {
    var pages := TotalPages(|s|, limit);
    PagesPrefix(s, limit, pages);
    assert s[..|s|] == s;
  }

  /** A page (numbered from 1) holds data exactly when it is not past the last page. */
  lemma PageNonEmptyIff<T>(s: seq<T>, page: int, limit: int)
    requires limit > 0 && page >= 1
    ensures Skip(page, limit) >= 0
    ensures PageOf(s, Skip(page, limit), limit) != [] <==> page <= TotalPages(|s|, limit)
  {
    var pages := TotalPages(|s|, limit);
    MulMonotone(0, page - 1, limit);
    if page <= pages {
      MulMonotone(page - 1, pages - 1, limit);
    } else {
      MulMonotone(pages, page - 1, limit);
    }
  }

  /**
    The quirk of the listing: past the last page the data is empty, while the
    metadata reports the last page as the current one.
  */
  lemma PastLastPage<T>(s: seq<T>, page: int, limit: int)
    requires limit > 0 && page > TotalPages(|s|, limit) && page >= 1
    ensures Skip(page, limit) >= 0
    ensures PageOf(s, Skip(page, limit), limit) == []
    ensures MetadataFor(|s|, page, limit).currentPage == TotalPages(|s|, limit)
  {
    PageNonEmptyIff(s, page, limit);
  }

  /** Fifteen matches, ten per page. */
  lemma FifteenMatchesTenPerPage<T>(s: seq<T>)
    requires |s| == 15
    ensures TotalPages(15, 10) == 2
    ensures |PageOf(s, Skip(1, 10), 10)| == 10
    ensures |PageOf(s, Skip(2, 10), 10)| == 5
    ensures PageOf(s, Skip(3, 10), 10) == []
    ensures MetadataFor(15, 3, 10) == Metadata(15, 2, 2)
  {
  }
}
