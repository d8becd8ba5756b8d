/**
 * The decisions the "My Bookmarks" view makes from one page of the paginated
 * bookmarks resource: which pages the previous/next links point to and whether the
 * pagination block shows, the URL of each link, the page to fall back to when the
 * current page has become empty, the document title, the class name of a bookmark
 * and its breadcrumb list. Rendering, fetching and React scheduling are not modelled.
 */
module Bookmarks {
  import opened Wrappers
  import opened Strings
  import opened SearchParams

  datatype Breadcrumb = Breadcrumb(uri: string, title: string)

  datatype BookmarkData = BookmarkData(id: int, url: string, title: string, parents: seq<Breadcrumb>, created: string)

  datatype Metadata = Metadata(page: int, total: int, perPage: int)

  datatype BookmarksData = BookmarksData(items: seq<BookmarkData>, metadata: Metadata, csrfToken: string)

  const PageTitle: string := "My Bookmarks"

  const PageParam: string := "page"

  // ---------------------------------------------------------------------------
  // Previous and next page

  /** `Math.ceil(total / per_page)` on integers. */
  function MaxPage(total: int, perPage: int): (r: int)
    requires perPage > 0
    ensures (r - 1) * perPage < total <= r * perPage
  {
    var q := (-total) / perPage;
    assert -total == q * perPage + (-total) % perPage;
    -q
  }

  /**
   * The next page exists exactly when the current page does not yet reach the total:
   * `page + 1 <= ceil(total / per_page)` holds iff `page * per_page < total`.
   */
  lemma NextPageBound(page: int, total: int, perPage: int)
    requires perPage > 0
    ensures page + 1 <= MaxPage(total, perPage) <==> page * perPage < total
  {
  }

  /** The page the "next" link goes to, `0` meaning there is no such link. */
  function NextPage(m: Metadata): (r: int)
    requires m.perPage > 0
    ensures r == (if m.page * m.perPage < m.total then m.page + 1 else 0)
  {
    NextPageBound(m.page, m.total, m.perPage);
    if m.page + 1 <= MaxPage(m.total, m.perPage) then m.page + 1 else 0
  }

  /** The page the "previous" link goes to, `0` meaning there is none (page 1 has none). */
  function PreviousPage(m: Metadata): (r: int)
    ensures r >= 0
    ensures r != 0 <==> m.page >= 2
    ensures r != 0 ==> r == m.page - 1
  {
    if m.page - 1 > 0 then m.page - 1 else 0
  }

  /**
   * The pagination block shows when either link exists: on any page after the first,
   * or when more bookmarks follow the current page (unless that next page number is
   * itself `0`, which happens only for page -1).
   */
  function ShowPagination(m: Metadata): (r: bool)
    requires m.perPage > 0
    ensures r <==> m.page >= 2 || (m.page * m.perPage < m.total && m.page != -1)
  {
    NextPage(m) != 0 || PreviousPage(m) != 0
  }

  /** On page 1 of a list that fits on one page there is no pagination at all. */
  lemma SinglePageHasNoPagination(m: Metadata)
    requires m.perPage > 0 && m.page == 1 && m.total <= m.perPage
    ensures !ShowPagination(m)
  {
  }

  /** Page 3 of 21 bookmarks at 10 per page is the last: a previous link only. */
  lemma LastPageExample()
    ensures MaxPage(21, 10) == 3
    ensures NextPage(Metadata(3, 21, 10)) == 0
    ensures PreviousPage(Metadata(3, 21, 10)) == 2
    ensures NextPage(Metadata(2, 21, 10)) == 3
  {
  }

  // ---------------------------------------------------------------------------
  // Pagination URLs

  /** The search parameters of the link to `page`: page 1 is the URL without `page`. */
  function PageParams(ps: seq<Param>, page: int): (r: seq<Param>)
    ensures Get(r, PageParam) == if page == 1 then None else Some(IntToDecimal(page))
    ensures CountName(r, PageParam) == if page == 1 then 0 else 1
  {
    if page == 1 then
      GetDeleted(ps, PageParam, PageParam);
      CountDeleted(ps, PageParam);
      Deleted(ps, PageParam)
    else Assigned(ps, PageParam, IntToDecimal(page))
  }

  /**
   * The link to `page` reads the page number back from `page` (absent for page 1) and
   * leaves every other parameter, and the order of the other parameters, as it was.
   */
  lemma PageParamsSpec(ps: seq<Param>, page: int, other: string)
    ensures other != PageParam ==> Get(PageParams(ps, page), other) == Get(ps, other)
    ensures Deleted(PageParams(ps, page), PageParam) == Deleted(ps, PageParam)
  {
    if page == 1 {
      GetDeleted(ps, PageParam, other);
      DeletedIdempotent(ps, PageParam);
    } else {
      AssignedSpec(ps, PageParam, IntToDecimal(page), other);
    }
  }

  /** Links to different pages carry different parameters. */
  lemma PageParamsInjective(ps: seq<Param>, p: int, q: int)
    requires PageParams(ps, p) == PageParams(ps, q)
    ensures p == q
  {
    PageParamsSpec(ps, p, PageParam);
    PageParamsSpec(ps, q, PageParam);
    if p != 1 && q != 1 {
      IntDecimalInjective(p, q);
    }
  }

  /** `pathname`, followed by `?` and the query string when that is not empty. */
  function PaginationURL(pathname: string, ps: seq<Param>, page: int): (url: string)
    ensures url == pathname <==> PageParams(ps, page) == []
    ensures url != pathname ==> |url| > |pathname| && url[..|pathname| + 1] == pathname + "?"
  {
    var query := Serialize(PageParams(ps, page));
    if query != "" then pathname + "?" + query else pathname
  }

  /** On page 1 of `?sort=t` the next link appends `page` after the other parameters. */
  lemma NextLinkExample()
    ensures PaginationURL("/plus/bookmarks", [Param("sort", "t")], 2) == "/plus/bookmarks?sort=t&page=2"
  {
    assert !HasName([Param("sort", "t")], PageParam);
    assert IntToDecimal(2) == "2";
    assert PageParams([Param("sort", "t")], 2) == [Param("sort", "t"), Param("page", "2")];
  }

  /** `getPaginationURL(page)`: copy the current parameters, change `page`, serialise. */
  method GetPaginationURL(pathname: string, searchParams: seq<Param>, page: int) returns (url: string)
    ensures url == PaginationURL(pathname, searchParams, page)
    ensures url == pathname <==> PageParams(searchParams, page) == []
    ensures url != pathname ==> url == pathname + "?" + Serialize(PageParams(searchParams, page))
  {
    var sp := new QueryParams(searchParams);
    if page == 1 {
      sp.Delete(PageParam);
    } else {
      sp.Set(PageParam, IntToDecimal(page));
    }
    var query := sp.ToString();
    if query != "" {
      url := pathname + "?" + query;
      assert |url| > |pathname|;
    } else {
      url := pathname;
    }
  }

  /** A `<Link>` of the pagination block, with its text "Page n". */
  datatype PageLink = PageLink(to: string, text: string)

  datatype Pagination = Pagination(previous: Option<PageLink>, next: Option<PageLink>)

  /** The pagination block: absent when neither link exists, else the links that do. */
  method RenderPagination(pathname: string, searchParams: seq<Param>, m: Metadata) returns (block: Option<Pagination>)
    requires m.perPage > 0
    ensures block.Some? <==> ShowPagination(m)
    ensures block.Some? ==> (block.value.previous.Some? <==> PreviousPage(m) != 0)
    ensures block.Some? ==> (block.value.next.Some? <==> NextPage(m) != 0)
    ensures block.Some? && block.value.previous.Some? ==>
      block.value.previous.value == PageLink(PaginationURL(pathname, searchParams, PreviousPage(m)), "Page " + IntToDecimal(PreviousPage(m)))
    ensures block.Some? && block.value.next.Some? ==>
      block.value.next.value == PageLink(PaginationURL(pathname, searchParams, NextPage(m)), "Page " + IntToDecimal(NextPage(m)))
  {
    var nextPage := NextPage(m);
    var previousPage := PreviousPage(m);
    if nextPage != 0 || previousPage != 0 {
      var previous: Option<PageLink> := None;
      var next: Option<PageLink> := None;
      if previousPage != 0 {
        var to := GetPaginationURL(pathname, searchParams, previousPage);
        previous := Some(PageLink(to, "Page " + IntToDecimal(previousPage)));
      }
      if nextPage != 0 {
        var to := GetPaginationURL(pathname, searchParams, nextPage);
        next := Some(PageLink(to, "Page " + IntToDecimal(nextPage)));
      }
      block := Some(Pagination(previous, next));
    } else {
      block := None;
    }
  }

  // ---------------------------------------------------------------------------
  // Falling back a page when the current page has become empty

  /**
   * The effect that runs when new data arrives: on a page after the first that has
   * no items left, navigate to the previous page (to the URL without `page` when that
   * is page 1); otherwise stay. `None` means the search parameters are not replaced.
   */
  method CorrectPage(searchParams: seq<Param>, data: Option<BookmarksData>) returns (navigate: Option<seq<Param>>)
    ensures navigate.Some? <==> data.Some? && data.value.metadata.page > 1 && |data.value.items| == 0
    ensures navigate.Some? ==> navigate.value == PageParams(searchParams, data.value.metadata.page - 1)
  {
    navigate := None;
    if data.Some? {
      var m := data.value.metadata;
      if m.page > 1 && |data.value.items| == 0 {
        var newSearchParams := new QueryParams(searchParams);
        if m.page == 2 {
          newSearchParams.Delete(PageParam);
        } else {
          newSearchParams.Set(PageParam, IntToDecimal(m.page - 1));
        }
        navigate := Some(newSearchParams.entries);
      }
    }
  }

  /**
   * The fallback is the previous page's link: emptied page 3 goes to `page=2`, emptied
   * page 2 to the URL without `page`, and no other parameter changes.
   */
  lemma CorrectionIsPreviousPage(searchParams: seq<Param>, m: Metadata, other: string)
    requires m.page > 1
    ensures PageParams(searchParams, m.page - 1) == PageParams(searchParams, PreviousPage(m))
    ensures m.page == 2 ==> Get(PageParams(searchParams, m.page - 1), PageParam) == None
    ensures m.page > 2 ==> Get(PageParams(searchParams, m.page - 1), PageParam) == Some(NatToDecimal(m.page - 1))
    ensures other != PageParam ==> Get(PageParams(searchParams, m.page - 1), other) == Get(searchParams, other)
  {
    PageParamsSpec(searchParams, m.page - 1, other);
  }

  /** Emptied page 3 of 21 bookmarks with other parameters kept: navigate to page 2. */
  lemma CorrectionExample()
    ensures PageParams([Param("sort", "title"), Param("page", "3")], 2) == [Param("sort", "title"), Param("page", "2")]
    ensures PageParams([Param("page", "2"), Param("sort", "title")], 1) == [Param("sort", "title")]
  {
  }

  // ---------------------------------------------------------------------------
  // Document title

  /**
   * From index `lo` on, `title` holds the digits of `total`, with no leading zero, up
   * to the `)` at index `k`.
   */
  predicate TotalAt(title: string, lo: int, k: int, total: int) {
    0 <= lo < k < |title| && title[k] == ')' &&
    AllDigits(title[lo..k]) && ParseDecimal(title[lo..k]) == total &&
    (k > lo + 1 ==> title[lo] != '0')
  }

  /**
   * After the `)` at index `k`: nothing on the first page, and beyond it " Page " and
   * the digits of `page`, with no leading zero.
   */
  predicate PageAfter(title: string, k: int, page: int) {
    0 <= k < |title| &&
    (page <= 1 ==> k == |title| - 1) &&
    (page > 1 ==>
      k + 7 < |title| && title[k + 1..k + 7] == " Page " &&
      AllDigits(title[k + 7..]) && ParseDecimal(title[k + 7..]) == page &&
      (|title| > k + 8 ==> title[k + 7] != '0'))
  }

  /** Reading `title` back: "My Bookmarks (", the total up to the `)` at `k`, then the page. */
  predicate TitleSplitAt(title: string, k: int, total: int, page: int) {
    TotalAt(title, |PageTitle| + 2, k, total) && PageAfter(title, k, page)
  }

  /** "My Bookmarks (total)", with " Page n" after it beyond the first page. */
  function ComposedTitle(total: int, page: int): (r: string)
    requires total > 0
    ensures |r| > |PageTitle| + 2 && r[..|PageTitle| + 2] == PageTitle + " ("
    ensures r[|r| - 1] == ')' <==> page <= 1
    ensures exists k :: TitleSplitAt(r, k, total, page)
  {
    var prefix := PageTitle + " (";
    var suffix := if page > 1 then " Page " + NatToDecimal(page) else "";
    var r := prefix + NatToDecimal(total) + ")" + suffix;
    ComposedTitleFacts(total, page, prefix, suffix, r);
    r
  }

  /** Gathers the read-back of a composed title into the form of `ComposedTitle`'s contract. */
  lemma ComposedTitleFacts(total: nat, page: int, prefix: string, suffix: string, r: string)
    requires prefix == PageTitle + " ("
    requires suffix == if page > 1 then " Page " + NatToDecimal(page) else ""
    requires r == prefix + NatToDecimal(total) + ")" + suffix
    ensures |r| > |PageTitle| + 2 && r[..|PageTitle| + 2] == PageTitle + " ("
    ensures r[|r| - 1] == ')' <==> page <= 1
    ensures exists k :: TitleSplitAt(r, k, total, page)
  {
    var k := |prefix| + |NatToDecimal(total)|;
    TitlePieces(prefix, NatToDecimal(total), suffix, r);
    TitleReadsBack(r, |prefix|, k, total, page, suffix);
    assert TitleSplitAt(r, k, total, page);
  }

  /** The pieces of "prefix digits ) suffix", each found at its own place. */
  lemma TitlePieces(prefix: string, digits: string, suffix: string, r: string)
    requires r == prefix + digits + ")" + suffix
    ensures |r| > |prefix| + |digits| && r[..|prefix|] == prefix
    ensures r[|prefix|..|prefix| + |digits|] == digits
    ensures r[|prefix| + |digits|] == ')' && r[|prefix| + |digits| + 1..] == suffix
  {
    var k := |prefix| + |digits|;
    assert r == (prefix + digits) + ([')'] + suffix);
    assert r[..k] == prefix + digits;
    assert r[..|prefix|] == r[..k][..|prefix|] == prefix;
    assert r[|prefix|..k] == r[..k][|prefix|..] == digits;
    assert r[k..] == [')'] + suffix;
  }

  /**
   * A title whose slice from `lo` to `k` is the decimal text of `total`, with `)` at
   * `k` and the page suffix after it, reads back to `total` and `page`, with no
   * leading zero.
   */
  lemma TitleReadsBack(r: string, lo: int, k: int, total: nat, page: int, suffix: string)
    requires suffix == if page > 1 then " Page " + NatToDecimal(page) else ""
    requires 0 <= lo <= k < |r| && r[lo..k] == NatToDecimal(total)
    requires r[k] == ')' && r[k + 1..] == suffix
    ensures TotalAt(r, lo, k, total) && PageAfter(r, k, page)
    ensures r[|r| - 1] == ')' <==> page <= 1
  {
    DecimalSliceReadsBack(r, lo, k, total);
    PageSuffixReadsBack(page, suffix, r, k);
  }

  /** What follows the `)` at `k`: nothing on the first page, else " Page " and the page's digits. */
  lemma PageSuffixReadsBack(page: int, suffix: string, r: string, k: int)
    requires suffix == if page > 1 then " Page " + NatToDecimal(page) else ""
    requires 0 <= k < |r| && r[k] == ')' && r[k + 1..] == suffix
    ensures PageAfter(r, k, page)
    ensures r[|r| - 1] == ')' <==> page <= 1
  {
    if page > 1 {
      PageDigitsReadBack(page, suffix, r, k);
    }
  }

  lemma PageDigitsReadBack(page: int, suffix: string, r: string, k: int)
    requires page > 1 && suffix == " Page " + NatToDecimal(page)
    requires 0 <= k < |r| && r[k + 1..] == suffix
    ensures k + 7 < |r| && r[k + 1..k + 7] == " Page "
    ensures AllDigits(r[k + 7..]) && ParseDecimal(r[k + 7..]) == page
    ensures |r| > k + 8 ==> r[k + 7] != '0'
    ensures r[|r| - 1] != ')'
  {
    var pageDigits := NatToDecimal(page);
    assert r[k + 1..k + 7] == suffix[..6] == " Page ";
    assert r[k + 7..] == suffix[6..] == pageDigits;
    DecimalSliceReadsBack(r, k + 7, |r|, page);
    assert r[|r| - 1] == r[k + 7..][|r| - 1 - (k + 7)];
  }

  /** The title tells the total and, beyond the first page, the page apart. */
  lemma ComposedTitleInjective(t1: int, p1: int, t2: int, p2: int)
    requires t1 > 0 && t2 > 0
    requires ComposedTitle(t1, p1) == ComposedTitle(t2, p2)
    ensures t1 == t2
    ensures p1 > 1 <==> p2 > 1
    ensures p1 > 1 ==> p1 == p2
  {
    var title := ComposedTitle(t1, p1);
    var k1 :| TitleSplitAt(title, k1, t1, p1);
    var k2 :| TitleSplitAt(title, k2, t2, p2);
    TitleSplitDetermines(title, k1, t1, p1, k2, t2, p2);
  }

  /**
   * The `)` after the total is the first one, so a title splits in one place only,
   * and the numbers read back from it are the same both times.
   */
  lemma TitleSplitDetermines(title: string, k1: int, t1: int, p1: int, k2: int, t2: int, p2: int)
    requires TitleSplitAt(title, k1, t1, p1) && TitleSplitAt(title, k2, t2, p2)
    ensures k1 == k2 && t1 == t2
    ensures p1 > 1 <==> p2 > 1
    ensures p1 > 1 ==> p1 == p2
  {
  }

  /** The title effect: a page with a positive total renames the document, else it stays. */
  function TitleAfter(current: string, data: Option<BookmarksData>): (r: string)
    ensures r != current ==> data.Some? && data.value.metadata.total > 0
  {
    if data.Some? && data.value.metadata.total > 0 then
      ComposedTitle(data.value.metadata.total, data.value.metadata.page)
    else current
  }

  /** Running the effect again on the same data changes nothing. */
  lemma TitleAfterIdempotent(current: string, data: Option<BookmarksData>)
    ensures TitleAfter(TitleAfter(current, data), data) == TitleAfter(current, data)
  {
  }

  predicate Counted(data: Option<BookmarksData>) {
    data.Some? && data.value.metadata.total > 0
  }

  /** The `i`-th update has a positive total and `title` is the title it composes. */
  predicate TitleFromUpdate(updates: seq<Option<BookmarksData>>, i: int, title: string) {
    0 <= i < |updates| && Counted(updates[i]) &&
    title == ComposedTitle(updates[i].value.metadata.total, updates[i].value.metadata.page)
  }

  /** The title set on mount, then the title effect for each value `data` takes in turn. */
  function TitleHistory(updates: seq<Option<BookmarksData>>): (r: string)
    ensures r == PageTitle || exists i :: TitleFromUpdate(updates, i, r)
  {
    if updates == [] then PageTitle
    else
      var init, last := updates[..|updates| - 1], updates[|updates| - 1];
      var prev := TitleHistory(init);
      var r := TitleAfter(prev, last);
      assert r == PageTitle || exists i :: TitleFromUpdate(updates, i, r) by {
        if Counted(last) {
          assert TitleFromUpdate(updates, |updates| - 1, r);
        } else if prev != PageTitle {
          var i :| TitleFromUpdate(init, i, prev);
          assert init[i] == updates[i];
          assert TitleFromUpdate(updates, i, r);
        }
      }
      r
  }

  /** Until a page with a positive total arrives the title is "My Bookmarks". */
  lemma {:induction false} TitleBeforeAnyTotal(updates: seq<Option<BookmarksData>>)
    requires forall j :: 0 <= j < |updates| ==> !Counted(updates[j])
    ensures TitleHistory(updates) == PageTitle
  {
    if updates != [] {
      TitleBeforeAnyTotal(updates[..|updates| - 1]);
    }
  }

  /**
   * Afterwards the title reflects the latest page with a positive total, even when a
   * later page reports a total of 0: the title is never reset.
   */
  lemma {:induction false} TitleFromLatestTotal(updates: seq<Option<BookmarksData>>, i: int)
    requires 0 <= i < |updates| && Counted(updates[i])
    requires forall j :: i < j < |updates| ==> !Counted(updates[j])
    ensures TitleHistory(updates) == ComposedTitle(updates[i].value.metadata.total, updates[i].value.metadata.page)
    decreases |updates|
  {
    if i < |updates| - 1 {
      TitleFromLatestTotal(updates[..|updates| - 1], i);
    }
  }

  /** Removing the last bookmark leaves the title "My Bookmarks (1)". */
  lemma StaleTitleExample(one: BookmarksData, none: BookmarksData)
    requires one.metadata == Metadata(1, 1, 10) && none.metadata == Metadata(1, 0, 10)
    ensures TitleHistory([Some(one), Some(none)]) == "My Bookmarks (1)"
  {
    var updates := [Some(one), Some(none)];
    assert updates[..1] == [Some(one)] && [Some(one)][..0] == [];
    assert NatToDecimal(1) == "1";
    assert TitleHistory([Some(one)]) == ComposedTitle(1, 1) == "My Bookmarks (1)";
  }

  // ---------------------------------------------------------------------------
  // A bookmark and its breadcrumbs

  /** The class name of a bookmark: "bookmark", plus " doomed" while it is being removed. */
  function BookmarkClass(doomed: bool): (r: string)
    ensures Contains(r, "bookmark")
    ensures !doomed ==> r == "bookmark"
    ensures doomed ==> r == "bookmark" + " doomed"
  {
    assert OccursAt("bookmark", "bookmark", 0);
    assert OccursAt("bookmark doomed", "bookmark", 0);
    if doomed then "bookmark doomed" else "bookmark"
  }

  /** The "doomed" class is present exactly when the bookmark is doomed. */
  lemma DoomedClass(doomed: bool)
    ensures Contains(BookmarkClass(doomed), "doomed") <==> doomed
  {
    if doomed {
      assert OccursAt("bookmark doomed", "doomed", 9);
    } else {
      forall i: nat ensures !OccursAt("bookmark", "doomed", i) {
        if i + 6 <= 8 {
          assert "bookmark"[i..i + 6][0] == "bookmark"[i];
          assert "bookmark"[i..i + 6][1] == "bookmark"[i + 1];
        }
      }
    }
  }

  /** One `<li>` of the breadcrumb list: its key, class, link target and link text. */
  datatype CrumbItem = CrumbItem(key: string, className: Option<string>, href: string, text: string)

  /** `Breadcrumbs`: one item per parent in order, the final one with class "last". */
  function BreadcrumbItems(parents: seq<Breadcrumb>): (items: seq<CrumbItem>)
    ensures |items| == |parents|
    ensures forall i :: 0 <= i < |parents| ==>
      items[i].key == parents[i].uri && items[i].href == parents[i].uri && items[i].text == parents[i].title
    ensures forall i :: 0 <= i < |parents| ==> (items[i].className.Some? <==> i == |parents| - 1)
    ensures forall i :: 0 <= i < |parents| ==> items[i].className.Some? ==> items[i].className.value == "last"
  {
    seq(|parents|, i requires 0 <= i < |parents| =>
      CrumbItem(parents[i].uri, if i + 1 == |parents| then Some("last") else None, parents[i].uri, parents[i].title))
  }

  /** The number of items that carry a class. */
  function CountMarked(items: seq<CrumbItem>): nat {
    if items == [] then 0 else (if items[0].className.Some? then 1 else 0) + CountMarked(items[1..])
  }

  lemma {:induction false} CountMarkedOnlyLast(items: seq<CrumbItem>)
    requires items != []
    requires forall i :: 0 <= i < |items| ==> (items[i].className.Some? <==> i == |items| - 1)
    ensures CountMarked(items) == 1
  {
    if |items| > 1 {
      assert forall i :: 0 <= i < |items[1..]| ==> items[1..][i] == items[i + 1];
      CountMarkedOnlyLast(items[1..]);
    }
  }

  /** A non-empty breadcrumb list marks exactly one item, and it is the last. */
  lemma ExactlyOneLast(parents: seq<Breadcrumb>)
    requires parents != []
    ensures CountMarked(BreadcrumbItems(parents)) == 1
    ensures BreadcrumbItems(parents)[|parents| - 1].className == Some("last")
  {
    CountMarkedOnlyLast(BreadcrumbItems(parents));
  }

  /** Two parents render as two items, only the second marked "last". */
  lemma BreadcrumbExample()
    ensures BreadcrumbItems([Breadcrumb("/a", "A"), Breadcrumb("/a/b", "B")]) ==
      [CrumbItem("/a", None, "/a", "A"), CrumbItem("/a/b", Some("last"), "/a/b", "B")]
  {
  }

  /** What `Bookmark` renders from the data and its `doomed` state. */
  datatype BookmarkView = BookmarkView(className: string, breadcrumbs: Option<seq<CrumbItem>>, href: string, heading: string)

  /** The breadcrumb list is rendered only when there are parents. */
  function RenderBookmark(bookmark: BookmarkData, doomed: bool): (v: BookmarkView)
    ensures v.className == BookmarkClass(doomed)
    ensures v.breadcrumbs.None? <==> bookmark.parents == []
    ensures v.breadcrumbs.Some? ==> v.breadcrumbs.value == BreadcrumbItems(bookmark.parents)
    ensures v.breadcrumbs.Some? ==> |v.breadcrumbs.value| == |bookmark.parents| && CountMarked(v.breadcrumbs.value) == 1
    ensures v.href == bookmark.url && v.heading == bookmark.title
    ensures Contains(v.className, "doomed") <==> doomed
  {
    DoomedClass(doomed);
    if bookmark.parents != [] then
      ExactlyOneLast(bookmark.parents);
      var crumbs := BreadcrumbItems(bookmark.parents);
      BookmarkView(BookmarkClass(doomed), Some(crumbs), bookmark.url, bookmark.title)
    else
      BookmarkView(BookmarkClass(doomed), None, bookmark.url, bookmark.title)
  }
}
