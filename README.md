# Bookmarks pagination rules and the HTTPSidebar document-store fixture, in Dafny

This project models two small parts of the yari documentation platform and proves
properties about them.

The first part is the "My Bookmarks" view (`client/src/plus/bookmarks/index.tsx`). The
model covers the decisions the view makes from one page of the paginated bookmarks
resource:

- the previous and next page numbers, where `0` means "no link";
- whether the pagination block is shown;
- the URL of each pagination link, built by copying the current search parameters and
  then deleting or setting `page`;
- the page-correction effect, which moves back one page when the current page has
  become empty;
- the document title;
- the class name of a bookmark and its breadcrumb list.

The second part is the mocked document store of the HTTPSidebar macro tests
(`kumascript/tests/macros/HTTPSidebar.test.ts`):

- `findByURL` is a case-insensitive lookup in a fixture, and it reshapes the entry it
  finds;
- `findChildren` is a loop over the fixture entries. It keeps each key that has no `/`
  left once the first occurrence of `lower(url) + "/"` is removed from it.

Modules:

- `Wrappers` (`wrappers.dfy`): `Option`.
- `Strings` (`strings.dfy`): ASCII lower-casing, `replace` of the first occurrence of a
  string pattern with `""`, decimal rendering of integers (`${n}`) with its parser.
- `SearchParams` (`search_params.dfy`): `URLSearchParams` as an ordered list of
  name/value pairs. It has the pure operations `Deleted`, `Assigned`, `Get` and
  `Serialize`. The class `QueryParams` is the mutable copy the view builds and changes
  in place.
- `Bookmarks` (`bookmarks.dfy`): the view's rules.
- `DocumentFixture` (`document_fixture.dfy`): the two mocks. The fixture JSON is taken
  as its entries in `Object.entries` order. Its keys are URL paths, so they are never
  integer-like, and that order is the insertion order.

Notes on behaviour:

- `findChildren` does not check that the parent string is a prefix of the key.
  `NotOnlyPrefixes` shows that `"en-us/docs/b"` passes for url `"/Docs"`. A key with no
  `/` at all also passes (the contract of `IsChildKey`).
- The key equal to `lower(url)` is kept only when it has no `/` at all (`SelfKey`).
- Line 59 of the test evaluates a second replacement and discards the value. The model
  evaluates it too and drops it. Dafny expressions have no side effects, so the result
  of `FindChildren` does not depend on it.
- The title effect only renames the document when the total is positive. A later page
  with a total of 0 leaves the earlier title in place (`StaleTitleExample`).
- On page `-1` the next page would be `0`, so no next link is shown there. The exact
  condition is in `ShowPagination`'s contract.

## Model

| member | source | states |
|---|---|---|
| `Bookmarks.MaxPage` | client/src/plus/bookmarks/index.tsx:174 | the integer ceiling of total / per_page: `(r-1)*per_page < total <= r*per_page` |
| `Bookmarks.NextPageBound` | client/src/plus/bookmarks/index.tsx:174-176 | `page + 1 <= maxPage` holds exactly when `page * per_page < total` |
| `Bookmarks.NextPage` | client/src/plus/bookmarks/index.tsx:175-176 | next page is `page + 1` when bookmarks remain beyond the current page (`page * per_page < total`), otherwise `0` |
| `Bookmarks.PreviousPage` | client/src/plus/bookmarks/index.tsx:177 | previous page is non-negative, non-zero exactly from page 2 on, and then `page - 1`; page 1 has no previous link |
| `Bookmarks.ShowPagination` | client/src/plus/bookmarks/index.tsx:256 | the block shows iff `page >= 2`, or more bookmarks follow and the next page number is not `0` |
| `Bookmarks.SinglePageHasNoPagination` | client/src/plus/bookmarks/index.tsx:174-177 | page 1 of a list that fits on one page shows no pagination |
| `Bookmarks.LastPageExample` | client/src/plus/bookmarks/index.tsx:174-177 | 21 bookmarks at 10 per page: 3 pages, page 3 has no next link and previous page 2, page 2 has next page 3 |
| `Bookmarks.PageParams` | client/src/plus/bookmarks/index.tsx:180-185 | the changed parameters have no `page` for page 1; otherwise `page` occurs exactly once and reads as the decimal page number |
| `Bookmarks.PageParamsSpec` | client/src/plus/bookmarks/index.tsx:179-185 | a link's parameters read `page` back as the decimal page number, or as absent for page 1; every other parameter reads as before; apart from `page` the list and its order are unchanged |
| `Bookmarks.PageParamsInjective` | client/src/plus/bookmarks/index.tsx:179-185 | links to different pages carry different parameters |
| `Bookmarks.PaginationURL` | client/src/plus/bookmarks/index.tsx:179-190 | the URL is the bare pathname iff the changed parameter list is empty; otherwise it starts with `pathname?` |
| `Bookmarks.NextLinkExample` | client/src/plus/bookmarks/index.tsx:179-190 | on page 1 of `?sort=t` the next link is `pathname?sort=t&page=2`: `page` goes after the parameters already there |
| `Bookmarks.GetPaginationURL` | client/src/plus/bookmarks/index.tsx:179-190 | the URL is the bare pathname iff the changed parameter list is empty, otherwise `pathname?query` |
| `Bookmarks.RenderPagination` | client/src/plus/bookmarks/index.tsx:256-265 | the block exists iff `ShowPagination`; each link exists iff its page is non-zero, and it points to that page's pagination URL with text "Page n" |
| `Bookmarks.CorrectPage` | client/src/plus/bookmarks/index.tsx:86-102 | navigation happens iff data is present, page > 1 and items are empty; the new parameters are those of the link to page - 1 |
| `Bookmarks.CorrectionIsPreviousPage` | client/src/plus/bookmarks/index.tsx:92-98 | the fallback equals the previous-page link; from page 2 `page` is removed, from page n > 2 it reads n - 1; other parameters are untouched |
| `Bookmarks.CorrectionExample` | client/src/plus/bookmarks/index.tsx:92-98 | emptied page 3 with `sort` kept goes to `page=2`; emptied page 2 drops `page` and keeps `sort` |
| `Bookmarks.ComposedTitle` | client/src/plus/bookmarks/index.tsx:78-81 | the title is "My Bookmarks (" followed by digits, with no leading zero, that parse back to the total and a `)`; it ends there exactly when page <= 1, and otherwise " Page " and digits, with no leading zero, that parse back to the page follow |
| `Bookmarks.TitleReadsBack` | client/src/plus/bookmarks/index.tsx:78-81 | in a title holding the decimal text of the total before `)` and the page suffix after it, the digits after the opening parenthesis parse back to the total and those after " Page " to the page, neither with a leading zero; the title ends in `)` iff page <= 1 |
| `Bookmarks.TitleSplitDetermines` | client/src/plus/bookmarks/index.tsx:78-81 | a title splits in one place only, since the `)` after the total's digits is the first one, so the total, whether a page is shown, and the page read back the same |
| `Bookmarks.ComposedTitleInjective` | client/src/plus/bookmarks/index.tsx:78-81 | the title "My Bookmarks (total)[ Page n]" determines the total, whether a page is shown, and that page |
| `Bookmarks.TitleAfter` | client/src/plus/bookmarks/index.tsx:76-84 | the title effect changes the title only when data is present with a positive total |
| `Bookmarks.TitleAfterIdempotent` | client/src/plus/bookmarks/index.tsx:76-84 | re-running the title effect on the same data changes nothing |
| `Bookmarks.TitleHistory` | client/src/plus/bookmarks/index.tsx:55-84 | after any sequence of `data` values the title is "My Bookmarks" or the title composed from one of those values with a positive total |
| `Bookmarks.TitleBeforeAnyTotal` | client/src/plus/bookmarks/index.tsx:55-84 | until a page with a positive total arrives, the title stays "My Bookmarks" |
| `Bookmarks.TitleFromLatestTotal` | client/src/plus/bookmarks/index.tsx:76-84 | after that, the title is composed from the latest page with a positive total, and later zero totals do not reset it |
| `Bookmarks.StaleTitleExample` | client/src/plus/bookmarks/index.tsx:76-84 | a total of 1 followed by a total of 0 leaves the title "My Bookmarks (1)" |
| `Bookmarks.BookmarkClass` | client/src/plus/bookmarks/index.tsx:279-282 | the class name contains "bookmark"; it is exactly "bookmark" for a live bookmark and "bookmark doomed" for a doomed one |
| `Bookmarks.DoomedClass` | client/src/plus/bookmarks/index.tsx:279-282 | the class name contains "doomed" iff the bookmark is doomed |
| `Bookmarks.BreadcrumbItems` | client/src/plus/bookmarks/index.tsx:316-331 | one item per parent, in input order, keyed and linked by its uri with its title as text; an item has a class iff it is the final one, and that class is "last" |
| `Bookmarks.ExactlyOneLast` | client/src/plus/bookmarks/index.tsx:319-323 | a non-empty list marks exactly one item, the final one |
| `Bookmarks.BreadcrumbExample` | client/src/plus/bookmarks/index.tsx:316-331 | parents `/a` and `/a/b` give two items, and only the second is marked "last" |
| `Bookmarks.RenderBookmark` | client/src/plus/bookmarks/index.tsx:279-294 | the class name is that of `BookmarkClass`, so "doomed" appears iff doomed; the breadcrumb list is absent iff there are no parents, otherwise it is exactly `BreadcrumbItems` of the parents, one item per parent with one marked; the link is the bookmark's url and title |
| `SearchParams.Get` | client/src/plus/bookmarks/index.tsx:97 | the view never calls `get`; this is the `URLSearchParams.get` reading through which the effects of `delete`/`set` (lines 95, 97, 182, 184) are stated: nothing iff the name is absent, otherwise the value of the first pair with the name |
| `SearchParams.Deleted` | client/src/plus/bookmarks/index.tsx:182 | `delete` leaves no pair with the name and keeps exactly the pairs with other names |
| `SearchParams.GetDeleted` | client/src/plus/bookmarks/index.tsx:95 | after `delete` the name is absent and every other name reads as before |
| `SearchParams.DeletedAppend` | client/src/plus/bookmarks/index.tsx:182 | `delete` keeps the order of the surviving pairs |
| `SearchParams.DeletedIdempotent` | client/src/plus/bookmarks/index.tsx:95 | deleting twice is deleting once |
| `SearchParams.DeletedAbsent` | client/src/plus/bookmarks/index.tsx:182 | deleting an absent name leaves the list unchanged |
| `SearchParams.Assigned` | client/src/plus/bookmarks/index.tsx:184 | after `set` the name occurs exactly once and reads as the new value, and without the name the list is what it was; a name not yet present is appended as a new pair at the end |
| `SearchParams.AssignedShape` | client/src/plus/bookmarks/index.tsx:184 | `set` overwrites the first pair of the name in place and drops the later ones |
| `SearchParams.AssignedSpec` | client/src/plus/bookmarks/index.tsx:97 | after `set` every other name reads as before, and without the name the list is unchanged |
| `SearchParams.Serialize` | client/src/plus/bookmarks/index.tsx:186-189 | the query string is empty iff there are no pairs |
| `SearchParams.QueryParams.constructor` | client/src/plus/bookmarks/index.tsx:180 | `createSearchParams(searchParams)` starts from a copy of the current pairs |
| `SearchParams.QueryParams.Delete` | client/src/plus/bookmarks/index.tsx:182 | `delete` replaces the pairs by `Deleted` of the old ones |
| `SearchParams.QueryParams.Set` | client/src/plus/bookmarks/index.tsx:184 | `set` replaces the pairs by `Assigned` of the old ones |
| `SearchParams.QueryParams.ToString` | client/src/plus/bookmarks/index.tsx:186 | the copied object's query string is empty iff it holds no pairs |
| `Strings.NatToDecimal` | client/src/plus/bookmarks/index.tsx:78-80 | the text of a non-negative number is a non-empty run of digits with no leading zero |
| `Strings.IntToDecimal` | client/src/plus/bookmarks/index.tsx:184 | a non-negative number renders as its digits, a negative one as `-` and the digits of its magnitude |
| `Strings.DecimalSliceReadsBack` | client/src/plus/bookmarks/index.tsx:78-80 | a slice holding the decimal text of a number is a non-empty digit run that reads back as the number and has no leading zero |
| `Strings.DecimalRoundTrip` | client/src/plus/bookmarks/index.tsx:184 | the decimal text of a page or total parses back to the number |
| `Strings.IntDecimalInjective` | client/src/plus/bookmarks/index.tsx:97 | different page numbers have different decimal texts |
| `Strings.RemoveFirst` | kumascript/tests/macros/HTTPSidebar.test.ts:58 | `replace(pat, "")` either removes nothing or removes exactly `pat`'s length |
| `Strings.RemoveFirstAt` | kumascript/tests/macros/HTTPSidebar.test.ts:58 | `replace(parent, "")` cuts out exactly the first occurrence of `parent` |
| `Strings.RemoveFirstAbsent` | kumascript/tests/macros/HTTPSidebar.test.ts:58 | when `parent` does not occur, `replace` leaves the key unchanged |
| `Strings.Lower` | kumascript/tests/macros/HTTPSidebar.test.ts:56 | `toLowerCase` keeps the length and lower-cases each character in place |
| `Strings.LowerIsLower` | kumascript/tests/macros/HTTPSidebar.test.ts:39 | the lower-cased url is lower case, and lower-casing it again changes nothing |
| `DocumentFixture.Reshape` | kumascript/tests/macros/HTTPSidebar.test.ts:43-52 | url, title, locale, summary, slug and tags are copied unchanged |
| `DocumentFixture.ReshapeInjective` | kumascript/tests/macros/HTTPSidebar.test.ts:43-52 | reshaping loses nothing: different entries give different records |
| `DocumentFixture.Lookup` | kumascript/tests/macros/HTTPSidebar.test.ts:39 | looking up a key gives nothing iff the key is absent, otherwise the entry stored under it |
| `DocumentFixture.FindByURL` | kumascript/tests/macros/HTTPSidebar.test.ts:38-53 | `null` iff `lower(url)` is not a key, otherwise the reshaped entry under `lower(url)` |
| `DocumentFixture.FindByURLCaseInsensitive` | kumascript/tests/macros/HTTPSidebar.test.ts:39 | urls that agree after lower-casing find the same document |
| `DocumentFixture.FindByURLFindsKey` | kumascript/tests/macros/HTTPSidebar.test.ts:39-52 | with distinct keys, every lower-case key is found in any case spelling, as its own entry |
| `DocumentFixture.IsChildKey` | kumascript/tests/macros/HTTPSidebar.test.ts:58 | the child test on a key; a key with no `/` passes for every url |
| `DocumentFixture.Children` | kumascript/tests/macros/HTTPSidebar.test.ts:54-73 | the reference result of the loop has at most one record per fixture entry |
| `DocumentFixture.ChildrenEmpty` | kumascript/tests/macros/HTTPSidebar.test.ts:55-72 | the result is empty, never null, exactly when no key passes the test |
| `DocumentFixture.ChildrenAllPass` | kumascript/tests/macros/HTTPSidebar.test.ts:57-72 | when every key passes, there is one record per entry |
| `DocumentFixture.FindChildren` | kumascript/tests/macros/HTTPSidebar.test.ts:54-73 | the loop returns the reshaped matching entries, in fixture order |
| `DocumentFixture.ChildrenAppend` | kumascript/tests/macros/HTTPSidebar.test.ts:57-72 | children of concatenated fixtures are the two results in order, so fixture order is kept |
| `DocumentFixture.ChildrenMembership` | kumascript/tests/macros/HTTPSidebar.test.ts:57-70 | a record is returned iff some entry whose key passes the test reshapes to it |
| `DocumentFixture.ChildrenCaseInsensitive` | kumascript/tests/macros/HTTPSidebar.test.ts:56 | urls that agree after lower-casing have the same children |
| `DocumentFixture.SelfKey` | kumascript/tests/macros/HTTPSidebar.test.ts:56-58 | the key `lower(url)` passes iff it has no `/`, because the pattern with its trailing slash never occurs in it |
| `DocumentFixture.ImmediateChildKey` | kumascript/tests/macros/HTTPSidebar.test.ts:56-58 | `lower(url) + "/" + segment` with a slash-free segment passes |
| `DocumentFixture.DeeperKey` | kumascript/tests/macros/HTTPSidebar.test.ts:56-58 | a key two or more segments below `lower(url)` fails |
| `DocumentFixture.NotOnlyPrefixes` | kumascript/tests/macros/HTTPSidebar.test.ts:56-58 | a key that holds the parent in its middle also passes: `"en-us/docs/b"` for url `"/Docs"` |

## Left out

- React rendering, hooks and effect scheduling are not modelled. This includes the
  5-second undo timer (index.tsx:155-172) and the `doomed` state transitions. These are
  UI and timing concerns. The model covers only the decisions they wrap. The title is
  modelled as a sequence of `data` values seen by the effect.
- SWR fetching, `fetch`, `saveBookmarked`, the CSRF header, `mutate` and HTTP errors
  (index.tsx:64-74, 104-124) are network I/O.
- Authentication and subscription gating, and `DISABLE_AUTH` (index.tsx:126-142), are
  UI state from modules that are not part of this model.
- `dayjs` and the internals of `Link` and the router are not modelled. They are foreign
  libraries. `setSearchParams` is modelled as returning the new parameter list.
- `Bookmarks.MaxPage`: `Math.ceil` on floating-point numbers is modelled as integer
  ceiling division. For integer operands below 2^53 the two agree. `per_page > 0` is
  required because the view does not handle `per_page == 0`.
- `Strings.IntToDecimal`: JavaScript's exponent notation for numbers of 1e21 and above
  is not modelled, and neither are non-integer metadata values.
- `SearchParams.Serialize`: percent-encoding and `+` for spaces are not modelled.
  Parameters are name/value pairs joined with `=` and `&`.
- `Strings.Lower`: only ASCII letters are lower-cased. The Unicode case mapping of
  `toLowerCase` is not modelled.
- `DocumentFixture.FindByURL`: fixture values are always document objects, so the
  `!data` test fails only for a missing key. Keys that hit `Object.prototype`
  properties, such as `constructor`, are not modelled.
- Reading the fixture JSON file and the `jest.fn` wiring (HTTPSidebar.test.ts:14-19) are
  I/O and test harness. The fixture is a parameter.
- The macro under test, `macro.call`, jsdom, `lintHTML`, `checkSidebarDom` and the
  locale table (HTTPSidebar.test.ts:21-33, 76-92) are not modelled. The macro and the
  linter are not part of this model.
