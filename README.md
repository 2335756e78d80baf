# Skule webring: the member directory and the ring navigator

The Skule webring is a static page that lists the sites of University of Toronto
engineering students and links them into a ring. Its page script (`js/script.js`) does
two things modelled here:

- **Ring navigation** (`handleNavigation`). A member's badge links back to the webring
  with a fragment `#<site>?nav=prev` or `#<site>?nav=next`. The script looks the site
  up in the member list and sends the browser one member further round the ring,
  wrapping at both ends. There are special cases for the webring's own landing page, an
  unknown site, a missing direction and a list that has not loaded yet.
- **The member directory.** This covers:
  - the table of members, 30 to a page;
  - the search box, a case-insensitive substring match on name, website, program,
    faculty or designation;
  - the pagination bar: previous, a window of at most five page buttons with the first
    and last page and ellipses around it, and next;
  - the two display formatters for a site's URL (`formatUrl`) and a graduation year
    (`formatGradYear`).

The model has one module per concern:

| module | file | contents |
|---|---|---|
| `Text` | `text.dfy` | the JavaScript string operations the script uses: `split` on one character, `includes`, `toLowerCase`/`toUpperCase`, `trim`, and a literal-prefix test (`StartsWith`) that stands for the anchored regular expression `/^https?:\/\//` |
| `Members` | `members.dfy` | a member record; an absent field is the empty string |
| `Format` | `format.dfy` | `formatUrl` and `formatGradYear` |
| `Navigation` | `navigation.dfy` | `handleNavigation` as a function from the fragment and the member list to an `Outcome`: no action, retry later, or a redirect to a URL |
| `Search` | `search.dfy` | the search term and the filter |
| `Pagination` | `pagination.dfy` | the page slice, the page count, the page window, and `renderPagination` as a method that builds the `Control` sequence |
| `Listing` | `listing.dfy` | `renderMembersList` as a method with its loop; the closure state (`filteredMembers`, `currentPage`) of the page set-up as the class `MemberDirectory`, with `performSearch` and `goToPage` as its methods |

The DOM is represented by values:
- A table row is a `Row`, and `CellsOf` gives its cells.
- A pagination button or ellipsis is a `Control`.
- The redirect is returned instead of being assigned to `window.location.href`.
- The theme (`data-theme` on `body`) is a parameter.

## Model

| member | source | states |
|---|---|---|
| Text.Contains | js/script.js:596-600 | `includes`: the text occurs at some position of the string |
| Text.StartsWith | js/script.js:799 | the anchored test `/^https?:\/\//` of one literal scheme: the string begins with that text |
| Text.Split | js/script.js:844 | `split` on one character: at least one piece, no piece holds the separator, the first piece is the input up to the first separator or the end, and there are two or more pieces exactly when the separator occurs |
| Text.JoinSplit | js/script.js:802 | gluing the pieces of a split back together with the separator gives the input again |
| Text.SplitJoin | js/script.js:844 | splitting pieces that were joined with a separator they do not contain gives the pieces back |
| Text.IndexOf | js/script.js:844 | the first position of the character: it is there and not before |
| Text.Lower | js/script.js:589 | `toLowerCase` keeps the length and lowers each character |
| Text.Upper | js/script.js:814 | `toUpperCase` keeps the length and raises each character |
| Text.TrimStart | js/script.js:589 | drops exactly the leading white space |
| Text.TrimEnd | js/script.js:589 | drops exactly the trailing white space |
| Text.Trim | js/script.js:589 | `trim`: the result neither starts nor ends with white space, and the input is the result with only white space before and after it |
| Text.SurroundedAt | js/script.js:589 | trimming the front and then the back leaves text that sits between white space in the input |
| Text.TrimEmptyIffAllSpace | js/script.js:589-591 | trimming gives the empty string exactly when the input is all white space |
| Text.LowerIdempotent | js/script.js:589 | lowering twice is lowering once |
| Text.LowerKeepsSpace | js/script.js:589 | lowering neither makes nor removes white space |
| Format.StripScheme | js/script.js:799 | drops a leading `https://` (8 characters) or else `http://` (7), and otherwise leaves the URL alone; the result is a suffix of the URL |
| Format.StripTrailingSlash | js/script.js:805 | drops the final character when it is a `/`, and otherwise leaves the text alone |
| Format.FormatUrl | js/script.js:797-806 | the link text is the part of the scheme-less URL before its first `/`: a prefix that holds no `/` and ends at the end of the URL or at a `/` |
| Format.FormatUrlHasNoScheme | js/script.js:797-806 | the link text never starts with `http://` or `https://` |
| Format.FormatUrlIdempotent | js/script.js:797-806 | formatting a formatted URL changes nothing |
| Format.IsUofTYear | js/script.js:813 | the `/^\d{1}T\d{1}$/i` test: a digit, `T` or `t`, a digit |
| Format.IsFullYear | js/script.js:818 | the `/^20\d{2}$/` test: `20` and two digits |
| Format.FormatGradYear | js/script.js:809-827 | gives `N/A` for an absent year; `xTy` upper-cased for the `xTy` form in either case; `yTz` for `20yz`; otherwise the input unchanged; never empty |
| Format.FormatGradYearIdempotent | js/script.js:809-827 | formatting a formatted year changes nothing |
| Format.FormatGradYearCases | js/script.js:809-827 | every result is `N/A`, an upper-case `xTy` token, or the input |
| Navigation.DirectionOf | js/script.js:851 | there is a direction exactly when there is a query holding `=`; it is the text after the first `=`, up to the next `=` or the end |
| Navigation.ParseHash | js/script.js:844 | the site is the part of the fragment after `#` up to the first `?` or the end; without a `?` the whole fragment is the site and there is no direction; with one, the direction is read from the text between the first and the second `?` |
| Navigation.IsHomepage | js/script.js:856 | the two landing-page identifiers, compared exactly (no scheme tolerance) |
| Navigation.SiteMatches | js/script.js:875-877 | a member's website is the site, or the site with `https://` or `http://` in front |
| Navigation.FindMember | js/script.js:874-878 | `findIndex`: the first member whose website is the site, or the site with `https://` or `http://` in front; none when no member matches |
| Navigation.Step | js/script.js:886-894 | one step round the ring: `prev` from 0 goes to the last index, `next` from the last index goes to 0, and every other step moves by one; the result is always a valid index |
| Navigation.RedirectTo | js/script.js:897-911 | always a redirect: to the target member's website when the index is valid and the website is not empty, otherwise to the first member's website |
| Navigation.HandleNavigation | js/script.js:830-931 | retry later exactly when the fragment is longer than `#` and the list is empty; every redirect goes to some member's website |
| Navigation.Resolve | js/script.js:844-931 | with the list loaded it never asks for a retry, and every redirect goes to some member's website |
| Navigation.AsDirection | js/script.js:872 | only the exact tokens `prev` and `next` are directions |
| Navigation.FromHomepage | js/script.js:856-869 | from the landing page there is a redirect exactly for `next` (to the first member) and `prev` (to the last member) |
| Navigation.FromMember | js/script.js:872-926 | with a direction, a member site always redirects |
| Navigation.ParseNavHash | js/script.js:844-851 | a badge fragment `#<site>?<key>=<direction>` parses back into its site and direction |
| Navigation.RedirectsExactlyWhen | js/script.js:830-931 | there is a redirect exactly when the fragment is longer than `#`, the list is loaded, the site is not empty, and the direction is `prev` or `next` |
| Navigation.ParseNavHashExtraValue | js/script.js:844-851 | `#<site>?<key>=<direction>=<extra>` reads as direction `<direction>`: a second `=` ends it |
| Navigation.NoQueryNoRedirect | js/script.js:844-851 | a fragment without `?` never redirects |
| Navigation.NoEqualsNoRedirect | js/script.js:851 | a query without `=` never redirects |
| Navigation.HomepageEntersRing | js/script.js:856-869 | from either landing-page identifier, `next` goes to the first member and `prev` to the last, without looking the site up |
| Navigation.FoundMemberSteps | js/script.js:883-911 | from a member found at index `i`, `next` and `prev` go to the neighbour one step round the ring, or to the first member when the neighbour has no website |
| Navigation.StepRequest | js/script.js:872-911 | a badge fragment naming a found member redirects to one step round the ring from it |
| Navigation.UnknownSiteGoesToFirst | js/script.js:916-926 | a site that names no member sends either direction to the first member |
| Navigation.StepRoundTrip | js/script.js:886-894 | `next` undoes `prev` and `prev` undoes `next` |
| Navigation.FindOwnSite | js/script.js:874-878 | in a ring where no website matches another member, a member's own website finds that member |
| Navigation.StepFromOwnSite | js/script.js:883-911 | from a member's own website, `next`/`prev` reach the neighbour's website when it is not empty |
| Navigation.RingNextThenPrev | js/script.js:883-911 | in a well-formed ring, following `next` and then `prev` from the site reached returns to the start |
| Navigation.RingPrevThenNext | js/script.js:883-911 | in a well-formed ring, following `prev` and then `next` returns to the start |
| Navigation.ExampleNextWithin | js/script.js:883-911 | with sites a, b, c, `#b.com?nav=next` goes to c |
| Navigation.ExamplePrevWraps | js/script.js:886-889 | with sites a, b, c, `#a.com?nav=prev` wraps round to c |
| Navigation.ExampleFromHomepage | js/script.js:856-861 | `#webring.skule.ca?nav=next` goes to a |
| Navigation.ExampleUnknownSite | js/script.js:916-926 | `#zzz.com?nav=next` falls back to a |
| Navigation.ExampleNoDirection | js/script.js:833-842 | `#b.com` does nothing with the list loaded and asks for a retry without it |
| Search.SearchTerm | js/script.js:589 | the lowered, trimmed box text; blank exactly when the input is all white space |
| Search.FieldMatches | js/script.js:596-600 | a field matches when it is present and its lowered text contains the term |
| Search.Matches | js/script.js:594-601 | the filter callback: the term occurs in the name, website, program, faculty or designation |
| Search.SubsequenceOfSelf | js/script.js:592 | keeping every member is a subsequence |
| Search.Filter | js/script.js:594-602 | `members.filter(...)` keeps members in their original order |
| Search.FilterCounts | js/script.js:594-602 | the filter keeps each matching member as often as it occurs, and drops every other member |
| Search.SearchResults | js/script.js:588-603 | the searched list is a subsequence of the members |
| Search.BlankSearchListsAll | js/script.js:589-592 | an input of only white space lists every member, in order |
| Search.SearchKeepsExactlyMatches | js/script.js:593-602 | any other input lists, in order, each member that matches the lowered and trimmed term as often as it occurs, and nothing else |
| Search.SearchIgnoresInputCase | js/script.js:589 | the case of the typed input does not change the results |
| Search.SearchMembership | js/script.js:594-602 | for a non-blank term, a member is listed exactly when it is a member and matches |
| Pagination.PageSlice | js/script.js:621-623 | the slice of page `page`: from `(page-1)*perPage` to `startIndex + perPage`, clamped to the list |
| Pagination.PageCount | js/script.js:691 | there are no pages exactly when there are no items |
| Pagination.PageCountBounds | js/script.js:691 | `Math.ceil`: the pages hold every item, and the last page is not empty |
| Pagination.JsSlice | js/script.js:623 | `slice` is no longer than the input, and it is the plain subsequence for indices inside the input |
| Pagination.PageSliceRange | js/script.js:621-623 | page `p` holds the items from `(p-1)*perPage` up to `p*perPage` or the end, at most `perPage` of them, and none once it starts past the end |
| Pagination.PageStart | js/script.js:621-622 | an existing page starts inside the item list |
| Pagination.PagesFrom | js/script.js:621-623 | the pages from `p` to the last one, laid end to end, are the items from `(p-1)*perPage` on |
| Pagination.PagesPartition | js/script.js:621-623 | pages `1..PageCount` show every item exactly once, in order |
| Pagination.WindowBounds | js/script.js:710-717 | the window holds the current page, stays within `1..pages`, spans `min(5, pages)` pages, and is centred on the current page away from the ends |
| Pagination.WindowComputation | js/script.js:710-717 | the three-step computation of the first and last window pages equals the clamped closed form |
| Pagination.WindowStart | js/script.js:711-717 | the first page of the window, in closed form |
| Pagination.WindowEnd | js/script.js:712 | the last page of the window, in closed form |
| Pagination.Run | js/script.js:735-743 | the buttons of the pages `start..stop-1`, the current one active |
| Pagination.Lead | js/script.js:720-732 | the page-1 button and an ellipsis before a window that does not reach them |
| Pagination.Trail | js/script.js:746-758 | an ellipsis and the last-page button after a window that does not reach them |
| Pagination.Controls | js/script.js:691-769 | the whole control sequence: nothing for no items, otherwise previous, `Lead`, the window, `Trail` and next |
| Pagination.RunButtons | js/script.js:735-743 | the loop's buttons are the window's pages in order, and only the current page is active |
| Pagination.RenderPagination | js/script.js:688-769 | the controls appended are exactly `Controls` of the item count, the page and the page size |
| Pagination.ControlPositions | js/script.js:698-769 | where each control sits on a valid page: previous at 0; a page-1 button at 1 when the window starts after page 1, and an ellipsis at 2 exactly when it starts after page 2; the window's buttons in order from the next position, the current page active; an ellipsis third from the end exactly when the window ends before page `pages - 1`; a last-page button second from the end when it ends before `pages`; next at the end |
| Pagination.FramedPositions | js/script.js:719-758 | the same positions, for a window of `min(5, pages)` pages framed by the first and last page |
| Pagination.LadderAppend | js/script.js:719-758 | a run of page buttons followed directly by the next page is still a run of consecutive pages |
| Pagination.LadderAppendGap | js/script.js:719-758 | an ellipsis may join two runs only where pages are skipped |
| Pagination.RunLadder | js/script.js:735-743 | the window's buttons list consecutive pages |
| Pagination.LadderPages | js/script.js:719-758 | a ladder holds only page buttons and ellipses, with pages in its range and its last page at the top |
| Pagination.LadderIncreasing | js/script.js:719-758 | the pages of a ladder increase strictly from left to right |
| Pagination.MiddleLadder | js/script.js:719-758 | between previous and next, the controls list pages 1 to `pages` in increasing order, with an ellipsis exactly where pages are skipped |
| Pagination.PaginationLayout | js/script.js:691-769 | on a valid page: previous comes first and is disabled on page 1; next comes last and is disabled on the last page; pages 1 to `pages` lie between them as a ladder; there are 3 to 11 controls |
| Pagination.MiddleActive | js/script.js:735-743 | between previous and next, a button is active exactly when it is the current page, and the current page has its button |
| Pagination.FramedActive | js/script.js:699-769 | adding previous and next around the buttons keeps exactly one button active |
| Pagination.ExactlyOneActive | js/script.js:735-743 | on a valid page exactly one page button is active, and it is the current page |
| Pagination.ClickTarget | js/script.js:702-768 | the page a click goes to: previous and next move one page while there is one, a page button goes to its page, an ellipsis does nothing |
| Pagination.FramedClicks | js/script.js:699-769 | framing buttons of pages `1..pages` with previous and next keeps every click in range |
| Pagination.ClicksStayInRange | js/script.js:699-769 | on a valid page every click lands on a page in `1..pages`, and previous or next is disabled exactly when clicking it does nothing |
| Pagination.NoItemsNoControls | js/script.js:693-696 | no items, no controls |
| Listing.CellsOf | js/script.js:642-681 | the cells of a member's row |
| Listing.RowShowsMember | js/script.js:638-681 | a row's cells: the badge and the site text link to the website; the badge is the member's own or the theme's default; the alternative text is `<name> Badge`, or `Member Badge` without a name; the program cell is `program`, or `faculty` when `program` is absent; the link text is the scheme-less URL up to its first `/` (`formatUrl`); the graduation cell is the formatted year |
| Listing.PageRows | js/script.js:621-684 | the rows of page `page`: the "no matching members" row for an empty slice, otherwise one row per member of the slice |
| Listing.RowsOf | js/script.js:638-684 | one row per member, in order |
| Listing.RenderMembersList | js/script.js:616-685 | the rows appended are those of the page's slice, or the single "no matching members" row for an empty slice |
| Listing.PageRowsShowMembers | js/script.js:621-631 | page `p` shows the "no matching members" row exactly when it starts past the last member; otherwise it shows one row per member from `(p-1)*perPage` on, at most `perPage` rows, in order |
| Listing.SliceRows | js/script.js:621-638 | the rows of a non-empty slice are its members' rows, never the empty row |
| Listing.MemberOnItsPage | js/script.js:621-631 | member `k` is row `k % perPage` of page `k / perPage + 1`, and that page is one the pagination offers |
| Listing.FilterMembers | js/script.js:776-789 | the filtering of `performSearch` and `goToPage` gives the search results of the box's text |
| Listing.MemberDirectory.constructor | js/script.js:572-575 | the set-up state: every member is kept and the page is 1 |
| Listing.MemberDirectory.Render | js/script.js:610-612 | renders the rows and controls of page 1 of the kept members |
| Listing.MemberDirectory.PerformSearch | js/script.js:588-608 | keeps the search results of the input, goes back to page 1, renders it, and keeps the directory invariant |
| Listing.MemberDirectory.GoToPage | js/script.js:772-793 | renders the requested page of the search results for the box's current text; the page state is left unchanged |
| Listing.MemberDirectory.GoToPageKeepsSearch | js/script.js:772-793 | when the box's text is that of the last search, moving to a page shows that page of the kept members |

## Left out

- The WebGL background, the theme toggle and persistence, and badge loading with its
  `onerror` fallback are not modelled.
- The random-member link (`Math.random`), the table scroll indicators, timers and the
  console diagnostics are not modelled. They are I/O or randomness and decide nothing
  the model states.
- Event wiring is not modelled: the search button, the Enter key and `hashchange`.
  Each handler is a method or function that its caller invokes.
- Text.Lower: `toLowerCase` is modelled for the ASCII letters only. Letters outside ASCII
  keep their case, so a search that depends on non-ASCII case mapping is not captured.
- Text.Upper: `toUpperCase` is modelled for the ASCII letters only. It is only applied to
  `xTy` year tokens, which are ASCII.
- Members: an absent field (`undefined`) is the empty string. Every test in the script
  treats both the same way, except the places listed below.
- Listing.RowShowsMember: a member with no name shows `undefined` in the name cell. The
  model shows the empty string there.
- Format.FormatUrl: `formatUrl(undefined)` throws. The model formats the empty string.
- Format.FormatGradYear: a graduation year that is a number rather than a string is not
  modelled, because the regular-expression tests coerce it.
- Navigation.HandleNavigation: the retry is a decision only (`RetryLater`). The script
  retries every 100 ms without bound. An empty list is therefore never reported as final:
  it is retried.
- Navigation.HandleNavigation: a member whose website is absent is modelled with the empty
  string. Where the script assigns `window.location.href = members[k].website` (the first
  or last member on the landing-page branch, and the first member as fallback) it assigns
  `undefined`, and the browser goes to the relative URL `undefined`. The model returns
  `Redirect("")` there.
- Navigation.FromHomepage: the landing-page branch redirects to the first or last
  member's website even when that website is empty. Only the member branch has the
  empty-website fallback.
- Listing.MemberDirectory.GoToPage: `goToPage` is a closure of `renderPagination`. It
  re-filters the global member list by the text now in the search box, which need not be
  the text of the last search. It never writes the page-set-up variables
  `filteredMembers` and `currentPage`, so `currentPage` stays 1 after the first render.
- Listing.MemberDirectory: the rows are `Row` values. The cells come from
  `Listing.CellsOf`, not from HTML strings. HTML escaping of member data and the
  `target`/`rel` attributes are not modelled.
