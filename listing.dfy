/** The member table of the directory page: the rows `renderMembersList` builds for one
    page, and the page state (`filteredMembers`, `currentPage`) that the search box and the
    pagination controls work on. Table rows and their cells become `Row` values; the theme
    is a parameter. */
module Listing {
  import opened Members
  import opened Format
  import opened Search
  import opened Pagination

  /** `membersPerPage` */
  const MembersPerPage := 30

  const DefaultBadge := "badges/default-badge.png"
  const DefaultBadgeDark := "badges/default-badge-dark.png"

  /** One row of the table: the "no matching members" row, or the row of a member drawn
      in the dark or the light theme, whose cells `CellsOf` gives. */
  datatype Row = NoMatches | MemberRow(member: Member, dark: bool)

  /** The cells of a member's row: the badge (its link, image source and alternative text),
      the site link and its text, and the name, program, designation, year and graduation
      columns. */
  datatype Cells = Cells(badgeHref: string, badgeSrc: string, badgeAlt: string,
                         linkHref: string, linkText: string, name: string, program: string,
                         designation: string, year: string, grad: string)

  /** The badge shown when a member has none, for the dark or the light theme. */
  function DefaultBadgePath(dark: bool): string {
    if dark then DefaultBadgeDark else DefaultBadge
  }

  /** The cells of a member's row (the body of the `forEach` in `renderMembersList`). */
  function CellsOf(m: Member, dark: bool): Cells {
    var program := if m.program != "" then m.program else m.faculty;
    var alt := if m.name != "" then m.name + " Badge" else "Member Badge";
    var src := if m.badge != "" then m.badge else DefaultBadgePath(dark);
    Cells(m.website, src, alt, m.website, FormatUrl(m.website), m.name, program, m.designation,
          m.year, FormatGradYear(m.grad))
  }

  /** What a member's row shows: the badge and the site text link to the member's site;
      the badge is the member's own or the theme's default one; the program cell falls back
      to the older `faculty` field; the site text is the bare host and the graduation cell
      is never empty. */
  lemma RowShowsMember(m: Member, dark: bool)
    ensures var c := CellsOf(m, dark);
      c.badgeHref == m.website && c.linkHref == m.website && c.name == m.name
      && c.badgeSrc != "" && (m.badge != "" ==> c.badgeSrc == m.badge)
      && (m.badge == "" ==> c.badgeSrc == DefaultBadgePath(dark))
      && c.badgeAlt != "" && (m.name == "" ==> c.badgeAlt == "Member Badge")
      && (m.name != "" ==> c.badgeAlt == m.name + " Badge")
      && (c.program == "" <==> m.program == "" && m.faculty == "")
      && (m.program != "" ==> c.program == m.program)
      && (m.program == "" ==> c.program == m.faculty)
      && '/' !in c.linkText && c.linkText <= StripScheme(m.website)
      && (|c.linkText| == |StripScheme(m.website)| || StripScheme(m.website)[|c.linkText|] == '/')
      && c.grad != "" && c.grad == FormatGradYear(m.grad)
  {
  }

  /** The rows the table shows for page `page` of `members`. */
  function PageRows(members: seq<Member>, page: int, perPage: nat, dark: bool): seq<Row> {
    var current := PageSlice(members, page, perPage);
    if |current| == 0 then [NoMatches] else RowsOf(current, dark)
  }

  /** One row per member, in order. */
  function RowsOf(ms: seq<Member>, dark: bool): (rows: seq<Row>)
    ensures |rows| == |ms| && forall j :: 0 <= j < |ms| ==> rows[j] == MemberRow(ms[j], dark)
  {
    if ms == [] then [] else RowsOf(ms[..|ms| - 1], dark) + [MemberRow(ms[|ms| - 1], dark)]
  }

  /** `renderMembersList`: the rows appended to the emptied table body. */
  method RenderMembersList(membersArray: seq<Member>, currentPage: int, membersPerPage: nat, dark: bool)
    returns (rows: seq<Row>)
    ensures rows == PageRows(membersArray, currentPage, membersPerPage, dark)
  {
    var startIndex := (currentPage - 1) * membersPerPage;
    var endIndex := Min(startIndex + membersPerPage, |membersArray|);
    var currentMembers := JsSlice(membersArray, startIndex, endIndex);
    assert currentMembers == PageSlice(membersArray, currentPage, membersPerPage);
    if |currentMembers| == 0 {
      return [NoMatches];
    }
    rows := [];
    var k := 0;
    while k < |currentMembers|
      invariant 0 <= k <= |currentMembers|
      invariant rows == RowsOf(currentMembers[..k], dark)
    {
      assert currentMembers[..k + 1][..k] == currentMembers[..k];
      rows := rows + [MemberRow(currentMembers[k], dark)];
      k := k + 1;
    }
    assert currentMembers[..k] == currentMembers;
  }

  /** On page `page` (counted from 1) the table shows the "no matching members" row exactly
      when the page starts past the last member; otherwise one row per member from
      `(page-1)*perPage` on, at most `perPage` of them, in order. */
  lemma PageRowsShowMembers(members: seq<Member>, page: int, perPage: nat, dark: bool)
    requires page >= 1 && perPage > 0
    ensures var lo, rows := (page - 1) * perPage, PageRows(members, page, perPage, dark);
      lo >= 0
      && (rows == [NoMatches] <==> lo >= |members|)
      && (lo < |members| ==>
            |rows| == Min(perPage, |members| - lo)
            && forall j :: 0 <= j < |rows| ==> rows[j] == MemberRow(members[lo + j], dark))
  {
    PageSliceRange(members, page, perPage);
    var lo := (page - 1) * perPage;
    if lo < |members| {
      SliceRows(members, lo, Min(lo + perPage, |members|), PageSlice(members, page, perPage), dark);
    }
  }

  lemma SliceRows(members: seq<Member>, lo: int, hi: int, current: seq<Member>, dark: bool)
    requires 0 <= lo < hi <= |members| && current == members[lo..hi]
    ensures var rows := RowsOf(current, dark);
      |rows| == hi - lo && rows != [NoMatches]
      && forall j :: 0 <= j < |rows| ==> rows[j] == MemberRow(members[lo + j], dark)
  {
  }

  /** Quotient and remainder of a division by a positive number. */
  lemma DivMod(k: nat, d: nat)
    requires d > 0
    ensures k == (k / d) * d + k % d && 0 <= k % d < d
  {
  }

  /** Every member appears on the page its position gives: member `k` is row `k % perPage`
      of page `k / perPage + 1`, and that page is one the pagination offers. */
  lemma {:induction false} MemberOnItsPage(members: seq<Member>, k: nat, perPage: nat, dark: bool)
    requires k < |members| && perPage > 0
    ensures var page := k / perPage + 1;
      1 <= page <= PageCount(|members|, perPage)
      && k % perPage < |PageRows(members, page, perPage, dark)|
      && PageRows(members, page, perPage, dark)[k % perPage] == MemberRow(members[k], dark)
  {
    var q, r := k / perPage, k % perPage;
    DivMod(k, perPage);
    var page := q + 1;
    assert (page - 1) * perPage == k - r;
    PageRowsShowMembers(members, page, perPage, dark);
    PageCountBounds(|members|, perPage);
    var pages := PageCount(|members|, perPage);
    if page > pages {
      MulMonotonic(pages, q, perPage);
    }
  }

  /** The filtering `performSearch` and `goToPage` both do: every member for a blank
      term, otherwise the members the term matches. */
  method FilterMembers(members: seq<Member>, input: string) returns (filtered: seq<Member>)
    ensures filtered == SearchResults(members, input)
  {
    var searchTerm := SearchTerm(input);
    if searchTerm == "" {
      filtered := members;
    } else {
      filtered := Filter(members, searchTerm);
    }
  }

  /** The page state of the directory: the members the last search kept and the page the
      script's own variable names. */
  class MemberDirectory {
    const members: seq<Member>
    var filteredMembers: seq<Member>
    var currentPage: int
    /** The search box text of the last search, blank before the first one. */
    ghost var lastSearch: string

    /** The kept members are always the results of the last search, and the page variable
        never leaves 1: only a search assigns it, and page changes pass their page on. */
    ghost predicate Valid()
      reads this
    {
      filteredMembers == SearchResults(members, lastSearch) && currentPage == 1
    }

    /** Setting up the pagination state: every member kept, page 1. */
    constructor (members: seq<Member>)
      ensures Valid()
      ensures this.members == members && filteredMembers == members && currentPage == 1
    {
      this.members := members;
      filteredMembers := members;
      currentPage := 1;
      lastSearch := "";
    }

    /** Rendering the page state: the rows and the controls of the current page of the kept
        members (the initial render, and the end of every search). */
    method Render(dark: bool) returns (rows: seq<Row>, controls: seq<Control>)
      requires Valid()
      ensures rows == PageRows(filteredMembers, 1, MembersPerPage, dark)
      ensures controls == Controls(|filteredMembers|, 1, MembersPerPage)
    {
      rows := RenderMembersList(filteredMembers, currentPage, MembersPerPage, dark);
      controls := RenderPagination(|filteredMembers|, currentPage, MembersPerPage);
    }

    /** `performSearch`: keeps the members matching the box's text, goes back to page 1 and
        renders it. */
    method PerformSearch(input: string, dark: bool) returns (rows: seq<Row>, controls: seq<Control>)
      requires Valid()
      modifies this
      ensures Valid() && lastSearch == input
      ensures filteredMembers == SearchResults(members, input)
      ensures rows == PageRows(filteredMembers, 1, MembersPerPage, dark)
      ensures controls == Controls(|filteredMembers|, 1, MembersPerPage)
    {
      lastSearch := input;
      filteredMembers := FilterMembers(members, input);
      currentPage := 1;
      rows, controls := Render(dark);
    }

    /** `goToPage`: filters the members again by the box's current text, which need not be
        the text of the last search, and renders page `page` of them; the page state is
        left as it is. */
    method GoToPage(input: string, page: int, dark: bool) returns (rows: seq<Row>, controls: seq<Control>)
      ensures rows == PageRows(SearchResults(members, input), page, MembersPerPage, dark)
      ensures controls == Controls(|SearchResults(members, input)|, page, MembersPerPage)
    {
      var filtered := FilterMembers(members, input);
      rows := RenderMembersList(filtered, page, MembersPerPage, dark);
      controls := RenderPagination(|filtered|, page, MembersPerPage);
    }

    /** With the box's text unchanged since the last search, moving to a page shows that
        page of the kept members. */
    lemma GoToPageKeepsSearch(input: string, page: int, dark: bool)
      requires Valid() && input == lastSearch
      ensures PageRows(SearchResults(members, input), page, MembersPerPage, dark)
        == PageRows(filteredMembers, page, MembersPerPage, dark)
    {
    }
  }
}
