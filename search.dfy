/** The member search of the directory page: the predicate `performSearch` and
    `goToPage` pass to `members.filter`, and the list of members a search shows. */
module Search {
  import opened Text
  import opened Members

  /** `field && field.toLowerCase().includes(term)`: an absent (empty) field never matches. */
  predicate FieldMatches(field: string, term: string) {
    field != "" && Contains(Lower(field), term)
  }

  /** The filter callback: the term occurs, ignoring case, in the member's name, website,
      program, faculty or designation. */
  predicate Matches(m: Member, term: string) {
    FieldMatches(m.name, term) || FieldMatches(m.website, term) || FieldMatches(m.program, term)
    || FieldMatches(m.faculty, term) || FieldMatches(m.designation, term)
  }

  /** `a` is `b` with some elements deleted, the rest kept in order. */
  ghost predicate Subsequence<T>(a: seq<T>, b: seq<T>)
    decreases |b|
  {
    a == [] || (b != [] && (Subsequence(a, b[1..]) || (a[0] == b[0] && Subsequence(a[1..], b[1..]))))
  }

  lemma {:induction false} SubsequenceOfSelf<T>(s: seq<T>)
    ensures Subsequence(s, s)
  {
    if s != [] {
      SubsequenceOfSelf(s[1..]);
    }
  }

  /** `members.filter(member => Matches(member, term))` */
  function Filter(members: seq<Member>, term: string): (r: seq<Member>)
    ensures Subsequence(r, members)
  {
    if members == [] then []
    else
      var rest := Filter(members[1..], term);
      if Matches(members[0], term) then [members[0]] + rest else rest
  }

  /** The filter keeps each matching member as often as it occurs, and no other member. */
  lemma {:induction false} FilterCounts(members: seq<Member>, term: string)
    ensures var r := Filter(members, term);
      forall x :: multiset(r)[x] == if Matches(x, term) then multiset(members)[x] else 0
  {
    if members != [] {
      FilterCounts(members[1..], term);
      assert members == [members[0]] + members[1..];
    }
  }

  /** `searchInput.value.toLowerCase().trim()`: blank exactly for an input of white space. */
  function SearchTerm(input: string): (term: string)
    ensures term == [] <==> AllSpace(input)
  {
    LowerKeepsSpace(input);
    TrimEmptyIffAllSpace(Lower(input));
    Trim(Lower(input))
  }

  /** The members a search for `input` lists: all of them, in order, for a blank term;
      otherwise the matching ones. */
  function SearchResults(members: seq<Member>, input: string): (r: seq<Member>)
    ensures Subsequence(r, members)
  {
    SubsequenceOfSelf(members);
    if SearchTerm(input) == "" then members else Filter(members, SearchTerm(input))
  }

  /** A blank input (only white space) lists every member, in order. */
  lemma BlankSearchListsAll(members: seq<Member>, input: string)
    requires AllSpace(input)
    ensures SearchResults(members, input) == members
  {
  }

  /** Any other input lists each member exactly as often as it occurs if it matches the
      lower-cased, trimmed term, and not at all otherwise, in the original order. */
  lemma SearchKeepsExactlyMatches(members: seq<Member>, input: string)
    requires !AllSpace(input)
    ensures var r := SearchResults(members, input);
      Subsequence(r, members)
      && forall x :: multiset(r)[x] == if Matches(x, SearchTerm(input)) then multiset(members)[x] else 0
  {
    FilterCounts(members, SearchTerm(input));
  }

  /** The case of the typed input does not matter. */
  lemma SearchIgnoresInputCase(members: seq<Member>, input: string)
    ensures SearchResults(members, Lower(input)) == SearchResults(members, input)
  {
    LowerIdempotent(input);
  }

  /** Every listed member is a member and matches the term; every matching member is listed. */
  lemma SearchMembership(members: seq<Member>, input: string, m: Member)
    requires SearchTerm(input) != ""
    ensures m in SearchResults(members, input) <==> m in members && Matches(m, SearchTerm(input))
  {
    var r := SearchResults(members, input);
    FilterCounts(members, SearchTerm(input));
    assert m in r <==> multiset(r)[m] > 0;
    assert m in members <==> multiset(members)[m] > 0;
  }
}
