/** The decision part of `handleNavigation`: given the URL fragment and the member list,
    where (if anywhere) the browser is sent. The assignment to `window.location.href`,
    the console diagnostics and the 100 ms retry timer are the caller's business; the
    decision is returned as an `Outcome`. */
module Navigation {
  import opened Text
  import opened Members

  datatype Outcome = NoAction | RetryLater | Redirect(url: string)

  datatype Direction = Prev | Next

  /** What the fragment asks for: the identifier before the first `?`, and the value after
      the first `=` of the text between the first and second `?` (the parameter name is
      never looked at). */
  datatype Request = Request(site: string, direction: Option<string>)

  /** The two identifiers that stand for the webring's own landing page. */
  const HomepageHost := "webring.skule.ca"
  const HomepageUrl := "https://webring.skule.ca"

  predicate IsHomepage(site: string) {
    site == HomepageHost || site == HomepageUrl
  }

  /** `navQuery ? navQuery.split('=')[1] : null`: the text after the first `=` of the query,
      up to the next `=` or the end. */
  function DirectionOf(query: Option<string>): (d: Option<string>)
    ensures d.Some? ==> query.Some? && '=' !in d.value
    ensures d.Some? <==> query.Some? && '=' in query.value
    ensures d.Some? ==>
      (query.Some? && '=' in query.value
       && var q, k := query.value, IndexOf(query.value, '=');
          d.value <= q[k + 1..] && (k + 1 + |d.value| == |q| || q[k + 1 + |d.value|] == '='))
  {
    match query
    case None => None
    case Some(q) =>
      if q == "" then None
      else
        var kv := Split(q, '=');
        if |kv| >= 2 then
          SplitAtFirst(q, '=');
          Some(kv[1])
        else None
  }

  /** `hashString.substring(1).split('?')`, keeping the first two pieces: the site runs from
      after the `#` up to the first `?`, and the direction is read from the text between the
      first and the second `?`. */
  function ParseHash(hash: string): (req: Request)
    requires |hash| >= 1
    ensures '?' !in req.site && req.site <= hash[1..]
    ensures |req.site| + 1 == |hash| || hash[|req.site| + 1] == '?'
    ensures req.direction.Some? ==> '?' !in req.direction.value && '=' !in req.direction.value
    ensures '?' !in hash[1..] ==> req == Request(hash[1..], None)
    ensures '?' in hash[1..] ==>
      (|req.site| + 2 <= |hash| && req.direction == DirectionOf(Some(Split(hash[|req.site| + 2..], '?')[0])))
  {
    var parts := Split(hash[1..], '?');
    assert parts[0] <= hash[1..];
    var query :=
      if |parts| >= 2 then
        SplitAtFirst(hash[1..], '?');
        assert hash[1..][|parts[0]| + 1..] == hash[|parts[0]| + 2..];
        Some(parts[1])
      else None;
    Request(parts[0], DirectionOf(query))
  }

  /** The fragment that the webring badge links to: `#<site>?<key>=<direction>`. */
  function NavHash(site: string, key: string, direction: string): string {
    "#" + site + "?" + key + "=" + direction
  }

  /** A member is the one the identifier names when its website is the identifier itself,
      or the identifier with `https://` or `http://` in front. */
  predicate SiteMatches(m: Member, site: string) {
    m.website == site || m.website == "https://" + site || m.website == "http://" + site
  }

  /** `members.findIndex(...)`: the first matching position, or none. */
  function FindMember(members: seq<Member>, site: string): (found: Option<nat>)
    ensures found.Some? ==> found.value < |members| && SiteMatches(members[found.value], site)
    ensures found.Some? ==> forall j :: 0 <= j < found.value ==> !SiteMatches(members[j], site)
    ensures found.None? ==> forall j :: 0 <= j < |members| ==> !SiteMatches(members[j], site)
  {
    if members == [] then None
    else if SiteMatches(members[0], site) then Some(0)
    else
      match FindMember(members[1..], site)
      case Some(i) => Some(i + 1)
      case None => None
  }

  /** The index one step around the ring from `i`, wrapping at both ends. */
  function Step(dir: Direction, i: nat, n: nat): (t: int)
    requires i < n
    ensures 0 <= t < n
    ensures dir == Prev ==> t == (i - 1 + n) % n
    ensures dir == Next ==> (i == n - 1 ==> t == 0) && (i < n - 1 ==> t == i + 1)
  {
    match dir
    case Prev =>
      WrapBack(i, n);
      if i == 0 then n - 1 else i - 1
    case Next =>
      WrapForward(i + 1, n);
      (i + 1) % n
  }

  lemma WrapForward(a: int, n: int)
    requires 0 <= a <= n && n > 0
    ensures a % n == if a == n then 0 else a
  {
  }

  lemma WrapBack(i: int, n: int)
    requires 0 <= i < n
    ensures (i - 1 + n) % n == if i == 0 then n - 1 else i - 1
  {
  }

  /** The redirect to the member at `target`, falling back to the first member when the
      index is out of range or that member has no website. */
  function RedirectTo(members: seq<Member>, target: int): (out: Outcome)
    requires |members| > 0
    ensures out.Redirect?
    ensures out.url == members[0].website || (0 <= target < |members| && out.url == members[target].website != "")
    ensures 0 <= target < |members| && members[target].website != "" ==> out.url == members[target].website
  {
    if target < 0 || target >= |members| then Redirect(members[0].website)
    else if members[target].website == "" then Redirect(members[0].website)
    else Redirect(members[target].website)
  }

  /** `handleNavigation`, as a decision. */
  function HandleNavigation(hash: string, members: seq<Member>): (out: Outcome)
    ensures out == RetryLater <==> |hash| > 1 && members == []
    ensures out.Redirect? ==> exists j :: 0 <= j < |members| && out.url == members[j].website
  {
    if |hash| <= 1 then NoAction
    else if |members| == 0 then RetryLater
    else Resolve(ParseHash(hash), members)
  }

  /** The decision once the fragment is parsed and the member list is loaded. */
  function Resolve(req: Request, members: seq<Member>): (out: Outcome)
    requires |members| > 0
    ensures out != RetryLater
    ensures out.Redirect? ==> exists j :: 0 <= j < |members| && out.url == members[j].website
  {
    if req.site == "" then NoAction
    else if IsHomepage(req.site) then FromHomepage(req.direction, members)
    else
      match AsDirection(req.direction)
      case Some(dir) => FromMember(req.site, dir, members)
      case None => NoAction
  }

  /** `navDirection === 'prev' || navDirection === 'next'` */
  function AsDirection(d: Option<string>): (dir: Option<Direction>)
    ensures dir == Some(Prev) <==> d == Some("prev")
    ensures dir == Some(Next) <==> d == Some("next")
  {
    if d == Some("prev") then Some(Prev)
    else if d == Some("next") then Some(Next)
    else None
  }

  /** From the landing page: `next` goes to the first member, `prev` to the last. */
  function FromHomepage(d: Option<string>, members: seq<Member>): (out: Outcome)
    requires |members| > 0
    ensures out.Redirect? <==> d == Some("next") || d == Some("prev")
    ensures out.Redirect? ==> out.url == members[if d == Some("next") then 0 else |members| - 1].website
  {
    if d == Some("next") then Redirect(members[0].website)
    else if d == Some("prev") then Redirect(members[|members| - 1].website)
    else NoAction
  }

  /** From a member's site: one step around the ring from the member the identifier
      names, or the first member when it names none. */
  function FromMember(site: string, dir: Direction, members: seq<Member>): (out: Outcome)
    requires |members| > 0
    ensures out.Redirect?
  {
    match FindMember(members, site)
    case Some(i) => RedirectTo(members, Step(dir, i, |members|))
    case None => Redirect(members[0].website)
  }

  // ---------------------------------------------------------------------------
  // Properties of the decision

  /** A well-formed badge link is parsed back into its identifier and direction. */
  lemma ParseNavHash(site: string, key: string, direction: string)
    requires '?' !in site && '?' !in key && '=' !in key
    requires '?' !in direction && '=' !in direction
    ensures ParseHash(NavHash(site, key, direction)) == Request(site, Some(direction))
  {
    var query := key + "=" + direction;
    assert NavHash(site, key, direction)[1..] == Join([site, query], '?');
    assert '?' !in query;
    SplitJoin([site, query], '?');
    assert query == Join([key, direction], '=');
    SplitJoin([key, direction], '=');
  }

  /** A second `=` in the query ends the direction: `#<site>?<key>=<direction>=<extra>`
      reads as `<direction>`, whatever follows. */
  lemma ParseNavHashExtraValue(site: string, key: string, direction: string, extra: string)
    requires '?' !in site && '?' !in key && '=' !in key
    requires '?' !in direction && '=' !in direction && '?' !in extra && '=' !in extra
    ensures ParseHash(NavHash(site, key, direction + "=" + extra)) == Request(site, Some(direction))
  {
    var value := direction + "=" + extra;
    var query := key + "=" + value;
    assert NavHash(site, key, value)[1..] == Join([site, query], '?');
    assert '?' !in value;
    assert '?' !in query;
    SplitJoin([site, query], '?');
    assert Join([direction, extra], '=') == value;
    assert [key, direction, extra][1..] == [direction, extra];
    assert query == Join([key, direction, extra], '=');
    SplitJoin([key, direction, extra], '=');
  }

  /** Exactly when the browser is sent somewhere: a fragment longer than `#`, a loaded
      member list, a non-empty identifier and a direction of exactly `prev` or `next`. */
  lemma RedirectsExactlyWhen(hash: string, members: seq<Member>)
    ensures HandleNavigation(hash, members).Redirect? <==>
      |hash| > 1 && |members| > 0 && ParseHash(hash).site != ""
      && ParseHash(hash).direction in {Some("prev"), Some("next")}
  {
  }

  /** No `?` after the identifier means no direction, hence no redirect. */
  lemma NoQueryNoRedirect(hash: string, members: seq<Member>)
    requires |hash| >= 1 && '?' !in hash[1..]
    ensures !HandleNavigation(hash, members).Redirect?
  {
  }

  /** A query without `=` names no direction, hence no redirect. */
  lemma NoEqualsNoRedirect(site: string, query: string, members: seq<Member>)
    requires '?' !in site && '?' !in query && '=' !in query
    ensures !HandleNavigation("#" + site + "?" + query, members).Redirect?
  {
    var hash := "#" + site + "?" + query;
    assert hash[1..] == Join([site, query], '?');
    SplitJoin([site, query], '?');
  }

  /** From the landing page, `next` enters the ring at its first member and `prev` at its
      last one, without looking the identifier up. */
  lemma HomepageEntersRing(site: string, key: string, members: seq<Member>)
    requires IsHomepage(site) && '?' !in key && '=' !in key
    requires |members| > 0
    ensures HandleNavigation(NavHash(site, key, "next"), members) == Redirect(members[0].website)
    ensures HandleNavigation(NavHash(site, key, "prev"), members) == Redirect(members[|members| - 1].website)
  {
    ParseNavHash(site, key, "next");
    ParseNavHash(site, key, "prev");
  }

  /** From a member found at index `i`, `next` and `prev` go one step around the ring,
      falling back to the first member when the neighbour has no website. */
  lemma FoundMemberSteps(site: string, key: string, members: seq<Member>, i: nat)
    requires site != "" && '?' !in site && !IsHomepage(site) && '?' !in key && '=' !in key
    requires FindMember(members, site) == Some(i)
    ensures var t := Step(Next, i, |members|);
      HandleNavigation(NavHash(site, key, "next"), members)
        == Redirect(if members[t].website != "" then members[t].website else members[0].website)
    ensures var t := Step(Prev, i, |members|);
      HandleNavigation(NavHash(site, key, "prev"), members)
        == Redirect(if members[t].website != "" then members[t].website else members[0].website)
  {
    StepRequest(site, key, "next", Next, members, i);
    StepRequest(site, key, "prev", Prev, members, i);
  }

  lemma StepRequest(site: string, key: string, token: string, dir: Direction, members: seq<Member>, i: nat)
    requires site != "" && '?' !in site && !IsHomepage(site) && '?' !in key && '=' !in key
    requires (token == "next" && dir == Next) || (token == "prev" && dir == Prev)
    requires FindMember(members, site) == Some(i)
    ensures HandleNavigation(NavHash(site, key, token), members) == RedirectTo(members, Step(dir, i, |members|))
  {
    ParseNavHash(site, key, token);
    assert AsDirection(Some(token)) == Some(dir);
    assert Resolve(Request(site, Some(token)), members) == FromMember(site, dir, members);
  }

  /** An identifier that names no member sends either direction to the first member. */
  lemma UnknownSiteGoesToFirst(site: string, key: string, direction: string, members: seq<Member>)
    requires site != "" && '?' !in site && !IsHomepage(site) && '?' !in key && '=' !in key
    requires direction == "prev" || direction == "next"
    requires |members| > 0 && FindMember(members, site) == None
    ensures HandleNavigation(NavHash(site, key, direction), members) == Redirect(members[0].website)
  {
    ParseNavHash(site, key, direction);
  }

  /** `next` undoes `prev` and `prev` undoes `next`. */
  lemma StepRoundTrip(i: nat, n: nat)
    requires i < n
    ensures Step(Next, Step(Prev, i, n), n) == i
    ensures Step(Prev, Step(Next, i, n), n) == i
  {
  }

  /** A ring in which every member can be named by its own website: the websites are
      non-empty, free of `?`, not the landing page, and no member's website matches another
      member's identifier (also not through the `https://`/`http://` tolerance). */
  predicate WellFormedRing(members: seq<Member>) {
    (forall j :: 0 <= j < |members| ==>
      members[j].website != "" && '?' !in members[j].website && !IsHomepage(members[j].website))
    && (forall j, k :: 0 <= j < |members| && 0 <= k < |members| && SiteMatches(members[j], members[k].website) ==> j == k)
  }

  lemma FindOwnSite(members: seq<Member>, i: nat)
    requires WellFormedRing(members) && i < |members|
    ensures FindMember(members, members[i].website) == Some(i)
  {
    assert SiteMatches(members[i], members[i].website);
  }

  /** One step from a member's own site, when that site names the member. */
  lemma StepFromOwnSite(members: seq<Member>, i: nat, key: string)
    requires i < |members| && '?' !in key && '=' !in key
    requires FindMember(members, members[i].website) == Some(i)
    requires members[i].website != "" && '?' !in members[i].website && !IsHomepage(members[i].website)
    ensures var n := |members|; var t := Step(Next, i, n);
      members[t].website != "" ==> HandleNavigation(NavHash(members[i].website, key, "next"), members) == Redirect(members[t].website)
    ensures var n := |members|; var t := Step(Prev, i, n);
      members[t].website != "" ==> HandleNavigation(NavHash(members[i].website, key, "prev"), members) == Redirect(members[t].website)
  {
    FoundMemberSteps(members[i].website, key, members, i);
  }

  /** The round-trip law of the ring, forward: following `next` from a member's own site
      and then `prev` from the site reached lands back on the member's site. */
  lemma RingNextThenPrev(members: seq<Member>, i: nat, key: string)
    requires WellFormedRing(members) && i < |members| && '?' !in key && '=' !in key
    ensures var after := members[(i + 1) % |members|].website;
      HandleNavigation(NavHash(members[i].website, key, "next"), members) == Redirect(after)
      && HandleNavigation(NavHash(after, key, "prev"), members) == Redirect(members[i].website)
  {
    var n := |members|;
    var a := Step(Next, i, n);
    assert a == (i + 1) % n;
    StepRoundTrip(i, n);
    FindOwnSite(members, i);
    FindOwnSite(members, a);
    StepFromOwnSite(members, i, key);
    StepFromOwnSite(members, a, key);
  }

  /** The round-trip law of the ring, backward: `prev` then `next` returns to the start. */
  lemma RingPrevThenNext(members: seq<Member>, i: nat, key: string)
    requires WellFormedRing(members) && i < |members| && '?' !in key && '=' !in key
    ensures var before := members[(i - 1 + |members|) % |members|].website;
      HandleNavigation(NavHash(members[i].website, key, "prev"), members) == Redirect(before)
      && HandleNavigation(NavHash(before, key, "next"), members) == Redirect(members[i].website)
  {
    var n := |members|;
    var b := Step(Prev, i, n);
    assert b == (i - 1 + n) % n;
    StepRoundTrip(i, n);
    FindOwnSite(members, i);
    FindOwnSite(members, b);
    StepFromOwnSite(members, i, key);
    StepFromOwnSite(members, b, key);
  }

  /** A three-member ring whose websites are `https://a.com`, `https://b.com` and
      `https://c.com`, in that order. */
  predicate IsExampleRing(ring: seq<Member>) {
    |ring| == 3 && ring[0].website == "https://a.com"
    && ring[1].website == "https://b.com" && ring[2].website == "https://c.com"
  }

  lemma ExampleNextWithin(hash: string, ring: seq<Member>)
    requires hash == "#b.com?nav=next" && IsExampleRing(ring)
    ensures HandleNavigation(hash, ring) == Redirect("https://c.com")
  {
    var site := "b.com";
    assert ring[0].website[8] == 'a' && ("https://" + site)[8] == 'b';
    assert !SiteMatches(ring[0], site) && SiteMatches(ring[1], site);
    assert FindMember(ring[1..], site) == Some(0);
    assert FindMember(ring, site) == Some(1);
    assert FromMember(site, Next, ring) == Redirect("https://c.com");
    assert AsDirection(Some("next")) == Some(Next);
    assert !IsHomepage(site);
    assert Resolve(Request(site, Some("next")), ring) == FromMember(site, Next, ring);
    assert hash == NavHash(site, "nav", "next");
    ParseNavHash(site, "nav", "next");
  }

  lemma ExamplePrevWraps(hash: string, ring: seq<Member>)
    requires hash == "#a.com?nav=prev" && IsExampleRing(ring)
    ensures HandleNavigation(hash, ring) == Redirect("https://c.com")
  {
    var site := "a.com";
    assert SiteMatches(ring[0], site);
    assert FindMember(ring, site) == Some(0);
    assert FromMember(site, Prev, ring) == Redirect("https://c.com");
    assert AsDirection(Some("prev")) == Some(Prev);
    assert !IsHomepage(site);
    assert Resolve(Request(site, Some("prev")), ring) == FromMember(site, Prev, ring);
    assert hash == NavHash(site, "nav", "prev");
    ParseNavHash(site, "nav", "prev");
  }

  lemma ExampleFromHomepage(hash: string, ring: seq<Member>)
    requires hash == "#webring.skule.ca?nav=next" && IsExampleRing(ring)
    ensures HandleNavigation(hash, ring) == Redirect("https://a.com")
  {
    assert hash == NavHash(HomepageHost, "nav", "next");
    HomepageEntersRing(HomepageHost, "nav", ring);
  }

  lemma ExampleUnknownSite(hash: string, ring: seq<Member>)
    requires hash == "#zzz.com?nav=next" && IsExampleRing(ring)
    ensures HandleNavigation(hash, ring) == Redirect("https://a.com")
  {
    assert hash == NavHash("zzz.com", "nav", "next");
    assert forall j :: 0 <= j < |ring| ==> |ring[j].website| == 13;
    assert FindMember(ring, "zzz.com") == None;
    UnknownSiteGoesToFirst("zzz.com", "nav", "next", ring);
  }

  lemma ExampleNoDirection(hash: string, ring: seq<Member>)
    requires hash == "#b.com" && IsExampleRing(ring)
    ensures HandleNavigation(hash, ring) == NoAction
    ensures HandleNavigation(hash, []) == RetryLater
  {
    NoQueryNoRedirect(hash, ring);
  }
}
