/** Display formatters of the member table: `formatUrl` (the link text of a member's site)
    and `formatGradYear` (the graduation column). */
module Format {
  import opened Text

  /** `url.replace(/^https?:\/\//, '')`: drops one leading `https://` or `http://`. */
  function StripScheme(url: string): (r: string)
    ensures |r| <= |url| && r == url[|url| - |r|..]
    ensures StartsWith(url, "https://") ==> |r| == |url| - 8
    ensures !StartsWith(url, "https://") && StartsWith(url, "http://") ==> |r| == |url| - 7
    ensures !StartsWith(url, "https://") && !StartsWith(url, "http://") ==> r == url
  {
    if StartsWith(url, "https://") then url[8..]
    else if StartsWith(url, "http://") then url[7..]
    else url
  }

  /** `s.replace(/\/$/, '')`: drops one trailing slash. */
  function StripTrailingSlash(s: string): (r: string)
    ensures r <= s && |s| - 1 <= |r|
    ensures r != s ==> s[|s| - 1] == '/'
    ensures s != [] && s[|s| - 1] == '/' ==> r == s[..|s| - 1]
  {
    if s != [] && s[|s| - 1] == '/' then s[..|s| - 1] else s
  }

  /** `formatUrl`: the host part of a member's URL, shown as the link text. */
  function FormatUrl(url: string): (r: string)
    ensures '/' !in r
    ensures r <= StripScheme(url)
    ensures |r| == |StripScheme(url)| || StripScheme(url)[|r|] == '/'
  {
    var host := Split(StripScheme(url), '/')[0];
    JoinSplit(StripScheme(url), '/');
    StripTrailingSlash(host)
  }

  /** No URL scheme survives formatting, whatever the input looked like. */
  lemma FormatUrlHasNoScheme(url: string)
    ensures !StartsWith(FormatUrl(url), "http://") && !StartsWith(FormatUrl(url), "https://")
  {
    var r := FormatUrl(url);
    if |r| >= 7 {
      assert r[..7][5] == r[5] != '/';
      assert "http://"[5] == '/';
    }
    if |r| >= 8 {
      assert r[..8][6] == r[6] != '/';
      assert "https://"[6] == '/';
    }
  }

  lemma FormatUrlIdempotent(url: string)
    ensures FormatUrl(FormatUrl(url)) == FormatUrl(url)
  {
    var r := FormatUrl(url);
    FormatUrlHasNoScheme(url);
    assert StripScheme(r) == r;
    assert Split(r, '/') == [r];
  }

  predicate IsDigit(c: char) { '0' <= c <= '9' }

  /** `/^\d{1}T\d{1}$/i`: the University of Toronto form, e.g. `2T5` or `2t5`. */
  predicate IsUofTYear(g: string) {
    |g| == 3 && IsDigit(g[0]) && (g[1] == 'T' || g[1] == 't') && IsDigit(g[2])
  }

  /** `/^20\d{2}$/`: a four-digit year of the 2000s, e.g. `2025`. */
  predicate IsFullYear(g: string) {
    |g| == 4 && g[0] == '2' && g[1] == '0' && IsDigit(g[2]) && IsDigit(g[3])
  }

  /** `formatGradYear`: normalises a graduation token to the `xTy` form where it can. */
  function FormatGradYear(grad: string): (r: string)
    ensures r != ""
    ensures grad == "" ==> r == "N/A"
    ensures IsUofTYear(grad) ==> r == [grad[0], 'T', grad[2]]
    ensures IsFullYear(grad) ==> r == [grad[2], 'T', grad[3]]
    ensures grad != "" && !IsUofTYear(grad) && !IsFullYear(grad) ==> r == grad
  {
    if grad == "" then "N/A"
    else if IsUofTYear(grad) then Upper(grad)
    else if IsFullYear(grad) then [grad[2], 'T', grad[3]]
    else grad
  }

  /** Formatting a formatted token changes nothing. */
  lemma FormatGradYearIdempotent(grad: string)
    ensures FormatGradYear(FormatGradYear(grad)) == FormatGradYear(grad)
  {
  }

  /** Every result is `N/A`, an upper-case `xTy` token, or the input unchanged. */
  lemma FormatGradYearCases(grad: string)
    ensures var r := FormatGradYear(grad);
      r == "N/A" || (IsUofTYear(r) && r[1] == 'T') || r == grad
  {
  }
}
