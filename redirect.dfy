/**
 * Redirect resolution (the `MapFallback` handler): strip every leading and
 * trailing `/` from the request path, then find the first record of the
 * `Urls` table whose white-space-trimmed `Shorturl` equals the
 * white-space-trimmed path; answer 404 when there is none, and otherwise
 * redirect to that record's long URL.
 * `ws` is the white-space test `string.Trim()` uses.
 */
module Redirect {
  import opened Wrappers
  import opened Text
  import opened UrlShortener

  datatype RedirectResult = NotFound | RedirectTo(location: string)

  predicate IsSlash(c: char)
  {
    c == '/'
  }

  /**
   * The token a request path asks for: `path.Trim('/').Trim()`. It
   * neither begins nor ends with white space.
   */
  function RequestedToken(path: string, ws: char -> bool): (r: string)
    ensures Trimmed(r, ws)
  {
    Trim(Trim(path, IsSlash), ws)
  }

  /**
   * The test of the query: `u.Shorturl.Trim() == token`. Only a token
   * with no white space at its ends can be matched.
   */
  predicate Matches(record: UrlRecord, token: string, ws: char -> bool)
    ensures Matches(record, token, ws) ==> Trimmed(token, ws)
  {
    Trim(record.shortUrl, ws) == token
  }

  /** `FirstOrDefault`: the index of the first record that satisfies `p`, if any. */
  function FirstMatch(urls: seq<UrlRecord>, p: UrlRecord -> bool): (r: Option<nat>)
    ensures r.None? <==> forall j :: 0 <= j < |urls| ==> !p(urls[j])
    ensures r.Some? ==>
      && r.value < |urls|
      && p(urls[r.value])
      && forall j :: 0 <= j < r.value ==> !p(urls[j])
  {
    if urls == [] then None
    else if p(urls[0]) then Some(0)
    else
      match FirstMatch(urls[1..], p)
      case None => None
      case Some(i) => Some(i + 1)
  }

  /** The query's predicate for a requested token. */
  function MatchesToken(token: string, ws: char -> bool): UrlRecord -> bool
  {
    record => Matches(record, token, ws)
  }

  /**
   * The answer of the query for the token `token`: NotFound exactly when
   * no record matches, and otherwise a redirect to the long URL of the
   * first record that does.
   */
  function FindRedirect(urls: seq<UrlRecord>, token: string, ws: char -> bool): (r: RedirectResult)
    ensures r == NotFound <==> forall j :: 0 <= j < |urls| ==> !Matches(urls[j], token, ws)
    ensures r.RedirectTo? ==> exists i :: (0 <= i < |urls|
      && Matches(urls[i], token, ws)
      && r.location == urls[i].longUrl
      && forall j :: 0 <= j < i ==> !Matches(urls[j], token, ws))
  {
    match FirstMatch(urls, MatchesToken(token, ws))
    case None => NotFound
    case Some(i) => RedirectTo(urls[i].longUrl)
  }

  /** The fallback handler. It only reads the table. */
  function Resolve(urls: seq<UrlRecord>, path: string, ws: char -> bool): RedirectResult
  {
    FindRedirect(urls, RequestedToken(path, ws), ws)
  }

  /**
   * The handler answers NotFound exactly when no record matches the
   * requested token, and otherwise redirects to the long URL of the first
   * record that does.
   */
  lemma ResolveCorrect(urls: seq<UrlRecord>, path: string, ws: char -> bool)
    ensures Resolve(urls, path, ws) == NotFound <==>
      forall j :: 0 <= j < |urls| ==> !Matches(urls[j], RequestedToken(path, ws), ws)
    ensures Resolve(urls, path, ws).RedirectTo? ==> exists i :: (0 <= i < |urls|
      && Matches(urls[i], RequestedToken(path, ws), ws)
      && Resolve(urls, path, ws).location == urls[i].longUrl
      && forall j :: 0 <= j < i ==> !Matches(urls[j], RequestedToken(path, ws), ws))
  {
    assert Resolve(urls, path, ws) == FindRedirect(urls, RequestedToken(path, ws), ws);
  }

  /**
   * Leading and trailing slashes in the path do not matter: `/T/`, `T/`
   * and `T` resolve alike.
   */
  lemma ResolveIgnoresSlashes(urls: seq<UrlRecord>, pre: string, path: string, suf: string,
                              ws: char -> bool)
    requires AllStrip(pre, IsSlash) && AllStrip(suf, IsSlash)
    ensures Resolve(urls, pre + path + suf, ws) == Resolve(urls, path, ws)
  {
    TrimAbsorbs(pre, path, suf, IsSlash);
  }

  /** White space around a stored token does not stop it from matching. */
  lemma StoredWhiteSpaceIgnored(before: string, token: string, after: string, ws: char -> bool)
    requires AllStrip(before, ws) && AllStrip(after, ws)
    ensures Matches(UrlRecord("", before + token + after), Trim(token, ws), ws)
  {
    TrimAbsorbs(before, token, after, ws);
  }

  lemma {:induction false} FirstMatchAppend(urls: seq<UrlRecord>, record: UrlRecord,
                                           p: UrlRecord -> bool)
    ensures FirstMatch(urls + [record], p) ==
      if FirstMatch(urls, p).Some? then FirstMatch(urls, p)
      else if p(record) then Some(|urls|)
      else None
  {
    if urls != [] {
      assert (urls + [record])[1..] == urls[1..] + [record];
      FirstMatchAppend(urls[1..], record, p);
    }
  }

  /**
   * A record appended to the table changes the answer only for a path
   * that nothing earlier answered: an earlier record with the same
   * trimmed token shadows it.
   */
  lemma ResolveAppend(urls: seq<UrlRecord>, record: UrlRecord, path: string, ws: char -> bool)
    ensures Resolve(urls + [record], path, ws) ==
      if Resolve(urls, path, ws).RedirectTo? then Resolve(urls, path, ws)
      else if Matches(record, RequestedToken(path, ws), ws) then RedirectTo(record.longUrl)
      else NotFound
  {
    var token := RequestedToken(path, ws);
    FirstMatchAppend(urls, record, MatchesToken(token, ws));
    assert Resolve(urls + [record], path, ws) == FindRedirect(urls + [record], token, ws);
    assert Resolve(urls, path, ws) == FindRedirect(urls, token, ws);
  }

  /** A token holds no slash, so `/token` asks for the white-space-trimmed token. */
  lemma TokenPath(draws: seq<nat>, ws: char -> bool)
    requires ValidDraws(draws)
    ensures RequestedToken("/" + Token(draws), ws) == Trim(Token(draws), ws)
  {
    var t := Token(draws);
    assert "/" + t == "/" + t + "";
    TrimAbsorbs("/", t, "", IsSlash);
    TrimFixed(t, IsSlash);
  }

  /** When no letter counts as white space, `/token` asks for the token itself. */
  lemma TokenPathExact(draws: seq<nat>, ws: char -> bool)
    requires ValidDraws(draws)
    requires forall c :: IsUpper(c) ==> !ws(c)
    ensures RequestedToken("/" + Token(draws), ws) == Token(draws)
  {
    TokenPath(draws, ws);
    var t := Token(draws);
    if t != [] {
      assert IsUpper(t[0]) && IsUpper(t[|t| - 1]);
    }
    TrimFixed(t, ws);
  }

  /**
   * Round trip: after `CreateShortUrl` appended the record of `url` with
   * the token of `draws`, and no earlier record trims to that token, the
   * path `/token` redirects to `url`.
   */
  lemma CreatedTokenResolves(urls: seq<UrlRecord>, url: string, draws: seq<nat>, ws: char -> bool)
    requires |draws| == TokenLength && ValidDraws(draws)
    requires forall j :: 0 <= j < |urls| ==> Trim(urls[j].shortUrl, ws) != Trim(Token(draws), ws)
    ensures Resolve(urls + [UrlRecord(url, Token(draws))], "/" + Token(draws), ws) == RedirectTo(url)
  {
    TokenPath(draws, ws);
    ResolveAppend(urls, UrlRecord(url, Token(draws)), "/" + Token(draws), ws);
  }

  /**
   * Creation does not look for collisions: when an earlier record already
   * answers `/token`, the record just appended with the same token is
   * never reached, and the path keeps redirecting to the earlier URL.
   */
  lemma CollidingTokenShadowed(urls: seq<UrlRecord>, url: string, draws: seq<nat>, ws: char -> bool)
    requires |draws| == TokenLength && ValidDraws(draws)
    requires Resolve(urls, "/" + Token(draws), ws).RedirectTo?
    ensures Resolve(urls + [UrlRecord(url, Token(draws))], "/" + Token(draws), ws)
      == Resolve(urls, "/" + Token(draws), ws)
  {
    ResolveAppend(urls, UrlRecord(url, Token(draws)), "/" + Token(draws), ws);
  }
}
