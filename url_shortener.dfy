/**
 * Short-URL creation (`UrlShortnerController.CreateShortUrl`): validate
 * the request URL, draw a six-letter token, append a record to the `Urls`
 * table and answer with `scheme://host/token`.
 */
module UrlShortener {

  /** A row of the `Urls` table: the long URL and its token. */
  datatype UrlRecord = UrlRecord(longUrl: string, shortUrl: string)

  /** What the action answers: 400 with a message, or 200 with the short URL. */
  datatype CreateResult = BadRequest(message: string) | Ok(shortUrl: string)

  const Chars: string := "ABCDEFGHIJKLMNOPQRSTUVWXYZ"
  const TokenLength: nat := 6

  predicate IsUpper(c: char)
  {
    'A' as int <= c as int <= 'Z' as int
  }

  /** Each draw is a value of `Random.Next(26)`, an index into `Chars`. */
  predicate ValidDraws(draws: seq<nat>)
  {
    forall i :: 0 <= i < |draws| ==> draws[i] < |Chars|
  }

  /**
   * The token made by picking `Chars[d]` for each draw `d`: one letter
   * per draw, each of them in `A`-`Z`.
   */
  function Token(draws: seq<nat>): (t: string)
    requires ValidDraws(draws)
    ensures |t| == |draws|
    ensures forall i :: 0 <= i < |t| ==> IsUpper(t[i]) && t[i] as int - 'A' as int == draws[i]
  {
    if draws == [] then []
    else [Chars[draws[0]]] + Token(draws[1..])
  }

  /** The draws a token was made from: the position of each letter in `Chars`. */
  function Draws(t: string): (d: seq<nat>)
    requires forall i :: 0 <= i < |t| ==> IsUpper(t[i])
    ensures |d| == |t| && ValidDraws(d)
  {
    if t == [] then []
    else
      assert IsUpper(t[0]) && |Chars| == 26;
      [(t[0] as int - 'A' as int) as nat] + Draws(t[1..])
  }

  /** `Draws` undoes `Token`, so different draws give different tokens. */
  lemma {:induction false} DrawsOfToken(draws: seq<nat>)
    requires ValidDraws(draws)
    ensures Draws(Token(draws)) == draws
  {
    if draws != [] {
      DrawsOfToken(draws[1..]);
      assert Token(draws)[1..] == Token(draws[1..]);
    }
  }

  lemma TokenInjective(d1: seq<nat>, d2: seq<nat>)
    requires ValidDraws(d1) && ValidDraws(d2)
    ensures Token(d1) == Token(d2) <==> d1 == d2
  {
    if Token(d1) == Token(d2) {
      DrawsOfToken(d1);
      DrawsOfToken(d2);
    }
  }

  /**
   * The short URL `scheme://host/token`: the scheme, then `://`, then the
   * host, then a slash followed by the token.
   */
  function ShortUrl(scheme: string, host: string, token: string): (u: string)
    ensures |u| == |scheme| + 3 + |host| + 1 + |token|
    ensures u[..|scheme|] == scheme
    ensures u[|scheme|..|scheme| + 3] == "://"
    ensures u[|scheme| + 3..|scheme| + 3 + |host|] == host
    ensures u[|u| - |token| - 1..] == "/" + token
  {
    scheme + "://" + host + "/" + token
  }

  /** The `Urls` table of the application's database context. */
  class ApplicationDbContext {
    var urls: seq<UrlRecord>

    constructor (existing: seq<UrlRecord>)
      ensures urls == existing
    {
      urls := existing;
    }

    /** `Urls.AddAsync` followed by `SaveChangesAsync`. */
    method Add(record: UrlRecord)
      modifies this
      ensures urls == old(urls) + [record]
    {
      urls := urls + [record];
    }
  }

  class UrlShortnerController {
    const db: ApplicationDbContext

    constructor (db: ApplicationDbContext)
      ensures this.db == db
    {
      this.db := db;
    }

    /**
     * `isAbsoluteUri` stands for `Uri.TryCreate(url, UriKind.Absolute, ...)`,
     * `draws` for the six values of `random.Next(26)`, and `scheme` and
     * `host` for those of the incoming request.
     * An URL that is not absolute is refused and the table stays as it
     * was; otherwise exactly one record is appended, whatever the table
     * already holds, and the answer is the short URL of its token.
     */
    method CreateShortUrl(url: string, isAbsoluteUri: string -> bool,
                          draws: seq<nat>, scheme: string, host: string)
      returns (res: CreateResult)
      requires |draws| == TokenLength && ValidDraws(draws)
      modifies db
      ensures !isAbsoluteUri(url) ==> res == BadRequest("Invalid Url") && db.urls == old(db.urls)
      ensures isAbsoluteUri(url) ==>
        && db.urls == old(db.urls) + [UrlRecord(url, Token(draws))]
        && res == Ok(ShortUrl(scheme, host, Token(draws)))
    {
      if !isAbsoluteUri(url) {
        return BadRequest("Invalid Url");
      }
      var randomStr := Token(draws);
      var sUrl := ShortUrl(scheme, host, randomStr);
      var shortUrl := UrlRecord(url, randomStr);
      db.Add(shortUrl);
      return Ok(sUrl);
    }
  }
}
