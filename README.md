# URLShortner core, modelled in Dafny

This project models the three pieces of logic of the URLShortner web API
that are more than ASP.NET, Entity Framework, Redis or JWT plumbing:

- **The per-key URL-count store** (`MaxUrlsCacheService`), a Redis
  database used as a table from string keys to integer counters:
  `SetMaxUrls` stores `maxurls - 1`, `DecreaseUrlCount` decrements the
  counter of a key that exists and returns null for one that does not,
  and `GetMaxUrls` reads a counter or null. The class
  `MaxUrlsCache.MaxUrlsCacheService` holds the database as a
  `map<string, int64>` field; the pure functions `Stored`, `Decreased`
  and `Lookup` say what each method does to it, and the lemmas about
  them state the properties across several calls.
- **Short-URL creation** (`UrlShortnerController.CreateShortUrl`):
  refuse a URL that is not absolute, build a six-letter token from
  `A`-`Z`, append one `{LongUrl, Shorturl}` record to the `Urls` table and
  answer `scheme://host/token`. The table is a `seq<UrlRecord>` field of
  `ApplicationDbContext`, which the controller's method appends to.
- **Redirect resolution** (the `MapFallback` handler of `Program.cs`):
  strip `/` from both ends of the request path, then find the first
  record whose white-space-trimmed `Shorturl` equals the
  white-space-trimmed path, and answer NotFound or a redirect to that
  record's `LongUrl`. This is the pure function `Redirect.Resolve` over
  the record sequence.

Files: `wrappers.dfy` (Option), `machine_ints.dfy` (C# `int` and Redis
64-bit integers), `text.dfy` (`string.Trim` over a set of characters),
`max_urls_cache.dfy`, `url_shortener.dfy`, `redirect.dfy`.

Library calls and the request are parameters:

- `Uri.TryCreate(url, UriKind.Absolute, ...)` is the predicate `isAbsoluteUri`.
- The six values of `random.Next(26)` are the sequence `draws`.
- The request's scheme and host are the strings `scheme` and `host`.
- The white-space test of `string.Trim()` is the predicate `ws`.

The code has no quota check on creation and no lookup of an existing
record for the same URL. `CreateShortUrl` never calls the count store,
`Program.cs` does not register the count service, and creation ignores
what the table already holds. A design that shortens idempotently and
enforces a quota through the counter is therefore not modelled. The
model follows the code. It does not retry on a token collision either;
`Redirect.CollidingTokenShadowed` states what a collision does instead.

## Model

| member | source | states |
|---|---|---|
| `MachineInts.Sub32` | URLShortner/Services/MaxUrlsCacheService.cs:19 | C# `maxurls - 1` on `int`: the exact difference when it fits in 32 bits, and always congruent to it modulo 2^32 |
| `MachineInts.Sub32WrapsAtMin` | URLShortner/Services/MaxUrlsCacheService.cs:19 | for every C# `int`, `a - 1` wraps to `int.MaxValue` if and only if `a` is `int.MinValue` |
| `MaxUrlsCache.Stored` | URLShortner/Services/MaxUrlsCacheService.cs:17-20 | setting adds `key` to the keys, stores `maxurls - 1` there (wrapped as a C# int), and keeps every other key's value |
| `MaxUrlsCache.Decreased` | URLShortner/Services/MaxUrlsCacheService.cs:22-32 | a missing key gives null and an unchanged store; a present key at the 64-bit minimum gives the Redis error and an unchanged store; otherwise the reply is the old value minus one and only that key is updated to it |
| `MaxUrlsCache.Lookup` | URLShortner/Services/MaxUrlsCacheService.cs:34-43 | the read is null exactly when the key is absent, and otherwise the stored value |
| `MaxUrlsCache.MaxUrlsCacheService.constructor` | URLShortner/Services/MaxUrlsCacheService.cs:11-15 | the service starts with whatever the database already holds |
| `MaxUrlsCache.MaxUrlsCacheService.SetMaxUrls` | URLShortner/Services/MaxUrlsCacheService.cs:17-20 | the new store is `Stored(old store, key, maxurls)` |
| `MaxUrlsCache.MaxUrlsCacheService.DecreaseUrlCount` | URLShortner/Services/MaxUrlsCacheService.cs:22-32 | the new store and the reply are `Decreased(old store, key)` |
| `MaxUrlsCache.MaxUrlsCacheService.GetMaxUrls` | URLShortner/Services/MaxUrlsCacheService.cs:34-43 | returns null exactly when the key is absent, otherwise its value; it cannot change the store |
| `MaxUrlsCache.MaxUrlsCacheService.Expire` | URLShortner/Services/MaxUrlsCacheService.cs:9 | when the one-day expiry runs out, only that key is dropped |
| `MaxUrlsCache.SetOverwrites` | URLShortner/Services/MaxUrlsCacheService.cs:19 | a second set on a key replaces the first, whatever it was |
| `MaxUrlsCache.OtherKeysUnchanged` | URLShortner/Services/MaxUrlsCacheService.cs:17-28 | set and decrement leave every other key's reading as it was |
| `MaxUrlsCache.GetAfterSet` | URLShortner/Services/MaxUrlsCacheService.cs:17-43 | reading right after `SetMaxUrls(key, n)` gives `n - 1` |
| `MaxUrlsCache.DecreaseBelowZero` | URLShortner/Services/MaxUrlsCacheService.cs:25-28 | there is no lower bound: a counter at 0 is decremented to -1 and -1 is returned |
| `MaxUrlsCache.DecreasedTimesValue` | URLShortner/Services/MaxUrlsCacheService.cs:27 | `k` decrements of a present counter `v` leave `v - k` under the key and nothing else changed, while it stays in the 64-bit range |
| `MaxUrlsCache.SetThenDecrease` | URLShortner/Services/MaxUrlsCacheService.cs:17-43 | after `SetMaxUrls(key, n)` and `k` decrements, `GetMaxUrls(key)` reads `n - 1 - k` |
| `Text.Trim` | URLShortner/Program.cs:38 | the result is a slice of the input with only stripped characters before and after it, and it neither begins nor ends with a stripped character |
| `Text.TrimUnique` | URLShortner/Program.cs:38 | any slice with only stripped characters around it and none at its ends is what trimming returns, so the contract of `Trim` determines it |
| `Text.TrimFixed` | URLShortner/Program.cs:40 | a string that neither begins nor ends with a stripped character is left as it is |
| `Text.TrimAbsorbs` | URLShortner/Program.cs:38 | stripped characters added at either end do not change the trimmed result |
| `Text.TrimIdempotent` | URLShortner/Program.cs:40 | trimming twice is trimming once |
| `UrlShortener.Token` | URLShortner/Controllers/UrlShortnerController.cs:27-33 | one letter per draw, the letter at position `i` is in `A`-`Z` and is letter number `draws[i]` of the alphabet |
| `UrlShortener.Draws` | URLShortner/Controllers/UrlShortnerController.cs:32 | reading a token back gives one in-range draw per letter |
| `UrlShortener.DrawsOfToken` | URLShortner/Controllers/UrlShortnerController.cs:32 | reading the token back gives exactly the draws it was made from |
| `UrlShortener.TokenInjective` | URLShortner/Controllers/UrlShortnerController.cs:32 | two tokens are equal if and only if their draws are equal |
| `UrlShortener.ShortUrl` | URLShortner/Controllers/UrlShortnerController.cs:35 | the answer is the scheme, then `://`, then the host, then `/` and the token, and nothing else |
| `UrlShortener.ApplicationDbContext.Add` | URLShortner/Controllers/UrlShortnerController.cs:38-39 | the table gains exactly the new record at its end, and earlier records are unchanged |
| `UrlShortener.UrlShortnerController.CreateShortUrl` | URLShortner/Controllers/UrlShortnerController.cs:20-42 | a URL that is not absolute gives BadRequest("Invalid Url") and an unchanged table; otherwise exactly one record `{url, token}` is appended whatever the table holds (so the same URL twice gives two records), and the answer is `scheme://host/token` of a six-letter token |
| `UrlShortener.UrlShortnerController.constructor` | URLShortner/Controllers/UrlShortnerController.cs:14-17 | the controller works on the injected database context |
| `Redirect.FirstMatch` | URLShortner/Program.cs:40 | `FirstOrDefault`: none exactly when no record satisfies the test, otherwise the index of a record that does with none before it |
| `Redirect.RequestedToken` | URLShortner/Program.cs:38 | the token asked for is `path.Trim('/').Trim()`, so it never begins or ends with white space |
| `Redirect.Matches` | URLShortner/Program.cs:40 | the query's test `u.Shorturl.Trim() == path.Trim()`; only a token with no white space at its ends can match |
| `Redirect.FindRedirect` | URLShortner/Program.cs:40-47 | `FirstOrDefault` and the answer: NotFound exactly when no record matches the token, otherwise a redirect to the `LongUrl` of the first record that matches |
| `Redirect.ResolveCorrect` | URLShortner/Program.cs:36-48 | the handler `Redirect.Resolve` (a function with no contract of its own): NotFound exactly when no record's trimmed `Shorturl` equals the requested token; a redirect goes to the `LongUrl` of the first record that matches; the table is only read |
| `Redirect.ResolveIgnoresSlashes` | URLShortner/Program.cs:38 | leading and trailing slashes in the path do not change the answer: `/T/`, `T/` and `T` resolve alike |
| `Redirect.StoredWhiteSpaceIgnored` | URLShortner/Program.cs:40 | white space around a stored token does not stop it from matching |
| `Redirect.FirstMatchAppend` | URLShortner/Program.cs:40 | appending a record changes the first match only when nothing earlier matched |
| `Redirect.ResolveAppend` | URLShortner/Program.cs:40-47 | an appended record answers a path only when no earlier record did; otherwise the earlier answer stays |
| `Redirect.TokenPath` | URLShortner/Program.cs:38 | the path `/token` of a generated token asks for the white-space-trimmed token |
| `Redirect.TokenPathExact` | URLShortner/Program.cs:38 | when no letter `A`-`Z` counts as white space, the path `/token` asks for exactly the token |
| `Redirect.CreatedTokenResolves` | URLShortner/Program.cs:38-47 | round trip: after creation appended `{url, token}` and no earlier record trims to the token, `/token` redirects to `url` |
| `Redirect.CollidingTokenShadowed` | URLShortner/Program.cs:40 | a new record whose token an earlier record already answers is never reached: `/token` keeps redirecting to the earlier URL |

## Left out

- Redis I/O: the connection to `localhost:6379`, database 4 and the async calls are left out. The database is the `store` field, its contents at start are a constructor parameter, and an unreachable server (an exception in the source) is not modelled.
- TTL: the one-day expiry is the `Expire(key)` method, which drops the key. The wall clock that triggers it is left out.
- Other writers of the Redis database, and values that are not integers (Redis then refuses to decrement), are left out; only this service writes the keys.
- Concurrency: `DecreaseUrlCount` calls `KeyExists` and then `StringDecrementAsync` separately, which is a race under parallel requests. A sequential model cannot show it; each method is one atomic step here.
- `GetMaxUrls` answers a Redis string value in the source; the model returns the integer it holds.
- `Uri.TryCreate`, `System.Random`, `HttpContext.Request` scheme and host and `PathString.ToUriComponent` (percent-encoding of the path) are library calls. They are parameters here, and the path is taken as already encoded.
- The `Id` (a GUID generated by Entity Framework on add) and `UserId` columns of a `UrlManagement` record are left out. The controller never sets `UserId`, although the migration snapshot marks it required. Saving could then fail; the model assumes `SaveChangesAsync` succeeds and does not model database errors.
- On the SQLite provider, Entity Framework runs the lookup as SQL. There `Shorturl.Trim()` becomes SQLite `trim`, which removes only spaces, while `path.Trim()` is computed in .NET. The model uses one white-space predicate `ws` for both sides.
- `FirstOrDefaultAsync` has no `OrderBy`. The model takes the table in insertion order, the order SQLite scans it in practice.
- Routing in front of the fallback handler is framework behaviour and is left out. `MapFallback` only receives paths that match its `{*path:nonfile}` pattern and that no controller route takes, so a path whose last segment contains a dot never reaches it. `Redirect.Resolve` accepts any path. Generated tokens are `A`-`Z` only, so they are not affected.
- Request-body binding (`[FromBody] UrlDto`, a null body or URL) is framework behaviour and left out; the URL is a string.
- `UserController`, `SubscriptionPackagesController`, the repositories, the EF context wiring, the DTOs and lines 1-33 and 50 of `Program.cs` (dependency injection, Swagger, HTTPS and authorization) contain no logic of this core.
- MaxUrlsCache.SetThenDecrease: stated only for `k` decrements that keep the counter within the signed 64-bit range; past it Redis refuses the decrement (see `Decreased`), and the lemma says nothing about that case.
- MaxUrlsCache.DecreasedTimesValue: the same 64-bit bound applies.
