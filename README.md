# Eclaire request routing and response cache, in Dafny

Eclaire is a multi-tenant static web server. Every domain it serves has its own directory
`./www/<domain>`. This project models and proves the three pieces of decision logic in
`main.go`:

- **Strings** (`Strings.dfy`). Go's `strings.Split` for a one-character separator, with
  `strings.Join` as its inverse. The Host header is split on `:` and paths on `/`.
- **Host splitting** (`Host.dfy`). `splitDomainFromPort` keeps the part of the Host header
  in front of its first colon. An IPv6 literal is cut at its first colon, as in the code.
- **Paths** (`Paths.dfy`). A path is its list of segments, kept clean: no empty or `.`
  segment, and `..` only at the front. `filepath.Join` splits its
  names on `/` and cleans the result: empty segments and `.` vanish, and `..` removes the
  segment before it. `http.FileServer` cleans the URL path as a rooted path, so no `..`
  climbs above its root.
- **Routing** (`Routing.dfy`). `domainHandler` is a pure decision over stat outcomes. It
  first stats the tenant directory, then the requested file. A stat error other than
  "does not exist" gives a 500. A missing directory or file goes down the not-found
  chain: the site's `404.html`, then `./www/404.html`, then a bare 404. The filesystem is
  a map from paths to `Exists | NotExist | OtherError`. The decision also records the
  paths it stats, in order, so "nothing else is consulted" can be stated. The domain
  goes into `filepath.Join` unchecked, so the domains `""`, `.` and `..` select `./www`
  or the working directory (see Findings). `CheckedDomainHandler` is the handler with a
  guard against that, and tenant isolation is proved for it.
- **Response cache** (`Fingerprint.dfy`, `Cache.dfy`). This is the `handler` closure in
  `main`. Here `ResponseCache` is a class that holds the closure's map.
  `ResponseCache.Request` takes one request. Its inputs are the URL path, the result of
  opening and stat'ing `www/<path>`, the clock, and the outcome of re-issuing the request.
  It works in three steps:
  - It drops a stale entry.
  - It returns a 500 without storing if the fetch or the body read failed.
  - Otherwise it stores the fetched response under `hashPath(path)` with the caching
    headers and a `Last-Modified` stamp of `now`, and relays the response.
  In Go, `client.Do` refuses a request whose `RequestURI` is set, and every request a
  server receives has one. Read that way, the fetch at main.go:154 always fails, so the
  handler always answers 500 and never stores anything. The model keeps the fetch
  outcome as an input, so both paths are covered.

  The stored entry is never used to answer a request. `hashPath` is the lower-case hex
  encoding of a digest. The digest (blake2b-256) is an uninterpreted function that the
  cache holds, so the only property used is that equal paths give equal keys.

Times are nanoseconds counted from Go's zero `time.Time`. A file's ModTime keeps the
sub-second part the filesystem records. The `Last-Modified` stamp written by
`Format(http.TimeFormat)` keeps only the second, and parses back to the start of that
second. So a file written earlier in the same second as a store, but after that second
began, is `After` the stamp, and the next request drops the entry just stored. A
`Last-Modified` value that does not parse counts as the zero time; the handler never
stores such an entry. The cache key depends on the path only, not on
the host. In `main.go` the server is given `handler`. The mux that routes to
`domainHandler` is built but never installed. The model follows the code here and treats
the two as separate components.

## Model

| member | source | states |
|---|---|---|
| `Strings.Split` | main.go:253 | `strings.Split(host, ":")` gives one more piece than there are colons. No piece holds a colon. The first piece is a prefix of the host that ends at the end of the host or at a colon. |
| `Strings.JoinSplit` | main.go:253 | Joining the pieces of the split with the separator gives back the host exactly. |
| `Strings.SplitJoin` | main.go:253 | Splitting the join of separator-free pieces gives back those pieces: split and join are inverse. |
| `Host.SplitDomainFromPort` | main.go:250-257 | The domain holds no colon, is a prefix of the host, and reaches either the host's end or its first colon. |
| `Host.LongestColonFreePrefixIsDomain` | main.go:250-257 | Those three properties determine the domain uniquely: it is the longest colon-free prefix of the host. |
| `Host.DomainOfColonFreeHost` | main.go:250-257 | A host without a colon is returned unchanged. |
| `Host.DomainOfDomainAndPort` | main.go:255-256 | For a colon-free `d`, `d + ":" + port` yields `d`, whatever the port text holds. |
| `Host.SplitDomainFromPortIdempotent` | main.go:253-256 | Applying the split twice gives the same result as applying it once. |
| `Host.IPv6HostIsCutAtFirstColon` | main.go:253-256 | `[::1]:443` yields `[`: an IPv6 literal is cut at its first colon. |
| `Paths.Step` | main.go:275 | One segment of `filepath.Clean` either cuts the directory back to a prefix or appends the segment. It keeps a clean path clean. |
| `Paths.Extend` | main.go:275 | Cleaning a run of slash-free segments onto a clean directory gives a clean path, at most one segment longer per segment. `ExtendAppend` and `JoinIsClean` tie it to `Join`. |
| `Paths.Segments` | main.go:291 | The names of a join, split on `/`: no segment holds a slash. |
| `Paths.JoinAll` | main.go:291 | The join of several names keeps a clean directory clean. `JoinTwice` shows it is joining the names one at a time. |
| `Paths.Join` | main.go:275 | `filepath.Join(dir, name)` with a plain name (not empty, not `.` or `..`, no `/`) appends exactly that one segment. Any name keeps a clean directory clean. |
| `Paths.JoinIsClean` | main.go:322 | For every name, plain or not, `Join` is the cleaning of the name's `/`-separated segments onto the directory. |
| `Paths.ExtendAppend` | main.go:291 | Cleaning two runs of segments one after the other equals cleaning their concatenation. |
| `Paths.JoinTwice` | main.go:291 | `filepath.Join(dir, a, b)` names the same path as `filepath.Join(filepath.Join(dir, a), b)`. |
| `Paths.RootedExtend` | main.go:353 | Rooted cleaning never leaves a `..` segment. |
| `Paths.FileServerPath` | main.go:353 | The file a file server rooted at `root` serves lies below `root`, with no `..` after it. |
| `Paths.StatPathIsServedPath` | main.go:322-353 | When the URL path has no `..` segment, the path the handler stats is the file the file server serves. |
| `Routing.StatOf` | main.go:276 | `os.Stat` over the filesystem map: a path the map does not list does not exist. |
| `Routing.TenantDir` | main.go:272-275 | `filepath.Join("./www", domain)` is clean, and for a plain domain it is `./www/<domain>`. `PlainDomainsHaveOwnDirectories` and `WwwAsTenantDir` pin it down for other hosts. |
| `Routing.NotFoundChain` | main.go:291-305 | The site's `404.html` is served iff it stats without error. Otherwise `./www/404.html` is served iff it stats without error. Otherwise the answer is a bare 404. The paths stat'ed are exactly the pages tried, in that order. |
| `Routing.DomainHandler` | main.go:266-355 | The handler always stats the tenant directory `filepath.Join("./www", domain)` first. |
| `Routing.BothPhasesShareNotFoundChain` | main.go:276-345 | Both duplicated not-found branches equal the single shared chain, scoped to the tenant directory. The probe trace is the same, after the tenant stat (and after the file stat in the second phase). |
| `Routing.MissingTenantChain` | main.go:276-305 | With the tenant directory missing, the handler is the shared not-found chain of that directory, after the one tenant stat. |
| `Routing.MissingFileChain` | main.go:322-345 | With the tenant directory present and the file missing, the handler is the same chain, after the tenant and file stats. |
| `Routing.PhasesAgreeOnNotFound` | main.go:291-343 | Suppose the two 404 pages have the same stat outcomes. Then a missing tenant directory and a missing file in an existing tenant end in the same outcome. |
| `Routing.TenantStatErrorIs500` | main.go:276-318 | A tenant stat error other than not-exist gives a 500. Only the tenant directory was stat'ed: no 404 page and no file. |
| `Routing.Err500Iff` | main.go:276-349 | The outcome is a 500 iff the tenant stat failed other than by absence, or the tenant exists and the file stat failed other than by absence. |
| `Routing.ServeFileIff` | main.go:322-353 | Content is served iff both the tenant directory and `<tenant>/<urlpath>` stat successfully. It is then served from a file server rooted at that host's tenant directory, with the request's path. |
| `Routing.NotFoundOrder` | main.go:291-344 | In either not-found phase, the first existing page wins: `<tenant>/404.html`, then `./www/404.html`, then a bare 404. |
| `Routing.ServedPathsBelongToHost` | main.go:272-353 | A served file's root is this host's tenant directory. A served 404 page is `<tenant>/404.html` or `./www/404.html`. |
| `Routing.MissingTenantNeverServesSitePage` | main.go:276-305 | On a filesystem where everything that exists has an existing parent, a missing tenant directory leads only to `./www/404.html` or a bare 404. |
| `Routing.PlainDomainsHaveOwnDirectories` | main.go:272-275 | A plain domain selects `./www/<domain>`, and two different plain domains select different directories. |
| `Routing.WwwAsTenantDir` | main.go:275 | The domains `""` and `.` select `./www` itself as tenant directory. |
| `Routing.TwoNamesBelow` | main.go:322-353 | Below any directory, the URL path `/<n>/<f>` is cleaned to `<n>/<f>`, both by `filepath.Join` and by the file server. |
| `Routing.PortOnlyHostHasEmptyDomain` | main.go:250-257 | A Host of only a port, such as `:443`, and an absent Host (`""`) both give the empty domain. |
| `Routing.WwwRootedHostServesTenantFile` | main.go:272-353 | As written, a host whose domain is `""` or `.` gets a file server rooted at `./www`. The URL path `/<n>/<f>` then serves `./www/<n>/<f>`, the file of tenant `n`. |
| `Routing.DotDotHostHasDotDotDomain` | main.go:250-257 | The Host `..` has the domain `..`. |
| `Routing.DotDotDomainServesWorkingDirectory` | main.go:272-353 | As written, the domain `..` roots the file server at the working directory. `/certs/<f>` then serves `certs/<f>`, a file of autocert's certificate cache and not under `./www`. |
| `Routing.CheckedDomainHandler` | main.go:266-355 | A domain that is not a plain name selects no tenant: the answer is `./www/404.html` or a bare 404. |
| `Routing.CheckedAgreesOnPlainDomains` | main.go:266-355 | For a plain domain, the guarded handler decides exactly as `domainHandler`. |
| `Routing.TenantIsolation` | main.go:272-353 | For the guarded handler, content is served only from `./www/<domain>` of the host's own plain domain. The served file, after the file server's cleaning, is never inside another plain domain's directory, for any URL path. |
| `Fingerprint.HexEncode` | main.go:245 | `hex.EncodeToString` writes two hex digits per byte, all of them hex digits. |
| `Fingerprint.DecodeEncode` | main.go:245 | Decoding the hex rendering gives back the digest bytes. |
| `Fingerprint.HexEncodeInjective` | main.go:245 | Distinct digests have distinct hex renderings. |
| `Fingerprint.HashPath` | main.go:233-247 | A 32-byte digest gives a 64-character key made of hex digits. |
| `Fingerprint.SameKeyIffSameDigest` | main.go:233-247 | Two paths share a cache key exactly when their digests are equal. The key is deterministic and adds no collisions of its own. |
| `Cache.Second` | main.go:175 | The second written for an instant is the one containing it: the nanoseconds below it are dropped. |
| `Cache.LastModified` | main.go:126-130 | The parsed stamp is a whole second. It differs from the zero time only when a date parsed. `UnparsedStampIsAlwaysStale` and `StoredStampsParse` pin down the fallback. |
| `Cache.Stale` | main.go:133-139 | Only a file that opened and stat'ed can make an entry stale. `StaleOnlyWhenNewer` gives the exact boundary. |
| `Cache.Invalidate` | main.go:115-147 | The key survives iff it was present and not stale. Stale means the file opened, stat'ed, and has a ModTime strictly after the parsed stamp. Every other key and value is unchanged. |
| `Cache.WithCacheHeaders` | main.go:172-175 | The header gains `Cache-Control: public, max-age=86400`, `Vary: Accept-Encoding`, `Content-Encoding: gzip`, and `Last-Modified` holding the second of `now`. All other fetched headers are kept. |
| `Cache.NewEntry` | main.go:171-175 | The new entry has the fetched status and body and carries all the caching headers. Its stamp parses to a whole second at most `now` and less than one second before it. |
| `Cache.Store` | main.go:152-178 | A failed fetch or body read leaves the map unchanged. A success adds exactly the request's key, holding the new entry. Every other key is untouched. |
| `Cache.ReplyTo` | main.go:154-189 | The answer is a 500 with the `http.Error` message iff the fetch or the read failed. Otherwise it relays the new entry's status, header and body. |
| `Cache.CopyHeader` | main.go:181-183 | Copying headers onto the writer gives exactly the union of the writer's headers and the response's. The response's value wins for every name it holds. |
| `Cache.ResponseCache.constructor` | main.go:104 | The cache starts empty. |
| `Cache.ResponseCache.KeyOf` | main.go:112 | The key of a request path is the path's hashPath: 64 hex digits for a 32-byte digest. |
| `Cache.ResponseCache.StoredStampsParse` | main.go:126-175 | Every entry of a valid cache has a `Last-Modified` date that parses, so the zero-time fallback never applies to a stored entry. |
| `Cache.ResponseCache.Request` | main.go:106-191 | The new map is the old one after invalidation and then the store step, under `hashPath(path)`. The reply depends only on the fetch and the clock, never on the cache. The well-formedness invariant is kept. |
| `Cache.StaleOnlyWhenNewer` | main.go:126-147 | With parsed stamp T, a file modified one nanosecond after T drops the entry. A file modified at T or earlier keeps it. So does a file that fails to open or stat. |
| `Cache.UnparsedStampIsAlwaysStale` | main.go:126-139 | A stamp that is missing or does not parse counts as the zero time, so any file with a real ModTime that opens and stats drops the entry. The handler never stores such an entry (see `StoredStampsParse`). |
| `Cache.SuccessOverwritesRegardlessOfStaleness` | main.go:144-178 | After a successful fetch, the map is the old map with the new entry set under the key, whether or not invalidation fired. |
| `Cache.FailureOnlyInvalidates` | main.go:144-168 | After a failed fetch or read, the only change is the invalidation. That means the key is deleted if stale and the map is otherwise unchanged. |
| `Cache.StoredEntryIsReply` | main.go:171-189 | A successful request stores exactly the status, header and body it answers with. |
| `Cache.FreshEntrySurvivesUnmodifiedFile` | main.go:139-175 | An entry just stored at `now` survives the next invalidation check if the file's ModTime is not after the start of the second of `now`. |
| `Cache.SameSecondWriteInvalidatesFreshEntry` | main.go:139-175 | A file modified after the start of the second of `now`, though not after `now`, drops the entry just stored, on the next request. |
| `Cache.RequestPreservesWellFormed` | main.go:171-178 | If every stored entry carries the caching headers and a parseable stamp, that still holds after any request. |

## Left out

- `setupServer` and `init` (main.go:20-86) are left out: they create directories and files on first start.
- TLS and autocert, `http.Server`, both listeners and the port-80 goroutine (main.go:193-226) are left out. They are network setup and concurrency.
- `http.Client.Do` and `io.ReadAll` (main.go:152-168) are a network call into library code. They are an input of `Request`: a response, a failed request or a failed body read.
- `http.ServeFile`, `http.FileServer` and `http.Error` (main.go:293-353) are library code. The model records what is served and from which root, and the path cleaning the file server applies. It does not model URL unescaping, index files, directory listings, redirects or status codes. `http.ServeFile` answers a readable 404 page with status 200.
- `filepath.Join` and the file server's cleaning are modelled on `/`-separated segments. Symbolic links and other separators are not modelled.
- TenantIsolation: stated for `CheckedDomainHandler`, not for `domainHandler` as written, because the code as written does not isolate tenants for the domains `""`, `.` and `..` (see Findings).
- Opening and stat'ing `www/<path>`, and `os.Stat` in `domainHandler`, are I/O. They are inputs: stat outcomes and a map from paths to stat outcomes.
- blake2b-256 and the conversion of the path to bytes are cryptographic library code. The model treats them as an uninterpreted digest function held by the cache.
- `time.Now`, `Format` and `Parse` with `http.TimeFormat` are not modelled as text. A stamp is a whole number of seconds, and a value that fails to parse reads as zero. ModTime is taken at whatever precision the filesystem records it.
- `Format` applied to `time.Now()` writes the local clock's digits labelled `GMT`. The model takes `now` to be the instant that the written stamp denotes, so a server running outside UTC, where the stamp is shifted by its zone offset, is not modelled.
- Header values are single strings. Go keeps a list per name, and the reply copies only the first value.
- `logRequest` and console output (main.go:109, main.go:129, main.go:261-263) are left out.
- The unguarded map is shared by concurrent requests in Go. The model runs requests strictly one at a time.

## Findings

| source | as written | input that shows it | evidently intended | confidence | as-written member | corrected member |
|---|---|---|---|---|---|---|
| main.go:272-275 | The domain from the Host header goes into `filepath.Join("./www", domain)` unchecked. `""` and `.` select `./www` itself, and `..` selects the working directory. | An HTTP/1.0 request without a Host header, or one with the explicit Host `:443`, with `./www/b.com/notes.txt` present and URL path `/b.com/notes.txt`: tenant b.com's file is served. (For a path ending in `/index.html` the file server first answers with a redirect to the directory.) Host `..` with URL path `/certs/<f>`: autocert's `certs/<f>` is served. | A request is served only from `./www/<its own domain>` (main.go:37-38). | not executed | `Routing.WwwRootedHostServesTenantFile`, `Routing.DotDotDomainServesWorkingDirectory` | `Routing.CheckedDomainHandler`, `Routing.TenantIsolation` |
