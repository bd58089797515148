/** The response cache kept by the request handler in main (main.go:97-191): a map from
    the key of a request path to the last response fetched for it. Each request first
    drops the entry when the file www/<path> was modified after the entry's
    Last-Modified stamp, then re-fetches the response and, if that succeeds, stores it
    under the key with fixed caching headers and a fresh stamp. The stored entry is
    never used to answer a request. The fetch (http.Client.Do followed by io.ReadAll),
    the open and stat of the file and the clock are inputs of the model. */
module Cache {
  import Fingerprint

  type Byte = Fingerprint.byte

  /** A header value: plain text, or an instant written in http.TimeFormat, which holds
      whole seconds and parses back to the start of that second. The model does not
      read dates out of plain text. */
  datatype HeaderValue = Text(text: string) | HttpDate(seconds: int)

  /** A response header with one value per name (Header.Set keeps exactly one). */
  type Header = map<string, HeaderValue>

  const CacheControlName: string := "Cache-Control"
  const VaryName: string := "Vary"
  const ContentEncodingName: string := "Content-Encoding"
  const LastModifiedName: string := "Last-Modified"

  const CacheControlValue: string := "public, max-age=86400"
  const VaryValue: string := "Accept-Encoding"
  const ContentEncodingValue: string := "gzip"

  /** The message http.Error sends when the fetch or the body read fails. */
  const InternalErrorMessage: string := "500 internal server error"

  /** Instants are nanoseconds counted from Go's zero time.Time, which is what a failed
      time.Parse returns; every real clock reading is later than it. */
  const ZeroTime: int := 0

  const NanosPerSecond: int := 1000000000

  /** The second an instant falls in, as Format(http.TimeFormat) writes it: the
      nanoseconds below the second are dropped. */
  function Second(t: int): (s: int)
    ensures s * NanosPerSecond <= t < (s + 1) * NanosPerSecond
  {
    t / NanosPerSecond
  }

  /** cachedItem: the fetched response (its status and header) and its body. */
  datatype Entry = Entry(status: int, header: Header, content: seq<Byte>)

  /** What opening www/<path> and calling Stat on it gives. */
  datatype FileProbe = OpenFailed | StatFailed | Opened(modTime: int)

  /** What client.Do(r) followed by io.ReadAll(resp.Body) gives. */
  datatype Fetch =
    | FetchFailed
    | ReadFailed
    | Fetched(status: int, header: Header, body: seq<Byte>)

  /** What the handler writes back: the fetched response, or a 500 from http.Error. */
  datatype Reply =
    | Relayed(status: int, header: Header, body: seq<Byte>)
    | ErrorReply(status: int, message: string)

  /** time.Parse(http.TimeFormat, Header.Get("Last-Modified")): the start of the second
      the stamp names; a missing header or text that is not a date fails to parse and
      leaves the zero time. */
  function LastModified(e: Entry): (t: int)
    ensures t % NanosPerSecond == 0
    ensures t != ZeroTime ==> LastModifiedName in e.header && e.header[LastModifiedName].HttpDate?
  {
    if LastModifiedName in e.header && e.header[LastModifiedName].HttpDate?
    then e.header[LastModifiedName].seconds * NanosPerSecond
    else ZeroTime
  }

  /** The file opened, its Stat succeeded, and its ModTime is After the entry's stamp.
      ModTime keeps the sub-second part the filesystem records, the stamp does not. */
  predicate Stale(e: Entry, probe: FileProbe)
    ensures Stale(e, probe) ==> probe.Opened?
  {
    probe.Opened? && probe.modTime > LastModified(e)
  }

  /** The invalidation step (main.go:115-147): the entry under the key is deleted when it
      is stale; nothing else changes. */
  function Invalidate(m: map<string, Entry>, key: string, probe: FileProbe): (m': map<string, Entry>)
    ensures key in m' <==> key in m && !Stale(m[key], probe)
    ensures forall k :: k in m' ==> k in m && m'[k] == m[k]
    ensures forall k :: k in m && k != key ==> k in m'
  {
    if key in m && Stale(m[key], probe) then m - {key} else m
  }

  /** The four Header.Set calls of main.go:172-175 on the fetched header. */
  function WithCacheHeaders(h: Header, now: int): (r: Header)
    ensures r.Keys == h.Keys + {CacheControlName, VaryName, ContentEncodingName, LastModifiedName}
    ensures forall k :: k in h && k !in {CacheControlName, VaryName, ContentEncodingName, LastModifiedName}
              ==> r[k] == h[k]
    ensures r[CacheControlName] == Text(CacheControlValue) && r[VaryName] == Text(VaryValue)
    ensures r[ContentEncodingName] == Text(ContentEncodingValue) && r[LastModifiedName] == HttpDate(Second(now))
  {
    h[CacheControlName := Text(CacheControlValue)]
     [VaryName := Text(VaryValue)]
     [ContentEncodingName := Text(ContentEncodingValue)]
     [LastModifiedName := HttpDate(Second(now))]
  }

  /** The entry the handler builds from a successful fetch: the fetched status and body,
      and the fetched header carrying the caching headers and the stamp of `now`, which
      reads back as the start of the second `now` falls in. */
  function NewEntry(status: int, h: Header, body: seq<Byte>, now: int): (e: Entry)
    ensures WellFormed(e)
    ensures LastModified(e) <= now < LastModified(e) + NanosPerSecond
    ensures LastModified(e) % NanosPerSecond == 0
    ensures e.status == status && e.content == body
  {
    Entry(status, WithCacheHeaders(h, now), body)
  }

  /** What every entry the handler stores looks like. */
  predicate WellFormed(e: Entry) {
    && CacheControlName in e.header && e.header[CacheControlName] == Text(CacheControlValue)
    && VaryName in e.header && e.header[VaryName] == Text(VaryValue)
    && ContentEncodingName in e.header && e.header[ContentEncodingName] == Text(ContentEncodingValue)
    && LastModifiedName in e.header && e.header[LastModifiedName].HttpDate?
  }

  /** The store step (main.go:152-178): a failed fetch or body read returns before
      storing; a successful one replaces the entry under the key wholesale. */
  function Store(m: map<string, Entry>, key: string, fetch: Fetch, now: int): (m': map<string, Entry>)
    ensures !fetch.Fetched? ==> m' == m
    ensures fetch.Fetched? ==>
      (m'.Keys == m.Keys + {key} && m'[key] == NewEntry(fetch.status, fetch.header, fetch.body, now))
    ensures forall k :: k in m && k != key ==> k in m' && m'[k] == m[k]
  {
    match fetch
    case Fetched(status, h, body) => m[key := NewEntry(status, h, body, now)]
    case _ => m
  }

  /** What the handler answers, which depends on the fetch and the clock only. */
  function ReplyTo(fetch: Fetch, now: int): (r: Reply)
    ensures !fetch.Fetched? <==> r == ErrorReply(500, InternalErrorMessage)
    ensures fetch.Fetched? ==>
      var e := NewEntry(fetch.status, fetch.header, fetch.body, now);
      r == Relayed(e.status, e.header, e.content)
  {
    match fetch
    case Fetched(status, h, body) =>
      var e := NewEntry(status, h, body, now);
      Relayed(e.status, e.header, e.content)
    case _ => ErrorReply(500, InternalErrorMessage)
  }

  /** The range loop of main.go:181-183: every header of the response is Set on the
      writer's header, over whatever the writer's header already holds. */
  method CopyHeader(src: Header, dst: Header) returns (out: Header)
    ensures out.Keys == dst.Keys + src.Keys
    ensures forall k :: k in src ==> out[k] == src[k]
    ensures forall k :: k in dst && k !in src ==> out[k] == dst[k]
  {
    out := dst;
    var todo := src.Keys;
    while todo != {}
      invariant todo <= src.Keys
      invariant out.Keys == dst.Keys + (src.Keys - todo)
      invariant forall k :: k in src && k !in todo ==> out[k] == src[k]
      invariant forall k :: k in dst && (k !in src || k in todo) ==> out[k] == dst[k]
      decreases todo
    {
      var k :| k in todo;
      out := out[k := src[k]];
      todo := todo - {k};
    }
  }

  /** Copying a header onto an empty one gives that header. */
  lemma CopyOntoEmpty(src: Header, out: Header)
    requires out.Keys == src.Keys
    requires forall k :: k in src ==> out[k] == src[k]
    ensures out == src
  {
  }

  /** The handler's cache, as a class holding the map the closure captures. */
  class ResponseCache {
    /** blake2b-256 over the bytes of a path. */
    const digest: string -> seq<Byte>
    var entries: map<string, Entry>

    /** Every stored entry carries the caching headers and a parseable stamp. */
    ghost predicate Valid()
      reads this
    {
      forall k :: k in entries ==> WellFormed(entries[k])
    }

    /** make(map[string]*cachedItem): an empty cache. */
    constructor (digest: string -> seq<Byte>)
      ensures this.digest == digest && entries == map[] && Valid()
    {
      this.digest := digest;
      entries := map[];
    }

    /** Every entry of a valid cache carries a Last-Modified date that parses, at a
        whole second: the zero-time fallback of UnparsedStampIsAlwaysStale never applies
        to an entry the handler stored. */
    lemma StoredStampsParse(k: string)
      requires Valid() && k in entries
      ensures LastModifiedName in entries[k].header && entries[k].header[LastModifiedName].HttpDate?
      ensures LastModified(entries[k]) == entries[k].header[LastModifiedName].seconds * NanosPerSecond
    {
    }

    /** The cache key of a request path, hashPath(r.URL.Path). */
    function KeyOf(urlPath: string): (key: string)
      reads this
      ensures |digest(urlPath)| == Fingerprint.DigestSize ==> |key| == 2 * Fingerprint.DigestSize
      ensures forall i :: 0 <= i < |key| ==> Fingerprint.HexValue(key[i]).Some?
    {
      Fingerprint.HashPath(digest, urlPath)
    }

    /** One request for `urlPath`: `probe` is what opening and stat'ing www/<urlPath>
        gives, `now` the clock, `fetch` the outcome of re-issuing the request. */
    method Request(urlPath: string, probe: FileProbe, now: int, fetch: Fetch) returns (reply: Reply)
      requires Valid()
      modifies this
      ensures Valid()
      ensures entries == Store(Invalidate(old(entries), KeyOf(urlPath), probe), KeyOf(urlPath), fetch, now)
      ensures reply == ReplyTo(fetch, now)
    {
      var pathHash := Fingerprint.HashPath(digest, urlPath);
      if pathHash in entries {
        var cacheEntry := entries[pathHash];
        var lastModified := LastModified(cacheEntry);
        if probe.Opened? && probe.modTime > lastModified {
          entries := entries - {pathHash};
        }
      }
      assert entries == Invalidate(old(entries), pathHash, probe);
      if !fetch.Fetched? {
        return ErrorReply(500, InternalErrorMessage);
      }
      var cacheEntry := NewEntry(fetch.status, fetch.header, fetch.body, now);
      entries := entries[pathHash := cacheEntry];
      RequestPreservesWellFormed(old(entries), pathHash, probe, fetch, now);
      var written := CopyHeader(cacheEntry.header, map[]);
      CopyOntoEmpty(cacheEntry.header, written);
      reply := Relayed(cacheEntry.status, written, cacheEntry.content);
    }
  }

  /** Staleness against the parsed stamp T: a file modified even one nanosecond after T
      drops the entry; one modified at T or earlier keeps it, and so does a file that
      cannot be opened or stat'ed. */
  lemma StaleOnlyWhenNewer(m: map<string, Entry>, key: string, t: int, probe: FileProbe)
    requires key in m && WellFormed(m[key]) && LastModified(m[key]) == t
    ensures probe == Opened(t + 1) ==> key !in Invalidate(m, key, probe)
    ensures (probe.Opened? && probe.modTime <= t) || !probe.Opened? ==> Invalidate(m, key, probe) == m
  {
  }

  /** An entry whose stamp does not parse is measured against the zero time, so any file
      that opens and stats with a real modification time drops it. The handler never
      stores such an entry (every entry it stores is WellFormed, see
      RequestPreservesWellFormed); the lemma pins down the fallback of the parse. */
  lemma UnparsedStampIsAlwaysStale(m: map<string, Entry>, key: string, modTime: int)
    requires key in m
    requires LastModifiedName !in m[key].header || m[key].header[LastModifiedName].Text?
    requires modTime > ZeroTime
    ensures key !in Invalidate(m, key, Opened(modTime))
  {
  }

  /** After a successful fetch the map is the same whether or not the old entry was
      invalidated: the new entry replaces it in any case, and every other key is as
      before. */
  lemma SuccessOverwritesRegardlessOfStaleness(m: map<string, Entry>, key: string, probe: FileProbe, fetch: Fetch, now: int)
    requires fetch.Fetched?
    ensures Store(Invalidate(m, key, probe), key, fetch, now)
         == m[key := NewEntry(fetch.status, fetch.header, fetch.body, now)]
  {
    var a := Store(Invalidate(m, key, probe), key, fetch, now);
    var b := m[key := NewEntry(fetch.status, fetch.header, fetch.body, now)];
    assert a.Keys == b.Keys;
    assert forall k :: k in a ==> a[k] == b[k];
  }

  /** After a failed fetch or body read the only possible change is the invalidation. */
  lemma FailureOnlyInvalidates(m: map<string, Entry>, key: string, probe: FileProbe, fetch: Fetch, now: int)
    requires !fetch.Fetched?
    ensures Store(Invalidate(m, key, probe), key, fetch, now) == Invalidate(m, key, probe)
    ensures key in m && Stale(m[key], probe) ==>
      Store(Invalidate(m, key, probe), key, fetch, now) == m - {key}
    ensures !(key in m && Stale(m[key], probe)) ==>
      Store(Invalidate(m, key, probe), key, fetch, now) == m
  {
  }

  /** What a successful request stores under its key is byte for byte what it answers
      with: the same status, header and body. */
  lemma StoredEntryIsReply(m: map<string, Entry>, key: string, probe: FileProbe, fetch: Fetch, now: int)
    requires fetch.Fetched?
    ensures var e := Store(Invalidate(m, key, probe), key, fetch, now)[key];
      ReplyTo(fetch, now) == Relayed(e.status, e.header, e.content)
      && e.content == fetch.body && e.status == fetch.status
  {
  }

  /** The entry a request just stored survives the next request's invalidation as long
      as the file was not modified after the start of the second of that request's
      clock reading. */
  lemma FreshEntrySurvivesUnmodifiedFile(m: map<string, Entry>, key: string, probe1: FileProbe,
                                         fetch: Fetch, now: int, modTime: int)
    requires fetch.Fetched? && modTime <= Second(now) * NanosPerSecond
    ensures var m1 := Store(Invalidate(m, key, probe1), key, fetch, now);
      Invalidate(m1, key, Opened(modTime)) == m1
  {
  }

  /** Since the stamp drops the sub-second part of the clock, a file written earlier in
      the same second as the store, but after that second began, makes the next request
      drop the entry it just stored, although the file is older than the entry. */
  lemma SameSecondWriteInvalidatesFreshEntry(m: map<string, Entry>, key: string, probe1: FileProbe,
                                             fetch: Fetch, now: int, modTime: int)
    requires fetch.Fetched? && Second(now) * NanosPerSecond < modTime <= now
    ensures var m1 := Store(Invalidate(m, key, probe1), key, fetch, now);
      key in m1 && key !in Invalidate(m1, key, Opened(modTime))
  {
  }

  /** Every request keeps the invariant that each stored entry carries the caching
      headers and a parseable stamp. */
  lemma RequestPreservesWellFormed(m: map<string, Entry>, key: string, probe: FileProbe, fetch: Fetch, now: int)
    requires forall k :: k in m ==> WellFormed(m[k])
    ensures var m' := Store(Invalidate(m, key, probe), key, fetch, now);
      forall k :: k in m' ==> WellFormed(m'[k])
  {
  }
}
