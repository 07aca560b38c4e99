/**
 * The metadata cache of server.js: a map from video URL to the metadata
 * payload and the time it stops being served. Reads are lazy: an entry past
 * its expiry is removed by the read that finds it. The clock is a parameter
 * (`now`, milliseconds) instead of `Date.now()`.
 */
module InfoCache {
  import opened Opt
  import Renditions

  /** 15 minutes, in milliseconds. */
  const INFO_TTL_MS: int := 15 * 60 * 1000

  /** The payload `/api/info` answers with. */
  datatype VideoInfo = VideoInfo(
    title: string,
    thumbnail: string,
    duration: string,
    channel: string,
    formats: seq<Renditions.Rendition>)

  datatype CacheEntry = CacheEntry(data: VideoInfo, expiresAt: int)

  type Entries = map<string, CacheEntry>

  /** `getCachedInfo`: the payload if the entry is live, and the map the read leaves behind. */
  function Lookup(m: Entries, url: string, now: int): (Option<VideoInfo>, Entries) {
    if url !in m then (None, m)
    else if now > m[url].expiresAt then (None, m - {url})
    else (Some(m[url].data), m)
  }

  /** `setCachedInfo`: insert or overwrite with a fresh expiry. */
  function Store(m: Entries, url: string, data: VideoInfo, now: int): Entries {
    m[url := CacheEntry(data, now + INFO_TTL_MS)]
  }

  class Cache {
    var entries: Entries

    constructor ()
      ensures entries == map[]
    {
      entries := map[];
    }

    /** `getCachedInfo(url)` at time `now`. */
    method Get(url: string, now: int) returns (r: Option<VideoInfo>)
      modifies this
      ensures (r, entries) == Lookup(old(entries), url, now)
    {
      if url !in entries {
        return None;
      }
      var cached := entries[url];
      if now > cached.expiresAt {
        entries := entries - {url};
        return None;
      }
      return Some(cached.data);
    }

    /** `setCachedInfo(url, data)` at time `now`. */
    method Set(url: string, data: VideoInfo, now: int)
      modifies this
      ensures entries == Store(old(entries), url, data, now)
    {
      entries := entries[url := CacheEntry(data, now + INFO_TTL_MS)];
    }
  }

  // -----------------------------------------------------------------------
  // What reads and writes promise

  /** A payload comes back only from a present entry whose expiry has not passed. */
  lemma LookupNeverReturnsExpired(m: Entries, url: string, now: int)
    ensures Lookup(m, url, now).0.Some? <==> url in m && now <= m[url].expiresAt
    ensures Lookup(m, url, now).0.Some? ==> Lookup(m, url, now).0.value == m[url].data
  {
  }

  /** A read changes at most its own key: it removes it exactly when it finds it expired. */
  lemma LookupTouchesOnlyItsKey(m: Entries, url: string, now: int)
    ensures Lookup(m, url, now).1.Keys <= m.Keys
    ensures forall k :: k in m && k != url ==> k in Lookup(m, url, now).1 && Lookup(m, url, now).1[k] == m[k]
    ensures url in Lookup(m, url, now).1 <==> url in m && now <= m[url].expiresAt
    ensures url !in m ==> Lookup(m, url, now).1 == m
  {
  }

  /** After a write at `t`, a read of the same URL up to `t` + 15 minutes returns the payload and keeps the entry. */
  lemma {:induction false} ReadWithinTtl(m: Entries, url: string, data: VideoInfo, t: int, now: int)
    requires now <= t + INFO_TTL_MS
    ensures Lookup(Store(m, url, data, t), url, now) == (Some(data), Store(m, url, data, t))
  {
  }

  /** After a write at `t`, a read later than `t` + 15 minutes misses and leaves the other keys as before the write. */
  lemma {:induction false} ReadAfterTtl(m: Entries, url: string, data: VideoInfo, t: int, now: int)
    requires now > t + INFO_TTL_MS
    ensures Lookup(Store(m, url, data, t), url, now) == (None, m - {url})
  {
    assert Store(m, url, data, t) - {url} == m - {url};
  }

  /** A write to one URL does not change what a read of another URL sees. */
  lemma {:induction false} WriteIsolated(m: Entries, u: string, v: string, data: VideoInfo, t: int, now: int)
    requires u != v
    ensures Lookup(Store(m, u, data, t), v, now).0 == Lookup(m, v, now).0
  {
  }
}
