/** The cache of directory listings, keyed by directory path; entries expire. */
module Cache {
  import opened Optional

  datatype Entry<T> = Entry(listing: T, storedAt: int)

  /** `key` is `dir` or lies beneath it, at a path boundary. */
  predicate Covers(dir: string, key: string) {
    key == dir || dir + "/" <= key
  }

  /** A stored entry is still good at `now`: any age outside [0, ttl) counts as expired. */
  predicate IsLive(storedAt: int, now: int, ttl: int) {
    0 <= now - storedAt < ttl
  }

  function Without<V>(m: map<string, V>, dir: string): map<string, V> {
    map k | k in m && !Covers(dir, k) :: m[k]
  }

  /** What a get leaves behind: it drops an expired entry. */
  function AfterGet<T>(m: map<string, Entry<T>>, key: string, now: int, ttl: int): map<string, Entry<T>> {
    if key in m && !IsLive(m[key].storedAt, now, ttl) then m - {key} else m
  }

  function Hit<T>(m: map<string, Entry<T>>, key: string, now: int, ttl: int): Option<T> {
    if key in m && IsLive(m[key].storedAt, now, ttl) then Some(m[key].listing) else None
  }

  class ListingCache<T> {
    const ttl: int
    var entries: map<string, Entry<T>>

    constructor (ttl: int)
      ensures this.ttl == ttl && entries == map[]
    {
      this.ttl := ttl;
      entries := map[];
    }

    method Put(key: string, listing: T, now: int)
      modifies this
      ensures entries == old(entries)[key := Entry(listing, now)]
    {
      entries := entries[key := Entry(listing, now)];
    }

    method Get(key: string, now: int) returns (r: Option<T>)
      modifies this
      ensures r == Hit(old(entries), key, now, ttl)
      ensures entries == AfterGet(old(entries), key, now, ttl)
    {
      if key !in entries {
        return None;
      }
      var age := now - entries[key].storedAt;
      if age < 0 || age >= ttl {
        entries := entries - {key};
        return None;
      }
      return Some(entries[key].listing);
    }

    /** Drops `dir` and everything beneath it, and nothing else; one pass over the keys. */
    method Invalidate(dir: string)
      modifies this
      ensures entries == Without(old(entries), dir)
    {
      var childPrefix := dir + "/";
      var todo := entries.Keys;
      while todo != {}
        invariant todo <= entries.Keys <= old(entries).Keys
        invariant forall k :: k in entries ==> entries[k] == old(entries)[k] && (k in todo || !Covers(dir, k))
        invariant forall k :: k in old(entries) && k !in entries ==> Covers(dir, k)
        decreases todo
      {
        var k :| k in todo;
        if k == dir || childPrefix <= k {
          entries := entries - {k};
        }
        todo := todo - {k};
      }
    }

    method Clear()
      modifies this
      ensures entries == map[]
    {
      entries := map[];
    }
  }

  // ----- histories -----

  datatype Event<T> =
    | Put(key: string, listing: T, now: int)
    | Get(key: string, now: int)
    | Invalidate(dir: string)
    | Clear

  function Apply<T>(m: map<string, Entry<T>>, e: Event<T>, ttl: int): map<string, Entry<T>> {
    match e
    case Put(key, listing, now) => m[key := Entry(listing, now)]
    case Get(key, now) => AfterGet(m, key, now, ttl)
    case Invalidate(dir) => Without(m, dir)
    case Clear => map[]
  }

  /** The cache after a history that began with an empty one. */
  function After<T>(history: seq<Event<T>>, ttl: int): map<string, Entry<T>> {
    if history == [] then map[] else Apply(After(history[..|history| - 1], ttl), history[|history| - 1], ttl)
  }

  /** The event ends the life of an entry stored for `key` at `storedAt`: a newer listing, an invalidation at or
      above the key, a clear, or a get that found it expired. */
  predicate Ends<T>(e: Event<T>, key: string, storedAt: int, ttl: int) {
    match e
    case Put(k, _, _) => k == key
    case Get(k, now) => k == key && !(0 <= now - storedAt < ttl)
    case Invalidate(dir) => key == dir || dir + "/" <= key
    case Clear => true
  }

  /** The listing was put for `key` by the i-th event, and no later event ended its life. */
  ghost predicate Standing<T>(history: seq<Event<T>>, i: int, key: string, listing: T, storedAt: int, ttl: int) {
    && 0 <= i < |history| && history[i] == Put(key, listing, storedAt)
    && forall j :: i < j < |history| ==> !Ends(history[j], key, storedAt, ttl)
  }

  lemma {:induction false} EntriesAreStanding<T>(history: seq<Event<T>>, key: string, listing: T, storedAt: int, ttl: int)
    ensures var m := After(history, ttl);
      key in m && m[key] == Entry(listing, storedAt) <==> exists i :: Standing(history, i, key, listing, storedAt, ttl)
  {
    if history != [] {
      var n := |history| - 1;
      var init, e := history[..n], history[n];
      EntriesAreStanding(init, key, listing, storedAt, ttl);
      assert forall i :: 0 <= i < n ==> init[i] == history[i];
      if e == Put(key, listing, storedAt) {
        assert Standing(history, n, key, listing, storedAt, ttl);
      } else {
        forall i | Standing(history, i, key, listing, storedAt, ttl)
          ensures Standing(init, i, key, listing, storedAt, ttl) && !Ends(e, key, storedAt, ttl)
        {
        }
        if !Ends(e, key, storedAt, ttl) {
          forall i | Standing(init, i, key, listing, storedAt, ttl)
            ensures Standing(history, i, key, listing, storedAt, ttl)
          {
          }
        }
      }
    }
  }

  /** After any history under any clock, a get returns a listing if and only if that listing was put for that very key,
      at a clock age in [0, ttl), and no later event ended its life. */
  lemma HitsAreExact<T>(history: seq<Event<T>>, key: string, listing: T, now: int, ttl: int)
    ensures Hit(After(history, ttl), key, now, ttl) == Some(listing) <==>
      exists i, storedAt :: Standing(history, i, key, listing, storedAt, ttl) && 0 <= now - storedAt < ttl
  {
    var m := After(history, ttl);
    if key in m {
      EntriesAreStanding(history, key, m[key].listing, m[key].storedAt, ttl);
    }
    forall i, storedAt | Standing(history, i, key, listing, storedAt, ttl)
      ensures key in m && m[key] == Entry(listing, storedAt)
    {
      EntriesAreStanding(history, key, listing, storedAt, ttl);
    }
  }

  /** An entry that expired once stays gone, even if the clock is set back. */
  lemma ExpiredStaysGone<T>(history: seq<Event<T>>, key: string, now: int, later: int, ttl: int)
    requires key in After(history, ttl) && Hit(After(history, ttl), key, now, ttl).None?
    ensures Hit(After(history + [Get(key, now)], ttl), key, later, ttl).None?
  {
    assert (history + [Get(key, now)])[..|history|] == history;
  }
}
