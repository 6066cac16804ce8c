/**
  The cache of the memcached server: a map from keys to entries with
  `set` (store unless the key is present and replacement is not allowed)
  and `get` (look up, evicting an entry whose expiry time has passed).

  The Go code keeps each entry as the string list
  `[value, flags, exptime, byteCount]`, with the expiry written out by
  fmt.Sprint and read back by strconv.Atoi; on a 64-bit platform that round
  trip is exact, so the model keeps the expiry as the int64 itself. The
  clock (`time.Now().Unix()`) is the parameter `now`.
*/
module Store {
  import opened Wrappers
  import opened GoInt

  /** One cached item: the stored line and the header fields kept beside it. */
  datatype Entry = Entry(value: string, flags: string, expiresAt: Int64, byteCount: string)

  /**
    The expiry time `set` records: "0" means never (math.MaxInt64); any
    other text is parsed as seconds and added to `now` with int64 `+`.
  */
  function ExpiryOf(exptime: string, now: Int64): (r: Int64)
    ensures exptime == "0" ==> r == MaxInt64
    ensures exptime != "0" && MinInt64 <= now + ParseInt(exptime) <= MaxInt64 ==> r == now + ParseInt(exptime)
  {
    if exptime == "0" then MaxInt64 else Wrap(now + ParseInt(exptime))
  }

  /** An entry is expired once its expiry time lies strictly before `now`. */
  predicate Expired(e: Entry, now: Int64) {
    e.expiresAt < now
  }

  /**
    `set`: whether it stored, and the cache afterwards. A present key is
    refused unless replacement is allowed, whether or not its entry has
    expired; otherwise exactly that key is (re)written.
  */
  function Put(m: map<string, Entry>, key: string, value: string, flags: string, exptime: string,
               byteCount: string, allowReplacement: bool, now: Int64): (r: (bool, map<string, Entry>))
    ensures r.0 <==> key !in m || allowReplacement
    ensures !r.0 ==> r.1 == m
    ensures r.0 ==> r.1.Keys == m.Keys + {key} && r.1[key] == Entry(value, flags, ExpiryOf(exptime, now), byteCount)
    ensures forall k | k in m && k != key :: r.1[k] == m[k]
  {
    if key in m && !allowReplacement then (false, m)
    else (true, m[key := Entry(value, flags, ExpiryOf(exptime, now), byteCount)])
  }

  /**
    `get`: the entry found (None for nil) and the cache afterwards. An absent
    key and an expired entry both give None; the expired entry is deleted.
    An entry whose expiry equals `now` is still returned.
  */
  function Lookup(m: map<string, Entry>, key: string, now: Int64): (r: (Option<Entry>, map<string, Entry>))
    ensures r.0.Some? <==> key in m && !Expired(m[key], now)
    ensures r.0.Some? ==> r.0.value == m[key]
    ensures r.1.Keys == if r.0.Some? then m.Keys else m.Keys - {key}
    ensures forall k | k in r.1 :: r.1[k] == m[k]
  {
    if key !in m then (None, m)
    else if Expired(m[key], now) then (None, m - {key})
    else (Some(m[key]), m)
  }

  /** The cache itself, updated in place like the Go program's global map. */
  class Cache {
    var entries: map<string, Entry>

    constructor ()
      ensures entries == map[]
    {
      entries := map[];
    }

    /** set(key, value, flags, exptime, byteCount, allowReplacement) at time `now`. */
    method Set(key: string, value: string, flags: string, exptime: string, byteCount: string,
               allowReplacement: bool, now: Int64) returns (ok: bool)
      modifies this
      ensures (ok, entries) == Put(old(entries), key, value, flags, exptime, byteCount, allowReplacement, now)
    {
      if key in entries && !allowReplacement {
        return false;
      }
      var expiresAt := ExpiryOf(exptime, now);
      entries := entries[key := Entry(value, flags, expiresAt, byteCount)];
      return true;
    }

    /** get(key) at time `now`. */
    method Get(key: string, now: Int64) returns (result: Option<Entry>)
      modifies this
      ensures (result, entries) == Lookup(old(entries), key, now)
    {
      if key !in entries {
        return None;
      }
      var entry := entries[key];
      if Expired(entry, now) {
        entries := entries - {key};
        return None;
      }
      return Some(entry);
    }
  }

  // ---------------------------------------------------------------------
  // Properties of set and get together.
  // ---------------------------------------------------------------------

  /** An entry stored with exptime "0" is returned at any later time. */
  lemma NeverExpires(m: map<string, Entry>, key: string, value: string, flags: string, byteCount: string,
                     allowReplacement: bool, now: Int64, later: Int64)
    requires Put(m, key, value, flags, "0", byteCount, allowReplacement, now).0
    ensures Lookup(Put(m, key, value, flags, "0", byteCount, allowReplacement, now).1, key, later).0
         == Some(Entry(value, flags, MaxInt64, byteCount))
  {
  }

  /**
    An entry stored with a negative exptime is already expired when read at
    the same second: get answers nil and evicts it. The clock is taken to be
    at or after the Unix epoch, so `now + exptime` cannot wrap.
  */
  lemma NegativeExptimeExpiresAtOnce(m: map<string, Entry>, key: string, value: string, flags: string,
                                     exptime: string, byteCount: string, allowReplacement: bool, now: Int64)
    requires 0 <= now
    requires IsDecimal(exptime) && exptime[0] == '-' && DecimalValue(Magnitude(exptime)) > 0
    requires Put(m, key, value, flags, exptime, byteCount, allowReplacement, now).0
    ensures var after := Lookup(Put(m, key, value, flags, exptime, byteCount, allowReplacement, now).1, key, now);
      after.0 == None && key !in after.1
  {
    ParseIntNegative(exptime);
    assert exptime != "0";
  }

  /**
    int64 wrap-around as written: when `now + exptime` exceeds the int64
    range it wraps to an expiry before `now`, so an entry meant to live very
    long is already gone at the next get in the same second.
  */
  lemma OverflowingExptimeExpiresAtOnce(m: map<string, Entry>, key: string, value: string, flags: string,
                                        exptime: string, byteCount: string, allowReplacement: bool, now: Int64)
    requires now + ParseInt(exptime) > MaxInt64
    requires Put(m, key, value, flags, exptime, byteCount, allowReplacement, now).0
    ensures var after := Lookup(Put(m, key, value, flags, exptime, byteCount, allowReplacement, now).1, key, now);
      after.0 == None && key !in after.1
  {
    assert ParseInt("0") == 0 by {
      assert Magnitude("0") == "0" && "0"[..0] == [];
    }
    assert exptime != "0";
    var x := now + ParseInt(exptime);
    var r := Wrap(x);
    assert r == x - TwoTo64 by {
      var q := (x - r) / TwoTo64;
      assert x - r == q * TwoTo64;
      assert 0 < x - r < 2 * TwoTo64;
    }
  }

  /** Writing one key does not change what get answers for any other key. */
  lemma PutLeavesOtherKeys(m: map<string, Entry>, key: string, value: string, flags: string, exptime: string,
                           byteCount: string, allowReplacement: bool, now: Int64, other: string, at: Int64)
    requires other != key
    ensures Lookup(Put(m, key, value, flags, exptime, byteCount, allowReplacement, now).1, other, at).0
         == Lookup(m, other, at).0
  {
  }

  /** A second get at the same time answers the same and changes nothing more. */
  lemma LookupIdempotent(m: map<string, Entry>, key: string, now: Int64)
    ensures var once := Lookup(m, key, now);
      Lookup(once.1, key, now) == once
  {
  }

  /** Once get has answered nil at some time, it answers nil at every later time. */
  lemma LookupMissStays(m: map<string, Entry>, key: string, now: Int64, later: Int64)
    requires Lookup(m, key, now).0.None? && now <= later
    ensures Lookup(m, key, later).0.None?
    ensures Lookup(Lookup(m, key, now).1, key, later).0.None?
  {
  }
}
