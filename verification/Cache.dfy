/** `ArrayCache` of include/cache.hpp: values with an optional expiry. Times are nanoseconds of
    the steady clock. */
module Cache {
  import opened Wrappers

  datatype Entry = Entry(value: string, expires: Option<int>)

  type Items = map<string, Entry>

  predicate Expired(e: Entry, now: int) {
    e.expires.Some? && now >= e.expires.value
  }

  /** What `get` answers at a time. */
  function Live(items: Items, key: string, now: int): Option<string> {
    if key in items && !Expired(items[key], now) then Some(items[key].value) else None
  }

  /** What `get` leaves behind: an expired entry it met is dropped. */
  function Purged(items: Items, key: string, now: int): Items {
    if key in items && Expired(items[key], now) then items - {key} else items
  }

  /** Dropping an expired entry is never seen: no later read answers differently. */
  lemma PurgeUnseen(items: Items, key: string, now: int, other: string, later: int)
    requires now <= later
    ensures Live(Purged(items, key, now), other, later) == Live(items, other, later)
  {}

  /** A value put with a lifetime is there until it is over and gone from then on, and other keys
      do not notice. */
  lemma PutLasts(items: Items, key: string, value: string, ttl: int, now: int, other: string, later: int)
    ensures Live(items[key := Entry(value, Some(now + ttl))], other, later) ==
      if other != key then Live(items, other, later) else if later < now + ttl then Some(value) else None
  {}

  class ArrayCache {
    var items: Items

    constructor ()
      ensures items == map[]
    {
      items := map[];
    }

    method Put(key: string, value: string)
      modifies this
      ensures items == old(items)[key := Entry(value, None)]
    {
      items := items[key := Entry(value, None)];
    }

    method PutFor(key: string, value: string, ttl: int, now: int)
      modifies this
      ensures items == old(items)[key := Entry(value, Some(now + ttl))]
    {
      items := items[key := Entry(value, Some(now + ttl))];
    }

    method Get(key: string, now: int) returns (r: Option<string>)
      modifies this
      ensures r == Live(old(items), key, now) && items == Purged(old(items), key, now)
    {
      if key !in items { return None; }
      if Expired(items[key], now) {
        items := items - {key};
        return None;
      }
      return Some(items[key].value);
    }

    method Has(key: string, now: int) returns (yes: bool)
      modifies this
      ensures yes == Live(old(items), key, now).Some? && items == Purged(old(items), key, now)
    {
      var r := Get(key, now);
      yes := r.Some?;
    }

    method Forget(key: string)
      modifies this
      ensures items == old(items) - {key}
    {
      items := items - {key};
    }
  }
}
