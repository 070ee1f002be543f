/** The key-value map, its lazy expiry, and what each command does to it and answers. */
module CacheSpec {
  import opened Wrappers
  import opened Bytes
  import opened Commands

  datatype Entry = Entry(value: ByteString, expiresAt: Option<Millis>)

  type Store = map<ByteString, Entry>

  datatype TtlOutcome = KeyNotFound | TtlNotFound | Remaining(seconds: nat)

  datatype Outcome =
    | Value(payload: Option<ByteString>)
    | Done
    | Flag(yes: bool)
    | TimeLeft(ttl: TtlOutcome)
    | Count(n: int)

  /** The deadline has been reached: `now >= t`. */
  predicate Due(e: Entry, now: Millis) {
    e.expiresAt.Some? && now >= e.expiresAt.value
  }

  function Lookup(m: Store, k: ByteString): Option<Entry> {
    if k in m then Some(m[k]) else None
  }

  /** The entries a sweep at `now` leaves behind. */
  function Unexpired(m: Store, now: Millis): Store {
    map k | k in m && !Due(m[k], now) :: m[k]
  }

  /** A read of `k` drops it if it is due. */
  function Touch(m: Store, k: ByteString, now: Millis): Store {
    if k in m && Due(m[k], now) then m - {k} else m
  }

  /** The map after a write executed at clock reading `now`. */
  function ApplyAt(m: Store, w: WriteCommand, now: Millis): Store {
    match w
    case Set(k, v, at) => m[k := Entry(v, at)]
    case Delete(k) => m - {k}
    case ExpireAt(k, at) =>
      if now >= at then m - {k}
      else if k in m then m[k := m[k].(expiresAt := Some(at))]
      else m
    case Persist(k) =>
      if k !in m || m[k].expiresAt.None? then m
      else if Due(m[k], now) then m - {k}
      else m[k := m[k].(expiresAt := None)]
  }

  function WriteReply(m: Store, w: WriteCommand, now: Millis): Outcome {
    match w
    case Set(_, _, _) => Done
    case Delete(k) => Flag(k in m)
    case ExpireAt(k, _) => Flag(k in m)
    case Persist(k) => Flag(k in m && m[k].expiresAt.Some? && !Due(m[k], now))
  }

  /** Milliseconds rounded up to whole seconds. */
  function SecondsRoundedUp(ms: nat): nat {
    (ms + 999) / 1000
  }

  function SaturatingSub(a: nat, b: nat): nat {
    if a >= b then a - b else 0
  }

  /** `now` decides expiry; `again` is TTL's second clock reading, for the time left. */
  function ReadReply(m: Store, r: ReadCommand, now: Millis, again: Millis): Outcome {
    var live := r.key in m && !Due(m[r.key], now);
    match r
    case Get(k) => Value(if live then Some(m[k].value) else None)
    case Exists(k) => Count(if live then 1 else 0)
    case Ttl(k) =>
      TimeLeft(
        if !live then KeyNotFound
        else match m[k].expiresAt
          case None => TtlNotFound
          case Some(t) => Remaining(SecondsRoundedUp(SaturatingSub(t, again))))
  }

  /** Removing exactly the due keys is sweeping. */
  lemma SweepIsComplete(before: Store, after: Store, expired: set<ByteString>, now: Millis)
    requires forall k :: k in expired <==> k in before && Due(before[k], now)
    requires forall k :: k in after <==> k in before && k !in expired
    requires forall k :: k in after ==> after[k] == before[k]
    ensures after == Unexpired(before, now)
  {
    forall k: ByteString
      ensures k in after <==> k in Unexpired(before, now)
    {
      if k in before {
        assert k in expired <==> Due(before[k], now);
      }
    }
  }

  function CommandStore(m: Store, c: CacheCommand, now: Millis): Store {
    match c
    case Read(r) => Touch(m, r.key, now)
    case Write(w) => ApplyAt(m, w, now)
  }

  function CommandReply(m: Store, c: CacheCommand, now: Millis, again: Millis): Outcome {
    match c
    case Read(r) => ReadReply(m, r, now, again)
    case Write(w) => WriteReply(m, w, now)
  }
}

/** `Cache`: the shared map updated in place. Clock readings are parameters. */
module CacheObject {
  import opened Wrappers
  import opened Bytes
  import opened Commands
  import opened CacheSpec

  class Cache {
    var entries: Store

    constructor (data: Store)
      ensures entries == data
    {
      entries := data;
    }

    method Fetch(key: ByteString, now: Millis) returns (r: Option<Entry>)
      modifies this
      ensures entries == Touch(old(entries), key, now)
      ensures r == Lookup(Unexpired(old(entries), now), key)
    {
      r := if key in entries then Some(entries[key]) else None;
      if r.Some? && r.value.expiresAt.Some? && now >= r.value.expiresAt.value {
        entries := entries - {key};
        r := None;
      }
    }

    method Insert(key: ByteString, entry: Entry) returns (previous: Option<Entry>)
      modifies this
      ensures entries == old(entries)[key := entry]
      ensures previous == Lookup(old(entries), key)
    {
      previous := if key in entries then Some(entries[key]) else None;
      entries := entries[key := entry];
    }

    method Remove(key: ByteString) returns (previous: Option<Entry>)
      modifies this
      ensures entries == old(entries) - {key}
      ensures previous == Lookup(old(entries), key)
    {
      previous := if key in entries then Some(entries[key]) else None;
      entries := entries - {key};
    }

    method Contains(key: ByteString, now: Millis) returns (r: bool)
      modifies this
      ensures entries == Touch(old(entries), key, now)
      ensures r <==> key in Unexpired(old(entries), now)
    {
      if key !in entries {
        return false;
      }
      if entries[key].expiresAt.Some? && now >= entries[key].expiresAt.value {
        entries := entries - {key};
        return false;
      }
      r := true;
    }

    /** A deadline already reached deletes; the existing entry's own expiry is not consulted. */
    method SetExpiresAt(key: ByteString, at: Millis, now: Millis) returns (applied: bool)
      modifies this
      ensures entries == ApplyAt(old(entries), ExpireAt(key, at), now)
      ensures applied <==> key in old(entries)
    {
      if now >= at {
        var was := Remove(key);
        return was.Some?;
      }
      if key !in entries {
        return false;
      }
      entries := entries[key := entries[key].(expiresAt := Some(at))];
      applied := true;
    }

    /** Missing, present without a deadline, or present with one. */
    method ExpiresAt(key: ByteString, now: Millis) returns (r: Option<Option<Millis>>)
      modifies this
      ensures entries == Touch(old(entries), key, now)
      ensures r == match Lookup(Unexpired(old(entries), now), key)
                   case None => None
                   case Some(e) => Some(e.expiresAt)
    {
      if key !in entries {
        return None;
      }
      var at := entries[key].expiresAt;
      if at.Some? && now >= at.value {
        var _ := Remove(key);
        return None;
      }
      r := Some(at);
    }

    method TimeToLive(key: ByteString, now: Millis, again: Millis) returns (r: Option<Option<nat>>)
      modifies this
      ensures entries == Touch(old(entries), key, now)
      ensures r == match Lookup(Unexpired(old(entries), now), key)
                   case None => None
                   case Some(e) =>
                     Some(match e.expiresAt case None => None case Some(t) => Some(SaturatingSub(t, again)))
    {
      var at := ExpiresAt(key, now);
      if at.None? {
        return None;
      }
      if at.value.None? {
        return Some(None);
      }
      r := Some(Some(SaturatingSub(at.value.value, again)));
    }

    method RemoveTtl(key: ByteString, now: Millis) returns (cleared: bool)
      modifies this
      ensures entries == ApplyAt(old(entries), Persist(key), now)
      ensures WriteReply(old(entries), Persist(key), now) == Flag(cleared)
    {
      if key !in entries || entries[key].expiresAt.None? {
        return false;
      }
      if now >= entries[key].expiresAt.value {
        entries := entries - {key};
        return false;
      }
      entries := entries[key := entries[key].(expiresAt := None)];
      cleared := true;
    }

    /** Collect the due keys, then remove them one by one under the same lock. */
    method RemoveExpired(now: Millis) returns (count: nat)
      modifies this
      ensures entries == Unexpired(old(entries), now)
      ensures count == |old(entries)| - |entries|
    {
      ghost var before := entries;
      var expired := set k | k in entries && Due(entries[k], now);
      count := |expired|;
      var todo := expired;
      while todo != {}
        invariant todo <= expired && todo <= entries.Keys
        invariant forall k :: k in entries <==> k in before && (k in expired ==> k in todo)
        invariant forall k :: k in entries ==> entries[k] == before[k]
        invariant |entries| - |todo| == |before| - count
        decreases todo
      {
        var key :| key in todo;
        assert (entries - {key}).Keys == entries.Keys - {key};
        entries := entries - {key};
        todo := todo - {key};
      }
      SweepIsComplete(before, entries, expired, now);
    }

    /** `Cache::execute`: each arm calls the method that backs it. */
    method Execute(c: CacheCommand, now: Millis, again: Millis) returns (r: Outcome)
      modifies this
      ensures entries == CommandStore(old(entries), c, now)
      ensures r == CommandReply(old(entries), c, now, again)
    {
      match c
      case Read(Get(key)) =>
        var e := Fetch(key, now);
        r := Value(if e.Some? then Some(e.value.value) else None);
      case Read(Exists(key)) =>
        var found := Contains(key, now);
        r := Count(if found then 1 else 0);
      case Read(Ttl(key)) =>
        var left := TimeToLive(key, now, again);
        r := TimeLeft(
          if left.None? then KeyNotFound
          else if left.value.None? then TtlNotFound
          else Remaining(SecondsRoundedUp(left.value.value)));
      case Write(Set(key, value, at)) =>
        var _ := Insert(key, Entry(value, at));
        r := Done;
      case Write(Delete(key)) =>
        var was := Remove(key);
        r := Flag(was.Some?);
      case Write(ExpireAt(key, at)) =>
        var applied := SetExpiresAt(key, at, now);
        r := Flag(applied);
      case Write(Persist(key)) =>
        var cleared := RemoveTtl(key, now);
        r := Flag(cleared);
    }
  }
}
