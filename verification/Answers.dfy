/**
 * What the answers mean: against the history of writes, against what the command did to the map, and byte for
 * byte on the wire.
 */
module Answers {
  import opened Wrappers
  import opened Bytes
  import opened Sequences
  import Decimal
  import opened Commands
  import opened CacheSpec
  import opened Ideal
  import opened Recovery
  import opened Replies

  // ---- GET against the history of writes ----

  /** At any clock readings, a value GET returns is the one the history of writes gives the key. */
  lemma GetNeverInvents(es: seq<Event>, k: ByteString, v: ByteString, now: Millis, again: Millis)
    requires ReadReply(Run(map[], es), Get(k), now, again) == Value(Some(v))
    ensures var o := KeyFold(None, On(k, Log(es))); o.Some? && o.value.value == v && !Due(o.value, now)
  {
    RunWithin(map[], es, k, None);
  }

  /** On a settled key GET answers exactly what the history of writes leaves alive. */
  lemma GetShowsTheHistory(es: seq<Event>, k: ByteString, t: Millis, again: Millis)
    requires UpTo(es, t) && Settled(Log(es), k, t)
    ensures var o := KeyFold(None, On(k, Log(es)));
            ReadReply(Run(map[], es), Get(k), t, again) == Value(if LiveAt(o, t) then Some(o.value.value) else None)
  {
    hide Run, KeyFold, Steady, On, Log;
    LiveRunFaithful(es, k, t);
  }

  predicate LeavesAlone(es: seq<Event>, k: ByteString) {
    forall i :: 0 <= i < |es| && es[i].Wrote? ==> es[i].cmd.key != k
  }

  /** Whatever else happens, a SET stays until its deadline: no read, sweep or write to another key undoes it. */
  lemma {:induction false} SetStays(m: Store, k: ByteString, v: ByteString, at: Option<Millis>, now: Millis,
                                   es: seq<Event>, t: Millis)
    requires LeavesAlone(es, k) && UpTo(es, t) && (at.Some? ==> t < at.value)
    ensures Lookup(Run(ApplyAt(m, Set(k, v, at), now), es), k) == Some(Entry(v, at))
  {
    if es != [] {
      var front := es[..|es| - 1];
      SetStays(m, k, v, at, now, front, t);
      StepPointwise(Run(ApplyAt(m, Set(k, v, at), now), front), es[|es| - 1], k);
    }
  }

  /** So a GET before the deadline returns exactly what was set, and one after it nothing. */
  lemma GetAfterSet(m: Store, k: ByteString, v: ByteString, at: Option<Millis>, now: Millis,
                    es: seq<Event>, t: Millis, again: Millis)
    requires LeavesAlone(es, k) && UpTo(es, t)
    ensures ReadReply(Run(ApplyAt(m, Set(k, v, at), now), es), Get(k), t, again) ==
            Value(if at.None? || t < at.value then Some(v) else None)
  {
    if at.None? || t < at.value {
      SetStays(m, k, v, at, now, es, t);
    } else {
      SetIsAllThereIs(m, k, v, at, now, es);
    }
  }

  lemma {:induction false} SetIsAllThereIs(m: Store, k: ByteString, v: ByteString, at: Option<Millis>, now: Millis,
                                          es: seq<Event>)
    requires LeavesAlone(es, k)
    ensures Within(Lookup(Run(ApplyAt(m, Set(k, v, at), now), es), k), Some(Entry(v, at)))
  {
    if es != [] {
      var front := es[..|es| - 1];
      SetIsAllThereIs(m, k, v, at, now, front);
      StepPointwise(Run(ApplyAt(m, Set(k, v, at), now), front), es[|es| - 1], k);
    }
  }

  // ---- The other reads, and the writes ----

  /** EXISTS counts a key exactly when GET finds a value there. */
  lemma ExistsIffGet(m: Store, k: ByteString, now: Millis, again: Millis)
    ensures ReadReply(m, Exists(k), now, again) ==
            Count(if ReadReply(m, Get(k), now, again) == Value(None) then 0 else 1)
  {
  }

  /** TTL tells apart a key GET does not find, one without a deadline, and one with so many seconds begun. */
  lemma TtlIff(m: Store, k: ByteString, now: Millis, again: Millis, s: nat)
    ensures ReadReply(m, Ttl(k), now, again) == TimeLeft(KeyNotFound) <==>
            ReadReply(m, Get(k), now, again) == Value(None)
    ensures ReadReply(m, Ttl(k), now, again) == TimeLeft(TtlNotFound) <==> k in m && m[k].expiresAt == None
    ensures ReadReply(m, Ttl(k), now, again) == TimeLeft(Remaining(s)) <==>
            k in m && m[k].expiresAt.Some? &&
            (var at := m[k].expiresAt.value;
             now < at && if again < at then 1000 * s - 1000 < at - again <= 1000 * s else s == 0)
  {
  }

  /** DEL answers whether it changed the map. */
  lemma DelTellsWhetherItChanged(m: Store, k: ByteString, now: Millis)
    ensures WriteReply(m, Delete(k), now) == Flag(ApplyAt(m, Delete(k), now) != m)
    ensures k !in ApplyAt(m, Delete(k), now)
  {
    if k !in m {
      assert m - {k} == m;
    } else {
      assert k !in m - {k};
    }
  }

  /** PERSIST answers whether it changed the map without removing the key. */
  lemma PersistTellsWhetherItKept(m: Store, k: ByteString, now: Millis)
    ensures var after := ApplyAt(m, Persist(k), now);
            WriteReply(m, Persist(k), now) == Flag(after != m && k in after)
  {
    var after := ApplyAt(m, Persist(k), now);
    if WriteReply(m, Persist(k), now) == Flag(true) {
      assert after[k].expiresAt != m[k].expiresAt;
    }
  }

  /** An expire answers whether the key was there; it then is gone or has the deadline, and else nothing changed. */
  lemma ExpireTellsWhetherItApplied(m: Store, k: ByteString, at: Millis, now: Millis)
    ensures var after := ApplyAt(m, ExpireAt(k, at), now);
            if WriteReply(m, ExpireAt(k, at), now) == Flag(true) then
              k in m && Lookup(after, k) == if now < at then Some(Entry(m[k].value, Some(at))) else None
            else WriteReply(m, ExpireAt(k, at), now) == Flag(false) && k !in m && after == m
  {
    if k !in m {
      assert m - {k} == m;
    }
  }

  // ---- Reclaiming ----

  /** A read of a key drops it if it is due, and touches no other; a sweep drops every due key and no other. */
  lemma ReclaimsExactlyTheDue(m: Store, k: ByteString, other: ByteString, now: Millis)
    ensures var o := Lookup(m, other);
            && Lookup(Touch(m, k, now), other) == (if other == k && !LiveAt(o, now) then None else o)
            && Lookup(Unexpired(m, now), other) == (if LiveAt(o, now) then o else None)
    ensures LiveAt(Lookup(m, other), now) <==>
              other in m && (m[other].expiresAt.Some? ==> now < m[other].expiresAt.value)
  {
  }

  // ---- On the wire ----

  /** The bytes a client gets for a command. */
  function Wire(m: Store, c: CacheCommand, now: Millis, again: Millis): ByteString {
    ToBytes(ReplyTo(CommandReply(m, c, now, again)))
  }

  lemma SmallNumbers()
    ensures ToBytes(Integer(0)) == [58, 48, 13, 10] && ToBytes(Integer(1)) == [58, 49, 13, 10]
    ensures ToBytes(Integer(-1)) == [58, 45, 49, 13, 10] && ToBytes(Integer(-2)) == [58, 45, 50, 13, 10]
  {
    assert Decimal.PrintSigned(0) == [48] && Decimal.PrintSigned(1) == [49];
    assert Decimal.PrintSigned(-1) == [45, 49] && Decimal.PrintSigned(-2) == [45, 50];
  }

  /** `+OK` for SET; for the other writes `:1` exactly when they take effect, and `:0` otherwise. */
  lemma WritesOnTheWire(m: Store, w: WriteCommand, now: Millis, again: Millis)
    ensures Wire(m, Write(w), now, again) ==
            match w
            case Set(_, _, _) => [43, 79, 75, 13, 10]
            case Delete(k) => if k in m then [58, 49, 13, 10] else [58, 48, 13, 10]
            case ExpireAt(k, _) => if k in m then [58, 49, 13, 10] else [58, 48, 13, 10]
            case Persist(k) =>
              if k in m && m[k].expiresAt.Some? && now < m[k].expiresAt.value then [58, 49, 13, 10]
              else [58, 48, 13, 10]
  {
    SmallNumbers();
  }

  /** A live key: GET sends the value as a bulk string, EXISTS `:1`, and TTL `:-1` or the seconds begun. */
  lemma LiveReadsOnTheWire(m: Store, k: ByteString, now: Millis, again: Millis)
    requires LiveAt(Lookup(m, k), now)
    ensures var v := m[k].value;
            && Wire(m, Read(Get(k)), now, again) == [36] + Decimal.Print(|v|) + [13, 10] + v + [13, 10]
            && Decode(Wire(m, Read(Get(k)), now, again)) == Decoded(Bulk(v), [])
    ensures Wire(m, Read(Exists(k)), now, again) == [58, 49, 13, 10]
    ensures m[k].expiresAt.None? ==> Wire(m, Read(Ttl(k)), now, again) == [58, 45, 49, 13, 10]
    ensures forall s: nat :: ReadReply(m, Ttl(k), now, again) == TimeLeft(Remaining(s)) ==>
              Wire(m, Read(Ttl(k)), now, again) ==
              [58] + Decimal.Print(if s <= 9223372036854775807 then s else 9223372036854775807) + [13, 10]
  {
    hide ToBytes, Decode, Decimal.Print;
    SmallNumbers();
    BulkOnTheWire(m[k].value);
    forall s: nat | s <= I64_MAX
      ensures ToBytes(Integer(s)) == [58] + Decimal.Print(s) + [13, 10]
    {
      NumberOnTheWire(s);
    }
    assert I64_MAX == 9223372036854775807;
  }

  lemma NumberOnTheWire(s: nat)
    requires s <= I64_MAX
    ensures ToBytes(Integer(s)) == [58] + Decimal.Print(s) + [13, 10]
  {
  }

  lemma BulkOnTheWire(v: ByteString)
    ensures ToBytes(Bulk(v)) == [36] + Decimal.Print(|v|) + [13, 10] + v + [13, 10]
    ensures Decode(ToBytes(Bulk(v))) == Decoded(Bulk(v), [])
  {
    hide Decimal.Print, Decode;
    NothingBehind(ToBytes(Bulk(v)));
    ReplyRoundTrip(Bulk(v), []);
    Associative([36] + Decimal.Print(|v|) + [13, 10], v, [13, 10]);
  }

  lemma NothingBehind(b: ByteString)
    ensures b + [] == b
  {
  }

  /** No live key: GET sends `$-1`, EXISTS `:0` and TTL `:-2`. */
  lemma MissesOnTheWire(m: Store, k: ByteString, now: Millis, again: Millis)
    requires !LiveAt(Lookup(m, k), now)
    ensures Wire(m, Read(Get(k)), now, again) == [36, 45, 49, 13, 10]
    ensures Wire(m, Read(Exists(k)), now, again) == [58, 48, 13, 10]
    ensures Wire(m, Read(Ttl(k)), now, again) == [58, 45, 50, 13, 10]
  {
    SmallNumbers();
  }

  /** From a SET to the bytes of a later GET and TTL, whatever happens in between to other keys. */
  lemma SetThenReads(m: Store, k: ByteString, v: ByteString, now: Millis, es: seq<Event>, t: Millis, again: Millis)
    requires LeavesAlone(es, k) && UpTo(es, t)
    ensures var after := Run(ApplyAt(m, Set(k, v, None), now), es);
            && Decode(Wire(after, Read(Get(k)), t, again)) == Decoded(Bulk(v), [])
            && Wire(after, Read(Ttl(k)), t, again) == [58, 45, 49, 13, 10]
  {
    hide Wire, Run;
    SetStays(m, k, v, None, now, es, t);
    LiveReadsOnTheWire(Run(ApplyAt(m, Set(k, v, None), now), es), k, t, again);
  }

  /** And from a DEL. */
  lemma DelThenReads(m: Store, k: ByteString, now: Millis, t: Millis, again: Millis)
    ensures var after := ApplyAt(m, Delete(k), now);
            && Wire(after, Read(Get(k)), t, again) == [36, 45, 49, 13, 10]
            && Wire(after, Read(Ttl(k)), t, again) == [58, 45, 50, 13, 10]
  {
    hide Wire;
    MissesOnTheWire(ApplyAt(m, Delete(k), now), k, t, again);
  }

  /** Error replies and arrays, whose sigils no cache answer uses. */
  lemma OthersOnTheWire(text: SimpleInner, rs: seq<Reply>)
    ensures ToBytes(SimpleError(text)) == [45] + text + [13, 10]
    ensures ToBytes(SimpleString(text)) == [43] + text + [13, 10]
    ensures ToBytes(Multi(rs)) == [42] + Decimal.Print(|rs|) + [13, 10] + AllBytes(rs)
    ensures ToBytes(NullBulk) == [36, 45, 49, 13, 10]
  {
  }
}
