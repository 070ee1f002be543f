/** Runs that show the provisos of crash safety are needed, and what becomes of a log written out of order. */
module CrashRuns {
  import opened Wrappers
  import opened Bytes
  import opened Commands
  import opened CommandCodec
  import opened CacheSpec
  import opened Ideal
  import opened Recovery
  import opened RecoveryExact
  import opened LogCodec
  import opened CrashModel
  import opened CrashSafety

  lemma TakeStep(acts: seq<Action>, a: Action, t: Millis)
    requires After(acts, t).Some? && Enabled(After(acts, t).value, a, t)
    ensures After(acts + [a], t) == Some(Do(After(acts, t).value, a, t))
  {
    assert (acts + [a])[..|acts|] == acts;
  }

  lemma EmptyRun(t: Millis)
    ensures After([], t) == Some(START)
  {
  }

  /** Nothing under way: a write can go through from here. */
  predicate Quiet(s: State) {
    s.snapshotter == Idle && s.append == NoAppend && s.flight == [] && s.tail == Clean
  }

  /** Apply a write with nothing else going on, and append it in full. */
  lemma WriteThrough(acts: seq<Action>, w: WriteCommand, now: Millis, t: Millis) returns (acts': seq<Action>)
    requires After(acts, t).Some? && Quiet(After(acts, t).value) && Storable(w) && now <= t
    ensures var s := After(acts, t).value;
            After(acts', t) == Some(s.(cache := ApplyAt(s.cache, w, now), applied := s.applied + [w],
                                       issued := s.issued + [w], log := s.log + [w], file := s.file + EncodeWrite(w),
                                       raced := if w.key in s.pending then s.raced + {w.key} else s.raced,
                                       robbed := if IsReset(w) then s.robbed - {w.key} else s.robbed,
                                       hurt := if IsReset(w) then s.hurt - {w.key} else s.hurt))
  {
    hide After, EncodeWrite, ApplyAt;
    var s := After(acts, t).value;
    TakeStep(acts, Apply(w, now), t);
    var a1 := acts + [Apply(w, now)];
    assert After(a1, t).value.flight == [w];
    TakeStep(a1, BeginAppend(0), t);
    var a2 := a1 + [BeginAppend(0)];
    var n := |EncodeWrite(w)|;
    TakeStep(a2, WriteBytes(n), t);
    var a3 := a2 + [WriteBytes(n)];
    assert EncodeWrite(w)[0..0 + n] == EncodeWrite(w);
    TakeStep(a3, EndAppend, t);
    acts' := a3 + [EndAppend];
    assert Without([w], 0) == [];
  }

  /** Lock and store. The log is not cleared yet. */
  lemma StoreOnly(acts: seq<Action>, t: Millis) returns (acts': seq<Action>)
    requires After(acts, t).Some? && After(acts, t).value.snapshotter == Idle
    ensures var s := After(acts, t).value;
            After(acts', t) == Some(s.(snapshotter := Stored, stored := s.cache, storedAt := |s.applied|,
                                       missing := s.robbed))
  {
    hide After;
    TakeStep(acts, LockCache, t);
    TakeStep(acts + [LockCache], StoreSnapshot, t);
    acts' := acts + [LockCache] + [StoreSnapshot];
  }

  // ---- A write in flight that the snapshot saw ----

  /** SET a and a full snapshot, then a logged deadline, then SET b applied and stored but not logged. */
  lemma MixingRun(first: WriteCommand, second: WriteCommand, third: WriteCommand, t: Millis)
    returns (acts: seq<Action>)
    requires Storable(first) && Storable(second) && Storable(third)
    ensures After(acts, t).Some?
    ensures var s := After(acts, t).value;
            && s.applied == [first, second, third] && s.flight == [third] && s.log == [second] && s.append == NoAppend
            && s.stored == ApplyAt(ApplyAt(ApplyAt(map[], first, 0), second, 0), third, 0)
  {
    hide After, EncodeWrite, ApplyAt, Storable;
    EmptyRun(t);
    var r1 := WriteThrough([], first, 0, t);
    var r2 := StoreOnly(r1, t);
    TakeStep(r2, ClearLog, t);
    var r3 := WriteThrough(r2 + [ClearLog], second, 0, t);
    TakeStep(r3, Apply(third, 0), t);
    acts := StoreOnly(r3 + [Apply(third, 0)], t);
  }

  /**
   * A key whose in-flight write the snapshot saw, while older entries for it are still in the log,
   * can restart as a mixture no sequence of its writes ever produced: here SET b, which clears the
   * deadline, comes back carrying the deadline set on the value before it.
   */
  lemma InFlightKeyCanMix(k: ByteString, a: ByteString, b: ByteString, clock: nat -> Millis)
    returns (acts: seq<Action>)
    requires |k| <= U64_MAX && |a| <= U64_MAX && |b| <= U64_MAX && ClockUpTo(clock, 5) && a != b
    ensures After(acts, 5).Some?
    ensures var s := After(acts, 5).value;
            && s.applied == [Set(k, a, None), ExpireAt(k, 9), Set(k, b, None)] && s.flight == [Set(k, b, None)]
            && Lookup(Restarted(s, clock, 5), k) == Some(Entry(b, Some(9)))
            && forall n :: 0 <= n <= 3 ==> KeyFold(None, s.applied[..n]) != Some(Entry(b, Some(9)))
  {
    hide After, ReadLog, Run, Log, Inv, KeyFold, EncodeWrite;
    var second := ExpireAt(k, 9);
    acts := MixingRun(Set(k, a, None), second, Set(k, b, None), 5);
    var s := After(acts, 5).value;
    ReachableInv(acts, 5);
    FileReadsBack(s, clock, 5);
    OneWriteRuns(s.stored, second, clock);
    MixedIsNew(k, a, b);
  }

  lemma OneWriteRuns(m: Store, w: WriteCommand, clock: nat -> Millis)
    ensures Run(m, Replayed([w], clock, 0)) == ApplyAt(m, w, clock(1))
  {
    var es := Replayed([w], clock, 0);
    assert es[..0] == [] && es[0] == Wrote(w, clock(1));
  }

  lemma MixedIsNew(k: ByteString, a: ByteString, b: ByteString)
    requires a != b
    ensures var ws := [Set(k, a, None), ExpireAt(k, 9), Set(k, b, None)];
            forall n :: 0 <= n <= 3 ==> KeyFold(None, ws[..n]) != Some(Entry(b, Some(9)))
  {
    var ws := [Set(k, a, None), ExpireAt(k, 9), Set(k, b, None)];
    assert ws[..1] == [] + [ws[0]] && ws[..2] == ws[..1] + [ws[1]] && ws[..3] == ws[..2] + [ws[2]];
    KeyFoldNext(None, [], ws[0]);
    KeyFoldNext(None, ws[..1], ws[1]);
    KeyFoldNext(None, ws[..2], ws[2]);
    assert ws[..0] == [];
  }

  // ---- A write that a TTL removes ----

  /** SET with a deadline, a TTL that finds it reached, a second SET acknowledged, and then the removal. */
  lemma RobbingRun(k: ByteString, first: WriteCommand, second: WriteCommand) returns (acts: seq<Action>)
    requires first.Set? && second.Set? && first.key == second.key == k && Storable(first) && Storable(second)
    requires first.expiresAt == Some(5)
    ensures After(acts, 10).Some?
    ensures var s := After(acts, 10).value;
            && Quiet(s) && s.issued == s.applied == [first, second] && s.log == []
            && s.cache == s.stored == map[] && s.hurt == {}
  {
    hide After, EncodeWrite, Storable;
    EmptyRun(10);
    var r1 := WriteThrough([], first, 1, 10);
    assert After(r1, 10).value.cache == map[k := Entry(first.value, Some(5))];
    TakeStep(r1, TtlCheck(k, 6), 10);
    var r2 := WriteThrough(r1 + [TtlCheck(k, 6)], second, 7, 10);
    assert After(r2, 10).value.cache == map[k := Entry(second.value, second.expiresAt)];
    TakeStep(r2, TtlRemove(k), 10);
    assert After(r2 + [TtlRemove(k)], 10).value.cache == map[];
    var r3 := StoreOnly(r2 + [TtlRemove(k)], 10);
    TakeStep(r3, ClearLog, 10);
    acts := r3 + [ClearLog];
  }

  /**
   * TTL reads a deadline under the lock and removes the key under the lock again, but lets go in between. A
   * SET that is applied, logged and acknowledged in the gap is removed, and the next snapshot makes the loss
   * permanent: nothing is in flight, the key is settled, and neither the cache nor any restart has it.
   */
  lemma TtlCanLoseAWrite(k: ByteString, v1: ByteString, v2: ByteString, clock: nat -> Millis)
    returns (acts: seq<Action>)
    requires |k| <= U64_MAX && |v1| <= U64_MAX && |v2| <= U64_MAX && ClockUpTo(clock, 10)
    ensures After(acts, 10).Some?
    ensures var s := After(acts, 10).value;
            && s.issued == [Set(k, v1, Some(5)), Set(k, v2, None)] && s.flight == [] && k !in s.hurt
            && Settled(s.issued, k, 10) && Visible(On(k, s.issued), 10) == Some(Entry(v2, None))
            && k !in s.cache && k !in Restarted(s, clock, 10)
  {
    hide After, ReadLog, Run, Log, Inv, EncodeWrite;
    var first, second := Set(k, v1, Some(5)), Set(k, v2, None);
    acts := RobbingRun(k, first, second);
    var s := After(acts, 10).value;
    ReachableInv(acts, 10);
    FileReadsBack(s, clock, 10);
    NoWritesRun(s.stored, clock);
    TwoOn(k, first, second);
    assert [first, second][..1] == [first];
  }

  lemma NoWritesRun(m: Store, clock: nat -> Millis)
    ensures Run(m, Replayed([], clock, 0)) == m
  {
  }

  lemma TwoOn(k: ByteString, a: WriteCommand, b: WriteCommand)
    requires a.key == b.key == k
    ensures On(k, [a, b]) == [a, b]
  {
    assert [a, b] == [a] + [b];
    OnNext(k, [a], b);
    OnSingle(k, a);
  }

  // ---- Appends out of order ----

  /** The state after steps the code can take, in whatever order it appends. */
  ghost function AfterUnordered(acts: seq<Action>, t: Millis): Option<State> {
    if acts == [] then Some(START)
    else
      match AfterUnordered(acts[..|acts| - 1], t)
      case None => None
      case Some(s) =>
        var a := acts[|acts| - 1];
        if Possible(s, a, t) then Some(Do(s, a, t)) else None
  }

  lemma {:induction false} OrderedIsUnordered(acts: seq<Action>, t: Millis)
    requires After(acts, t).Some?
    ensures AfterUnordered(acts, t) == After(acts, t)
  {
    if acts != [] {
      hide Do, Possible;
      OrderedIsUnordered(acts[..|acts| - 1], t);
    }
  }

  lemma TakeAnyStep(acts: seq<Action>, a: Action, t: Millis)
    requires AfterUnordered(acts, t).Some? && Possible(AfterUnordered(acts, t).value, a, t)
    ensures AfterUnordered(acts + [a], t) == Some(Do(AfterUnordered(acts, t).value, a, t))
  {
    assert (acts + [a])[..|acts|] == acts;
  }

  /** Append the write at place `x` of the flight, whoever was applied first. */
  lemma AppendAny(acts: seq<Action>, x: nat, t: Millis) returns (acts': seq<Action>)
    requires AfterUnordered(acts, t).Some?
    requires AfterUnordered(acts, t).value.append.NoAppend? && x < |AfterUnordered(acts, t).value.flight|
    ensures var s := AfterUnordered(acts, t).value;
            AfterUnordered(acts', t) == Some(s.(flight := Without(s.flight, x), log := s.log + [s.flight[x]],
                                                file := s.file + EncodeWrite(s.flight[x])))
  {
    hide AfterUnordered, EncodeWrite;
    var w := AfterUnordered(acts, t).value.flight[x];
    TakeAnyStep(acts, BeginAppend(x), t);
    var a1 := acts + [BeginAppend(x)];
    var n := |EncodeWrite(w)|;
    TakeAnyStep(a1, WriteBytes(n), t);
    var a2 := a1 + [WriteBytes(n)];
    assert EncodeWrite(w)[0..0 + n] == EncodeWrite(w);
    TakeAnyStep(a2, EndAppend, t);
    acts' := a2 + [EndAppend];
  }

  /** One write, then two more whose appends overtake each other, everything at clock reading `t`. */
  lemma OvertakingRun(first: WriteCommand, a: WriteCommand, b: WriteCommand, t: Millis) returns (acts: seq<Action>)
    requires Storable(first) && Storable(a) && Storable(b)
    ensures AfterUnordered(acts, t).Some?
    ensures var s := AfterUnordered(acts, t).value;
            && s.flight == [] && s.append == NoAppend && s.stored == map[]
            && s.applied == [first, a, b] && s.log == [first, b, a] && s.file == EncodeLog([first, b, a])
            && s.cache == Run(map[], AllAt([first, a, b], t))
  {
    hide After, AfterUnordered, EncodeWrite, ApplyAt, Storable, Run, EncodeLog;
    EmptyRun(t);
    var r1 := WriteThrough([], first, t, t);
    OrderedIsUnordered(r1, t);
    TakeAnyStep(r1, Apply(a, t), t);
    var r2 := r1 + [Apply(a, t)];
    TakeAnyStep(r2, Apply(b, t), t);
    var r3 := r2 + [Apply(b, t)];
    var r4 := AppendAny(r3, 1, t);
    assert Without([a, b], 1) == [a];
    acts := AppendAny(r4, 0, t);
    assert Without([a], 0) == [];
    ThreeWrites(first, a, b, t);
    ThreeEntries(first, b, a);
  }

  lemma ThreeEntries(a: WriteCommand, b: WriteCommand, c: WriteCommand)
    ensures EncodeLog([a, b, c]) == [] + EncodeWrite(a) + EncodeWrite(b) + EncodeWrite(c)
  {
    hide EncodeWrite;
    EncodeNothing();
    EncodeLogNext([], a);
    EncodeLogNext([a], b);
    EncodeLogNext([a, b], c);
    assert [] + [a] == [a] && [a] + [b] == [a, b] && [a, b] + [c] == [a, b, c];
  }

  /** What that run restarts as: the history with the two writes exchanged. */
  lemma OvertakenRestart(first: WriteCommand, a: WriteCommand, b: WriteCommand, t: Millis) returns (acts: seq<Action>)
    requires Storable(first) && Storable(a) && Storable(b)
    ensures AfterUnordered(acts, t).Some?
    ensures var s := AfterUnordered(acts, t).value;
            && s.flight == [] && s.applied == [first, a, b] && s.log == [first, b, a]
            && Unexpired(s.cache, t) == Recover([first, a, b], t)
            && Restarted(s, n => t, t) == Recover([first, b, a], t)
  {
    hide AfterUnordered, EncodeWrite, Storable, Run, EncodeLog, ReadLog;
    acts := OvertakingRun(first, a, b, t);
    WholeLogReplays([first, b, a], n => t);
    assert Replayed([first, b, a], n => t, 0) == AllAt([first, b, a], t);
  }

  predicate Past(deadline: Option<Millis>, from: Millis) {
    deadline.Some? && deadline.value <= from
  }

  /**
   * The pairs of writes that may be logged in either order, as far as clock readings from `from` on can tell.
   * On different keys all of them; on one key those that leave the same behind, and those where deadlines
   * already reached make the key vanish either way.
   */
  predicate Interchangeable(a: WriteCommand, b: WriteCommand, from: Millis) {
    a.key != b.key ||
    match (a, b)
    case (Set(_, v, x), Set(_, u, y)) => (v == u && x == y) || (Past(x, from) && Past(y, from))
    case (Set(_, _, x), ExpireAt(_, d)) => x == Some(d) || (Past(x, from) && d <= from)
    case (ExpireAt(_, d), Set(_, _, x)) => x == Some(d) || (Past(x, from) && d <= from)
    case (Set(_, _, x), Persist(_)) => x == None || Past(x, from)
    case (Persist(_), Set(_, _, x)) => x == None || Past(x, from)
    case (Set(_, _, x), Delete(_)) => Past(x, from)
    case (Delete(_), Set(_, _, x)) => Past(x, from)
    case (ExpireAt(_, d), ExpireAt(_, e)) => d == e || d <= from || e <= from
    case (ExpireAt(_, d), Persist(_)) => d <= from
    case (Persist(_), ExpireAt(_, d)) => d <= from
    case _ => true
  }

  /** Two writes in a row at clock reading `t`, as one key shows afterwards. */
  function Shown(o: Option<Entry>, a: WriteCommand, b: WriteCommand, k: ByteString, t: Millis): Option<Entry> {
    var x := if a.key == k then KeyAt(o, a, t) else o;
    var y := if b.key == k then KeyAt(x, b, t) else x;
    if LiveAt(y, t) then y else None
  }

  lemma PairShows(m: Store, a: WriteCommand, b: WriteCommand, k: ByteString, t: Millis)
    ensures Lookup(Unexpired(Run(m, AllAt([a, b], t)), t), k) == Shown(Lookup(m, k), a, b, k, t)
  {
    var es := AllAt([a, b], t);
    assert es[..1][..0] == [] && es[..1][0] == Wrote(a, t);
    assert Run(m, es[..1]) == Step(m, Wrote(a, t));
    assert Run(m, es) == Step(Run(m, es[..1]), Wrote(b, t));
    StepPointwise(m, Wrote(a, t), k);
    StepPointwise(Run(m, es[..1]), Wrote(b, t), k);
  }

  lemma ExchangedShow(o: Option<Entry>, a: WriteCommand, b: WriteCommand, k: ByteString, from: Millis, t: Millis)
    requires Interchangeable(a, b, from) && from <= t
    ensures Shown(o, a, b, k, t) == Shown(o, b, a, k, t)
  {
  }

  /** The key with an empty value and no deadline, at the first clock reading, tells every other pair apart. */
  lemma OthersDiffer(a: WriteCommand, b: WriteCommand, from: Millis)
    requires !Interchangeable(a, b, from)
    ensures Shown(Some(Entry([], None)), a, b, a.key, from) != Shown(Some(Entry([], None)), b, a, a.key, from)
  {
  }

  predicate SameEitherWay(m: Store, a: WriteCommand, b: WriteCommand, t: Millis) {
    Unexpired(Run(m, AllAt([a, b], t)), t) == Unexpired(Run(m, AllAt([b, a], t)), t)
  }

  /**
   * What the code risks by not ordering appends: two neighbouring entries of the log replay and sweep to the
   * same map in either order, on every map and at every clock reading from `from` on, if and only if they are
   * interchangeable from then on.
   */
  lemma SwapHarmlessIff(a: WriteCommand, b: WriteCommand, from: Millis)
    ensures (forall m: Store, t: Millis :: from <= t ==> SameEitherWay(m, a, b, t)) <==> Interchangeable(a, b, from)
  {
    hide Run, Interchangeable, Shown;
    if Interchangeable(a, b, from) {
      forall m: Store, t: Millis | from <= t
        ensures SameEitherWay(m, a, b, t)
      {
        var x, y := Unexpired(Run(m, AllAt([a, b], t)), t), Unexpired(Run(m, AllAt([b, a], t)), t);
        forall k: ByteString
          ensures Lookup(x, k) == Lookup(y, k)
        {
          PairShows(m, a, b, k, t);
          PairShows(m, b, a, k, t);
          ExchangedShow(Lookup(m, k), a, b, k, from, t);
        }
        SameLookups(x, y);
      }
    } else {
      var m: Store := map[a.key := Entry([], None)];
      PairShows(m, a, b, a.key, from);
      PairShows(m, b, a, a.key, from);
      OthersDiffer(a, b, from);
      assert !SameEitherWay(m, a, b, from);
    }
  }

  /**
   * Without the order hypothesis every other pair does recover wrongly: a run the code can take, with
   * nothing in flight at its end and every clock reading `from`, restarts as something the live cache is not.
   */
  lemma OvertakingDiverges(a: WriteCommand, b: WriteCommand, from: Millis) returns (acts: seq<Action>)
    requires Storable(a) && Storable(b) && !Interchangeable(a, b, from)
    ensures AfterUnordered(acts, from).Some?
    ensures var s := AfterUnordered(acts, from).value;
            s.flight == [] && Restarted(s, n => from, from) != Unexpired(s.cache, from)
  {
    hide AfterUnordered, EncodeWrite, Run, Interchangeable, Shown, Restarted;
    var first := Set(a.key, [], None);
    acts := OvertakenRestart(first, a, b, from);
    AfterFirst(first, a, b, from);
    AfterFirst(first, b, a, from);
    var m: Store := map[a.key := Entry([], None)];
    PairShows(m, a, b, a.key, from);
    PairShows(m, b, a, a.key, from);
    OthersDiffer(a, b, from);
  }

  lemma AfterFirst(first: WriteCommand, a: WriteCommand, b: WriteCommand, t: Millis)
    requires first.Set? && first.value == [] && first.expiresAt == None
    ensures Recover([first, a, b], t) == Unexpired(Run(map[first.key := Entry([], None)], AllAt([a, b], t)), t)
  {
    hide Run;
    assert AllAt([first, a, b], t) == AllAt([first], t) + AllAt([a, b], t);
    RunConcat(map[], AllAt([first], t), AllAt([a, b], t));
    FirstAlone(first, t);
  }

  lemma FirstAlone(first: WriteCommand, t: Millis)
    requires first.Set?
    ensures Run(map[], AllAt([first], t)) == map[first.key := Entry(first.value, first.expiresAt)]
  {
    var es := AllAt([first], t);
    assert es[..0] == [] && es[0] == Wrote(first, t);
  }

  // ---- The live cache, between crashes ----

  /** What a step does to the cache. */
  function EventOf(a: Action): seq<Event> {
    match a
    case Apply(w, now) => [Wrote(w, now)]
    case Look(k, now) => [Looked(k, now)]
    case Sweep(now) => [Swept(now)]
    case _ => []
  }

  /** What the steps do to the cache, in the order they took the cache lock. */
  function EventsOf(acts: seq<Action>): seq<Event> {
    if acts == [] then [] else EventsOf(acts[..|acts| - 1]) + EventOf(acts[|acts| - 1])
  }

  lemma CacheStep(s: State, a: Action, es: seq<Event>, t: Millis)
    requires Possible(s, a, t) && !a.TtlRemove? && !a.CrashAndRestart? && s.cache == Run(map[], es) && UpTo(es, t)
    ensures Do(s, a, t).cache == Run(map[], es + EventOf(a)) && UpTo(es + EventOf(a), t)
  {
    hide EncodeWrite;
    assert es + [] == es;
    if EventOf(a) != [] {
      assert (es + EventOf(a))[..|es|] == es;
    }
  }

  /** As long as no TTL removes anything and nothing crashes, the cache is the plain run of those events. */
  lemma {:induction false} CacheIsTheRun(acts: seq<Action>, t: Millis)
    requires After(acts, t).Some? && forall a :: a in acts ==> !a.TtlRemove? && !a.CrashAndRestart?
    ensures After(acts, t).value.cache == Run(map[], EventsOf(acts)) && UpTo(EventsOf(acts), t)
  {
    if acts != [] {
      hide Possible, Do, Run, EventOf, InOrder;
      var front, a := acts[..|acts| - 1], acts[|acts| - 1];
      assert a in acts && forall b :: b in front ==> b in acts;
      CacheIsTheRun(front, t);
      CacheStep(After(front, t).value, a, EventsOf(front), t);
    } else {
      NothingRun();
    }
  }

  lemma NothingRun()
    ensures Run(map[], []) == map[]
  {
  }

  /** Nothing but the snapshotter's hold on the lock keeps a session or the sweeper from the cache. */
  lemma FreeLockAdmits(s: State, w: WriteCommand, k: ByteString, now: Millis, t: Millis)
    requires s.snapshotter.Idle? && now <= t
    ensures Storable(w) ==> Possible(s, Apply(w, now), t)
    ensures Possible(s, Look(k, now), t) && Possible(s, Sweep(now), t) && Possible(s, LockCache, t)
    ensures k in s.cache && Due(s.cache[k], now) ==> Possible(s, TtlCheck(k, now), t)
    ensures k in s.pending ==> Possible(s, TtlRemove(k), t)
  {
  }

  /** The snapshotter can always let go of the cache lock, and leaves everything as it is. */
  lemma LockIsReleased(acts: seq<Action>, t: Millis)
    requires After(acts, t).Some? && !After(acts, t).value.snapshotter.Idle?
    ensures After(acts + [GiveUp], t) == Some(After(acts, t).value.(snapshotter := Idle))
  {
    TakeStep(acts, GiveUp, t);
  }
}
