/** What a crash can and cannot cost, over every interleaving of sessions and snapshotter. */
module CrashSafety {
  import opened Wrappers
  import opened Bytes
  import opened Commands
  import opened CommandCodec
  import opened CacheSpec
  import opened Ideal
  import opened Recovery
  import opened LogCodec
  import opened CrashModel

  /** The map a start-up holds after load and replay, before its sweep. */
  function ReplayedOn(s: State, clock: nat -> Millis): Store {
    Run(s.stored, ReadLog(s.file, clock, 0).events)
  }

  /** How many writes to `k`, counted from the first this process has behind it, are durable. */
  function DurableCount(s: State, k: ByteString): int {
    Forgotten(s, k) + |On(k, Durable(s))|
  }

  /** The writes to `k` the snapshot saw. */
  function Seen(s: State, k: ByteString): seq<WriteCommand>
    requires s.storedAt <= |s.applied|
  {
    On(k, s.applied[..s.storedAt])
  }

  /**
   * The replayed state of one key. Against the durable writes, if the snapshot saw no more than those or the
   * log sets or deletes the key; and against what the snapshot saw with the log on top, always.
   */
  lemma RestartFaithful(s: State, clock: nat -> Millis, t: Millis, k: ByteString)
    requires Inv(s, t) && ClockUpTo(clock, t)
    ensures 0 <= DurableCount(s, k) <= |On(k, s.applied)|
    ensures HasReset(On(k, Durable(s))) || (k !in s.missing && |Seen(s, k)| <= DurableCount(s, k)) ==>
              Faithful(Lookup(ReplayedOn(s, clock), k), On(k, s.applied)[..DurableCount(s, k)], t)
    ensures Tracks(Lookup(ReplayedOn(s, clock), k), Seen(s, k) + On(k, Durable(s)), Lacks(s, k), t)
  {
    hide On, Faithful, Lookup, ReadLog, EncodeWrite, EncodeLog, Run, Log, Durable, FileInv, RaceInv, Undisturbed,
      SameMeaning, HasReset;
    assert KeyInv(s, k, t);
    ReplayTracks(s, clock, k, t);
    FileReadsBack(s, clock, t);
    DurableStretch(s, k, t);
    OnSplit(k, s.applied, s.storedAt);
    var rs := Replayed(Durable(s), clock, 0);
    var whole, f, n := On(k, s.applied), Forgotten(s, k), DurableCount(s, k);
    var ws := whole[..n];
    assert ws[f..] == whole[f..n];
    if HasReset(On(k, Durable(s))) {
      ReplayWithReset(s.stored, rs, k, ws, f, t);
    } else if k !in s.missing && |Seen(s, k)| <= n {
      var j := |Seen(s, k)|;
      assert ws[..j] == whole[..j];
      ReplayFaithful(s.stored, rs, k, ws, f, j, t);
    }
  }

  /** The outcome of the key's whole history as a client could see it at `t`. */
  function Visible(ws: seq<WriteCommand>, t: Millis): Option<Entry> {
    var o := KeyFold(None, ws);
    if LiveAt(o, t) then o else None
  }

  lemma FaithfulIsVisible(m: Store, k: ByteString, ws: seq<WriteCommand>, t: Millis)
    requires Faithful(Lookup(m, k), ws, t) && (LiveAt(KeyFold(None, ws), t) ==> Steady(None, ws, t))
    ensures Lookup(Unexpired(m, t), k) == Visible(ws, t)
  {
  }

  /**
   * Crash safety. Over any interleaving and any number of crashes and restarts, take a state to crash in
   * and a key that has no write in flight and, since it was last set or deleted, had none at a crash. The
   * restarted server never holds anything for the key but the outcome of all writes ever issued to it. If the
   * key's deadline overrides are settled at `t`, it holds exactly that, unless a TTL kept the key out of the
   * snapshot and the log neither sets nor deletes it. The live cache held exactly that too, unless a TTL
   * removed the key while it was live and it has not been set or deleted since. The log always reads back
   * without error.
   */
  lemma CrashSafe(acts: seq<Action>, clock: nat -> Millis, t: Millis, k: ByteString)
    requires After(acts, t).Some? && ClockUpTo(clock, t)
    requires k !in After(acts, t).value.hurt && On(k, After(acts, t).value.flight) == []
    ensures var s := After(acts, t).value;
            && ReadLog(s.file, clock, 0).end == TornOrEmpty
            && Within(Lookup(Restarted(s, clock, t), k), KeyFold(None, On(k, s.issued)))
            && (Settled(s.issued, k, t) && !Lacks(s, k) ==>
                  Lookup(Restarted(s, clock, t), k) == Visible(On(k, s.issued), t))
            && (Settled(s.issued, k, t) && k !in s.robbed ==>
                  Lookup(Unexpired(s.cache, t), k) == Visible(On(k, s.issued), t))
  {
    hide After, On, ReadLog, EncodeWrite, EncodeLog, Run, Log, FileInv, RaceInv, KeyFold, Steady, Durable,
      NothingFallsDue;
    var s := After(acts, t).value;
    ReachableInv(acts, t);
    assert KeyInv(s, k, t);
    FileReadsBack(s, clock, t);
    RestartFaithful(s, clock, t, k);
    WholeHistory(s, k, t);
    if Settled(s.issued, k, t) {
      if !Lacks(s, k) {
        FaithfulIsVisible(ReplayedOn(s, clock), k, On(k, s.applied), t);
      }
      if k !in s.robbed {
        FaithfulIsVisible(s.cache, k, On(k, s.applied), t);
      }
    }
  }

  /** With nothing in flight the durable writes are all there are, and the snapshot under the log means the same. */
  lemma WholeHistory(s: State, k: ByteString, t: Millis)
    requires Inv(s, t) && On(k, s.flight) == []
    ensures DurableCount(s, k) == |On(k, s.applied)| && |Seen(s, k)| <= |On(k, s.applied)|
    ensures On(k, s.applied)[..DurableCount(s, k)] == On(k, s.applied)
    ensures KeyFold(None, Seen(s, k) + On(k, Durable(s))) == KeyFold(None, On(k, s.applied))
  {
    hide On, Durable, FileInv, RaceInv, Undisturbed, SameMeaning, Tracks, KeyFold;
    assert KeyInv(s, k, t);
    DurableStretch(s, k, t);
    OnSplit(k, s.applied, s.storedAt);
    var whole, f, j := On(k, s.applied), Forgotten(s, k), |Seen(s, k)|;
    assert whole[f..|whole|] == whole[f..];
    AbsorbsAt(None, whole, f, j);
    KeyFoldConcat(None, Seen(s, k), On(k, Durable(s)));
  }

  /** With no deadline falling due, the restarted key is the plain fold of every write issued to it. */
  lemma CrashSafeWithoutDeadlines(acts: seq<Action>, clock: nat -> Millis, t: Millis, k: ByteString)
    requires After(acts, t).Some? && ClockUpTo(clock, t)
    requires k !in After(acts, t).value.hurt && On(k, After(acts, t).value.flight) == []
    requires NothingFallsDue(On(k, After(acts, t).value.issued), t)
    ensures var s := After(acts, t).value;
            Lookup(Restarted(s, clock, t), k) == KeyFold(None, On(k, s.issued)) == Lookup(Fold(map[], s.issued), k)
  {
    hide After, On, Restarted, FileInv, RaceInv;
    var s := After(acts, t).value;
    CrashSafe(acts, clock, t, k);
    ReachableInv(acts, t);
    assert KeyInv(s, k, t);
    NothingDueIsSteady(On(k, s.issued), t);
    FoldPointwise(map[], s.issued, k);
  }

  // ---- TTL's removal in two steps ----

  /** Only a key that was written while a TTL was about to remove it can be robbed. */
  lemma OnlyRacedKeysAreRobbed(acts: seq<Action>, t: Millis)
    requires After(acts, t).Some?
    ensures var s := After(acts, t).value;
            s.robbed <= s.raced && s.missing <= s.raced
  {
    hide After, FileInv, KeyInv;
    ReachableInv(acts, t);
  }

  /**
   * When the second half of a TTL does harm: on a settled key not robbed yet, the cache stops showing
   * what the writes amount to if and only if the key is there and live, whatever the first half saw.
   */
  lemma TtlRemoveHarmsIff(acts: seq<Action>, k: ByteString, t: Millis)
    requires After(acts, t).Some? && Enabled(After(acts, t).value, TtlRemove(k), t)
    requires k !in After(acts, t).value.robbed && Settled(After(acts, t).value.applied, k, t)
    ensures var s := After(acts, t).value; var s' := Do(s, TtlRemove(k), t);
            && (Lookup(Unexpired(s'.cache, t), k) == Visible(On(k, s'.applied), t) <==>
              !(k in s.cache && !Due(s.cache[k], t)))
            && (k in s'.robbed <==> k in s.cache && !Due(s.cache[k], t))
  {
    hide After, FileInv, RaceInv, On, Steady, KeyFold;
    var s := After(acts, t).value;
    ReachableInv(acts, t);
    assert KeyInv(s, k, t);
    FaithfulIsVisible(s.cache, k, On(k, s.applied), t);
  }

  // ---- Writes in flight ----

  /**
   * Acknowledged writes of this process survive on a key with writes in flight, if the log sets or deletes
   * the key, or the snapshot on disk saw none of the writes that were not durable yet, or the log holds
   * nothing for the key any more. The restarted key reflects every acknowledged write. Beyond those it
   * reflects the oldest in-flight one at most, or exactly what the snapshot saw.
   */
  lemma AcknowledgedWritesSurvive(acts: seq<Action>, clock: nat -> Millis, t: Millis, k: ByteString) returns (n: nat)
    requires After(acts, t).Some? && ClockUpTo(clock, t)
    requires var s := After(acts, t).value;
             s.storedAt <= |s.applied| &&
             (HasReset(On(k, Durable(s)))
              || (k !in s.missing && (|Seen(s, k)| <= DurableCount(s, k) || On(k, Durable(s)) == [])))
    ensures var s := After(acts, t).value;
            var acknowledged := |On(k, s.applied)| - |On(k, s.flight)|;
            && acknowledged <= n <= |On(k, s.applied)|
            && (n <= acknowledged + 1 || (n == |Seen(s, k)| && On(k, Durable(s)) == []))
            && Faithful(Lookup(ReplayedOn(s, clock), k), On(k, s.applied)[..n], t)
  {
    hide After, On, Faithful, ReplayedOn, Durable, FileInv, RaceInv, KeyInv, HasReset;
    var s := After(acts, t).value;
    ReachableInv(acts, t);
    RestartFaithful(s, clock, t, k);
    DurableStretch(s, k, t);
    if HasReset(On(k, Durable(s))) || |Seen(s, k)| <= DurableCount(s, k) {
      n := DurableCount(s, k);
    } else {
      OnSplit(k, s.applied, s.storedAt);
      n := |Seen(s, k)|;
      assert Seen(s, k) + [] == Seen(s, k);
    }
  }

  /** The deadline an EXPIREAT or PERSIST leaves behind. */
  function Moved(w: WriteCommand): Option<Millis>
    requires !IsReset(w)
  {
    if w.ExpireAt? then Some(w.deadline) else None
  }

  /**
   * The case left over: the snapshot saw a write that was not durable, and the log only moves the key's
   * deadline. The restarted key is the snapshot's with the last of those deadlines put on it.
   */
  lemma SnapshotRetimed(acts: seq<Action>, clock: nat -> Millis, t: Millis, k: ByteString)
    requires After(acts, t).Some? && ClockUpTo(clock, t) && k !in After(acts, t).value.missing
    requires var logged := On(k, Durable(After(acts, t).value)); logged != [] && !HasReset(logged)
    ensures var s := After(acts, t).value; var logged := On(k, Durable(s)); var last := logged[|logged| - 1];
            && s.storedAt <= |s.applied| && !IsReset(last)
            && Faithful(Lookup(ReplayedOn(s, clock), k), Seen(s, k) + logged, t)
            && KeyFold(None, Seen(s, k) + logged) == Retimed(KeyFold(None, Seen(s, k)), Moved(last))
  {
    hide After, On, Faithful, ReplayedOn, Durable, FileInv, RaceInv, KeyInv, KeyFold;
    var s := After(acts, t).value;
    ReachableInv(acts, t);
    RestartFaithful(s, clock, t, k);
    KeyFoldConcat(None, Seen(s, k), On(k, Durable(s)));
    MovesLeaveTheLast(KeyFold(None, Seen(s, k)), On(k, Durable(s)));
  }

  lemma {:induction false} MovesLeaveTheLast(o: Option<Entry>, ws: seq<WriteCommand>)
    requires ws != [] && !HasReset(ws)
    ensures !IsReset(ws[|ws| - 1]) && KeyFold(o, ws) == Retimed(o, Moved(ws[|ws| - 1]))
  {
    var front := ws[..|ws| - 1];
    if front != [] {
      assert forall i :: 0 <= i < |front| ==> front[i] == ws[i];
      MovesLeaveTheLast(o, front);
    }
  }

  /** A stretch of writes does not show on a key that stands at `o`, as seen at `t`. */
  predicate MovesNothing(ws: seq<WriteCommand>, o: Option<Entry>, t: Millis) {
    match Summary(ws)
    case Keep => true
    case Put(e) => e == o || (!LiveAt(e, t) && !LiveAt(o, t))
    case Retime(at) => o.None? || o.value.expiresAt == at || (Due(o.value, t) && at.Some? && at.value <= t)
  }

  lemma VisibleAfter(ws: seq<WriteCommand>, more: seq<WriteCommand>, t: Millis)
    ensures Visible(ws + more, t) == Visible(ws, t) <==> MovesNothing(more, KeyFold(None, ws), t)
  {
    hide KeyFold, Summary;
    KeyFoldConcat(None, ws, more);
    FoldIsSummary(KeyFold(None, ws), more);
  }

  /**
   * When the log on top of a snapshot does not show: a key restarts as the snapshot had it if and only if
   * the durable writes still in the log move nothing on it, provided its deadline overrides are settled
   * both before and after those.
   */
  lemma SnapshotKeptIff(acts: seq<Action>, clock: nat -> Millis, t: Millis, k: ByteString)
    requires After(acts, t).Some? && ClockUpTo(clock, t) && k !in After(acts, t).value.missing
    requires var s := After(acts, t).value;
             && s.storedAt <= |s.applied| && Settled(s.applied[..s.storedAt], k, t)
             && Settled(s.applied[..s.storedAt] + Durable(s), k, t)
    ensures var s := After(acts, t).value;
            Lookup(Restarted(s, clock, t), k) == Lookup(Unexpired(s.stored, t), k) <==>
            MovesNothing(On(k, Durable(s)), KeyFold(None, Seen(s, k)), t)
  {
    hide After, On, ReadLog, Run, Durable, FileInv, RaceInv, KeyFold, MovesNothing, Steady;
    var s := After(acts, t).value;
    ReachableInv(acts, t);
    assert KeyInv(s, k, t);
    RestartFaithful(s, clock, t, k);
    OnConcat(k, s.applied[..s.storedAt], Durable(s));
    FaithfulIsVisible(ReplayedOn(s, clock), k, Seen(s, k) + On(k, Durable(s)), t);
    FaithfulIsVisible(s.stored, k, Seen(s, k), t);
    VisibleAfter(Seen(s, k), On(k, Durable(s)), t);
  }

  /** The same with no deadline falling due, where the snapshot's own entry decides. */
  lemma SnapshotKeptIffWithoutDeadlines(acts: seq<Action>, clock: nat -> Millis, t: Millis, k: ByteString)
    requires After(acts, t).Some? && ClockUpTo(clock, t)
    requires NothingFallsDue(On(k, After(acts, t).value.issued), t)
    ensures var s := After(acts, t).value;
            Lookup(Restarted(s, clock, t), k) == Lookup(s.stored, k) <==>
            MovesNothing(On(k, Durable(s)), Lookup(s.stored, k), t)
  {
    hide After, On, Restarted, Durable, FileInv, RaceInv, KeyFold, MovesNothing, Steady, NothingFallsDue;
    var s := After(acts, t).value;
    ReachableInv(acts, t);
    assert KeyInv(s, k, t);
    RestartStaysUndisturbed(s, k, t);
    OnSplit(k, s.applied, s.storedAt);
    var whole, j := On(k, s.applied), |Seen(s, k)|;
    NothingDueParts(whole, 0, j, t);
    assert whole[0..j] == whole[..j];
    NothingDueIsSteady(Seen(s, k), t);
    NothingDueIsSteady(On(k, s.applied[..s.storedAt] + Durable(s)), t);
    SnapshotKeptIff(acts, clock, t, k);
  }
}
