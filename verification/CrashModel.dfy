/**
 * Concurrent sessions, the snapshotter, crashes and restarts. Each step is what one thread does under
 * one lock: a write is applied under the cache lock and appended, byte by byte, under the log lock; TTL
 * looks at a deadline under the cache lock, lets go of it, and removes an expired key under it again; the
 * snapshotter holds the cache lock from before it stores until after it clears. A crash may fall after
 * any step, so every reachable state is a state to recover from, and a run may go through any number
 * of crashes and restarts.
 */
module CrashModel {
  import opened Wrappers
  import opened Bytes
  import opened Sequences
  import opened Commands
  import opened CommandCodec
  import opened CacheSpec
  import opened Ideal
  import opened Recovery
  import opened LogCodec

  /** Where the snapshotter is. It holds the cache lock unless idle. */
  datatype Snapshotter = Idle | Locked | Stored

  /** The append under way: which in-flight write, and how many of its bytes have reached the file. */
  datatype Append = NoAppend | Append(index: nat, done: nat)

  /** What an earlier crash left at the end of the file: nothing, or the first bytes of an entry. */
  datatype Tail = Clean | Torn(cmd: WriteCommand, done: nat)

  /**
   * `cache`, `stored` and `file` are the real state; `flight` lists the writes applied but not yet fully
   * appended, oldest first, and `pending` the keys that a TTL has seen expired and has yet to remove. The
   * rest is history. `applied` is every write this process has behind it, in the order it was applied,
   * where a restart counts as re-applying the log on top of what the snapshot saw; `storedAt` is how many
   * of those the snapshot saw, and `log` the entries whole in the file. `issued` is every write ever
   * applied, across restarts; `hurt` the keys that had a write in flight at some crash and have not been set
   * or deleted since; `raced` the keys written while a removal by TTL was pending. `robbed` are the keys from
   * which such a removal took a live entry out of the cache that no SET or DEL has replaced since, and
   * `missing` those it took one from before the snapshot on disk was stored.
   */
  datatype State = State(
    cache: Store,
    stored: Store,
    file: ByteString,
    snapshotter: Snapshotter,
    flight: seq<WriteCommand>,
    append: Append,
    pending: multiset<ByteString>,
    tail: Tail,
    applied: seq<WriteCommand>,
    storedAt: nat,
    log: seq<WriteCommand>,
    issued: seq<WriteCommand>,
    hurt: set<ByteString>,
    raced: set<ByteString>,
    robbed: set<ByteString>,
    missing: set<ByteString>)

  datatype Action =
    | Apply(cmd: WriteCommand, now: Millis)
    | Look(key: ByteString, now: Millis)
    | TtlCheck(key: ByteString, now: Millis)
    | TtlRemove(key: ByteString)
    | Sweep(now: Millis)
    | BeginAppend(index: nat)
    | WriteBytes(count: nat)
    | EndAppend
    | LockCache
    | StoreSnapshot
    | ClearLog
    | GiveUp
    | CrashAndRestart(clock: nat -> Millis, sweepAt: Millis)

  const START: State :=
    State(map[], map[], [], Idle, [], NoAppend, multiset{}, Clean, [], 0, [], [], {}, {}, {}, {})

  /** No older in-flight write names the same key. */
  predicate OldestOfItsKey(flight: seq<WriteCommand>, x: nat) {
    x < |flight| && forall y :: 0 <= y < x ==> flight[y].key != flight[x].key
  }

  /** The entries whole in the file: an append whose last byte is down counts, returned or not. */
  function Durable(s: State): seq<WriteCommand> {
    if s.append.Append? && s.append.index < |s.flight| && s.append.done == |EncodeWrite(s.flight[s.append.index])|
    then s.log + [s.flight[s.append.index]]
    else s.log
  }

  /** The end of the file once the process is gone. */
  function TailLeft(s: State): Tail {
    if s.append.NoAppend? || s.append.index >= |s.flight| then s.tail
    else if 0 < s.append.done < |EncodeWrite(s.flight[s.append.index])| then
      Torn(s.flight[s.append.index], s.append.done)
    else Clean
  }

  function TailBytes(tail: Tail): ByteString {
    if tail.Torn? && tail.done <= |EncodeWrite(tail.cmd)| then EncodeWrite(tail.cmd)[..tail.done] else []
  }

  ghost predicate ClockUpTo(clock: nat -> Millis, t: Millis) {
    forall n :: clock(n) <= t
  }

  /** Start-up after a crash in state `s`: load, replay the bytes, sweep at `t`. */
  function Restarted(s: State, clock: nat -> Millis, t: Millis): Store {
    Unexpired(Run(s.stored, ReadLog(s.file, clock, 0).events), t)
  }

  /**
   * When the code can take a step, with every clock reading up to `t`. TTL reads its clock after letting go
   * of the lock, so `now` in its first half need not be a reading of that moment.
   */
  ghost predicate Possible(s: State, a: Action, t: Millis) {
    match a
    case Apply(w, now) => s.snapshotter.Idle? && now <= t && Storable(w)
    case Look(_, now) => s.snapshotter.Idle? && now <= t
    case TtlCheck(k, now) => s.snapshotter.Idle? && now <= t && k in s.cache && Due(s.cache[k], now)
    case TtlRemove(k) => s.snapshotter.Idle? && k in s.pending
    case Sweep(now) => s.snapshotter.Idle? && now <= t
    case BeginAppend(x) => s.append.NoAppend? && x < |s.flight|
    case WriteBytes(n) =>
      && s.append.Append? && s.append.index < |s.flight|
      && s.append.done + n <= |EncodeWrite(s.flight[s.append.index])|
    case EndAppend =>
      && s.append.Append? && s.append.index < |s.flight|
      && s.append.done == |EncodeWrite(s.flight[s.append.index])|
    case LockCache => s.snapshotter.Idle?
    case StoreSnapshot => s.snapshotter.Locked?
    case ClearLog => s.snapshotter.Stored? && s.append.NoAppend?
    case GiveUp => !s.snapshotter.Idle?
    case CrashAndRestart(clock, at) => s.storedAt <= |s.applied| && ClockUpTo(clock, t) && at <= t
  }

  /**
   * The two hypotheses on appends that the code does not enforce: writes to the same key are appended in
   * the order they were applied, and nothing is appended behind an entry an earlier crash left torn.
   */
  predicate InOrder(s: State, a: Action) {
    a.BeginAppend? ==> OldestOfItsKey(s.flight, a.index) && s.tail.Clean?
  }

  ghost predicate Enabled(s: State, a: Action, t: Millis) {
    Possible(s, a, t) && InOrder(s, a)
  }

  function Without(flight: seq<WriteCommand>, x: nat): seq<WriteCommand>
    requires x < |flight|
  {
    flight[..x] + flight[x + 1..]
  }

  /** Which keys a start-up may still lack: those the snapshot lacked, unless the log sets or deletes them. */
  predicate Lacks(s: State, k: ByteString) {
    k in s.missing && !HasReset(On(k, Durable(s)))
  }

  ghost function Do(s: State, a: Action, t: Millis): State
    requires Possible(s, a, t)
  {
    match a
    case Apply(w, now) =>
      s.(cache := ApplyAt(s.cache, w, now), applied := s.applied + [w], flight := s.flight + [w],
         issued := s.issued + [w], raced := if w.key in s.pending then s.raced + {w.key} else s.raced,
         robbed := if IsReset(w) then s.robbed - {w.key} else s.robbed,
         hurt := if IsReset(w) then s.hurt - {w.key} else s.hurt)
    case Look(k, now) => s.(cache := Touch(s.cache, k, now))
    case TtlCheck(k, _) => s.(pending := s.pending + multiset{k})
    case TtlRemove(k) =>
      s.(cache := s.cache - {k}, pending := s.pending - multiset{k},
         robbed := if LiveAt(Lookup(s.cache, k), t) then s.robbed + {k} else s.robbed)
    case Sweep(now) => s.(cache := Unexpired(s.cache, now))
    case BeginAppend(x) => s.(append := Append(x, 0))
    case WriteBytes(n) =>
      var Append(x, d) := s.append;
      s.(file := s.file + EncodeWrite(s.flight[x])[d..d + n], append := Append(x, d + n))
    case EndAppend =>
      var x := s.append.index;
      s.(append := NoAppend, flight := Without(s.flight, x), log := s.log + [s.flight[x]])
    case LockCache => s.(snapshotter := Locked)
    case StoreSnapshot => s.(snapshotter := Stored, stored := s.cache, storedAt := |s.applied|, missing := s.robbed)
    case ClearLog => s.(snapshotter := Idle, file := [], log := [], tail := Clean)
    case GiveUp => s.(snapshotter := Idle)
    case CrashAndRestart(clock, at) =>
      s.(cache := Restarted(s, clock, at), snapshotter := Idle, flight := [], append := NoAppend,
         pending := multiset{}, tail := TailLeft(s),
         applied := s.applied[..s.storedAt] + Durable(s), log := Durable(s),
         hurt := s.hurt + set w | w in s.flight :: w.key,
         robbed := set k | k in s.missing && Lacks(s, k))
  }

  /** The state a sequence of steps leads to, if each was enabled when it was taken. */
  ghost function After(acts: seq<Action>, t: Millis): Option<State> {
    if acts == [] then Some(START)
    else
      match After(acts[..|acts| - 1], t)
      case None => None
      case Some(s) =>
        var a := acts[|acts| - 1];
        if Enabled(s, a, t) then Some(Do(s, a, t)) else None
  }

  // ---- The invariant ----

  /** How many writes to `k` the log and the flight no longer account for. */
  function Forgotten(s: State, k: ByteString): int {
    |On(k, s.applied)| - |On(k, s.log)| - |On(k, s.flight)|
  }

  /** The history this process has behind it says the same about a key as everything ever issued. */
  predicate SameMeaning(applied: seq<WriteCommand>, issued: seq<WriteCommand>, t: Millis) {
    && KeyFold(None, applied) == KeyFold(None, issued)
    && (Steady(None, issued, t) && LiveAt(KeyFold(None, issued), t) ==> Steady(None, applied, t))
  }

  /** No write carries a deadline that falls due by `t`. */
  predicate NothingFallsDue(ws: seq<WriteCommand>, t: Millis) {
    forall i :: 0 <= i < |ws| ==> NotDueBy(ws[i], t)
  }

  predicate NotDueBy(w: WriteCommand, t: Millis) {
    && (w.Set? && w.expiresAt.Some? ==> w.expiresAt.value > t)
    && (w.ExpireAt? ==> w.deadline > t)
  }

  /** Faithful to the writes; of a key robbed since it was last set, only what it holds if it holds anything. */
  predicate Tracks(o: Option<Entry>, ws: seq<WriteCommand>, robbed: bool, t: Millis) {
    if robbed then Within(o, KeyFold(None, ws)) else Faithful(o, ws, t)
  }

  /** A key none of whose deadlines falls due is never up for removal, now or in an earlier life. */
  predicate Undisturbed(s: State, k: ByteString, t: Millis) {
    NothingFallsDue(On(k, s.issued), t) ==>
      NothingFallsDue(On(k, s.applied), t) && k !in s.pending && k !in s.robbed && k !in s.missing
  }

  /** One key: cache and snapshot are faithful, and the log plus the flight is the history from the snapshot on. */
  predicate KeyInv(s: State, k: ByteString, t: Millis)
    requires s.storedAt <= |s.applied|
  {
    && (k !in s.hurt ==> SameMeaning(On(k, s.applied), On(k, s.issued), t))
    && Undisturbed(s, k, t)
    && Tracks(Lookup(s.cache, k), On(k, s.applied), k in s.robbed, t)
    && Tracks(Lookup(s.stored, k), On(k, s.applied[..s.storedAt]), k in s.missing, t)
    && 0 <= Forgotten(s, k) <= |On(k, s.applied[..s.storedAt])|
    && On(k, s.applied)[Forgotten(s, k)..] == On(k, s.log) + On(k, s.flight)
  }

  /** The file holds the whole entries, then the part of the next one written so far, or a torn one. */
  predicate FileInv(s: State) {
    match s.append
    case NoAppend =>
      && s.file == EncodeLog(s.log) + TailBytes(s.tail)
      && (s.tail.Torn? ==> Storable(s.tail.cmd) && 0 < s.tail.done < |EncodeWrite(s.tail.cmd)|)
    case Append(x, d) =>
      && OldestOfItsKey(s.flight, x) && d <= |EncodeWrite(s.flight[x])| && s.tail.Clean?
      && s.file == EncodeLog(s.log) + EncodeWrite(s.flight[x])[..d]
  }

  /** A removal still to come finds its key gone or due, unless the key was written in between. */
  predicate RaceInv(s: State, t: Millis) {
    && s.robbed <= s.raced && s.missing <= s.raced
    && forall k :: k in s.pending && k !in s.raced ==> !LiveAt(Lookup(s.cache, k), t)
  }

  ghost predicate Inv(s: State, t: Millis) {
    && s.storedAt <= |s.applied| && (s.snapshotter.Stored? ==> s.storedAt == |s.applied|)
    && AllStorable(s.log) && AllStorable(s.flight)
    && FileInv(s) && RaceInv(s, t)
    && forall k: ByteString :: KeyInv(s, k, t)
  }

  // ---- Preservation ----

  /** Taking the oldest write of a key out of the flight moves it in front of the others of that key. */
  lemma TakeOldest(flight: seq<WriteCommand>, x: nat, k: ByteString)
    requires OldestOfItsKey(flight, x)
    ensures On(k, flight) == if flight[x].key == k then
              [flight[x]] + On(k, Without(flight, x)) else On(k, Without(flight, x))
  {
    hide On;
    var w, a, b := flight[x], flight[..x], flight[x + 1..];
    assert flight == a + ([w] + b);
    OnConcat(k, a, [w] + b);
    OnConcat(k, [w], b);
    OnConcat(k, a, b);
    OnSingle(k, w);
    if w.key == k {
      OnNone(k, a);
    } else {
      assert [] + On(k, b) == On(k, b);
    }
  }

  lemma OnSingle(k: ByteString, w: WriteCommand)
    ensures On(k, [w]) == if w.key == k then [w] else []
  {
    assert [w][..0] == [];
  }

  lemma {:induction false} OnNone(k: ByteString, ws: seq<WriteCommand>)
    requires forall y :: 0 <= y < |ws| ==> ws[y].key != k
    ensures On(k, ws) == []
  {
    if ws != [] {
      OnNone(k, ws[..|ws| - 1]);
    }
  }

  /** One more write on a key, or one more event that only drops what is due, keeps a state on track. */
  lemma TracksStep(m: Store, e: Event, k: ByteString, ws: seq<WriteCommand>, robbed: bool, t: Millis)
    requires Tracks(Lookup(m, k), ws, robbed, t) && e.now <= t
    ensures Tracks(Lookup(Step(m, e), k), if e.Wrote? && e.cmd.key == k then ws + [e.cmd] else ws, robbed, t)
  {
    StepPointwise(m, e, k);
    if e.Wrote? && e.cmd.key == k {
      KeyFoldNext(None, ws, e.cmd);
      SteadyNext(None, ws, e.cmd, t);
    }
  }

  /** A SET or DEL puts a robbed key right. */
  lemma ResetRestores(m: Store, w: WriteCommand, now: Millis, ws: seq<WriteCommand>, t: Millis)
    ensures IsReset(w) ==> Tracks(Lookup(ApplyAt(m, w, now), w.key), ws + [w], false, t)
  {
    KeyFoldNext(None, ws, w);
  }

  lemma NothingDueNext(ws: seq<WriteCommand>, w: WriteCommand, t: Millis)
    ensures NothingFallsDue(ws + [w], t) <==> NothingFallsDue(ws, t) && NotDueBy(w, t)
  {
    var all := ws + [w];
    assert forall i :: 0 <= i < |ws| ==> all[i] == ws[i];
    assert all[|ws|] == w;
  }

  lemma {:induction false} NothingDueIsSteady(ws: seq<WriteCommand>, t: Millis)
    requires NothingFallsDue(ws, t)
    ensures Steady(None, ws, t) && (KeyFold(None, ws).Some? ==> LiveAt(KeyFold(None, ws), t))
  {
    if ws != [] {
      assert NotDueBy(ws[|ws| - 1], t);
      NothingDueIsSteady(ws[..|ws| - 1], t);
    }
  }

  lemma ApplyUndisturbed(s: State, w: WriteCommand, now: Millis, k: ByteString, t: Millis)
    requires Possible(s, Apply(w, now), t) && Undisturbed(s, k, t)
    ensures Undisturbed(Do(s, Apply(w, now), t), k, t)
  {
    hide On, ApplyAt, NothingFallsDue, NotDueBy;
    OnNext(k, s.applied, w);
    OnNext(k, s.issued, w);
    NothingDueNext(On(k, s.applied), w, t);
    NothingDueNext(On(k, s.issued), w, t);
  }

  /** What an applied write does to the key's state in the cache, and to the meaning of its history. */
  lemma ApplyTracks(s: State, w: WriteCommand, now: Millis, k: ByteString, t: Millis)
    requires Inv(s, t) && Possible(s, Apply(w, now), t)
    ensures var s' := Do(s, Apply(w, now), t);
            && Tracks(Lookup(s'.cache, k), On(k, s'.applied), k in s'.robbed, t)
            && (k !in s'.hurt ==> SameMeaning(On(k, s'.applied), On(k, s'.issued), t))
  {
    hide SameMeaning, On, Tracks, Lookup, ApplyAt, Undisturbed, FileInv, RaceInv, Forgotten;
    assert KeyInv(s, k, t);
    assert Step(s.cache, Wrote(w, now)) == ApplyAt(s.cache, w, now);
    TracksStep(s.cache, Wrote(w, now), k, On(k, s.applied), k in s.robbed, t);
    OnNext(k, s.applied, w);
    OnNext(k, s.issued, w);
    if w.key == k && IsReset(w) {
      ResetRestores(s.cache, w, now, On(k, s.applied), t);
      SameMeaningReset(On(k, s.applied), On(k, s.issued), w, t);
    } else if w.key == k && k !in s.hurt {
      SameMeaningNext(On(k, s.applied), On(k, s.issued), w, t);
    }
  }

  lemma ApplyKeeps(s: State, w: WriteCommand, now: Millis, k: ByteString, t: Millis)
    requires Inv(s, t) && Enabled(s, Apply(w, now), t)
    ensures KeyInv(Do(s, Apply(w, now), t), k, t)
  {
    hide SameMeaning, On, Tracks, Lookup, ApplyAt, Undisturbed, FileInv, RaceInv, IsReset;
    var s' := Do(s, Apply(w, now), t);
    assert KeyInv(s, k, t);
    ApplyUndisturbed(s, w, now, k, t);
    ApplyTracks(s, w, now, k, t);
    OnNext(k, s.applied, w);
    OnNext(k, s.flight, w);
    assert s'.applied[..s.storedAt] == s.applied[..s.storedAt];
    if w.key == k {
      var f := Forgotten(s, k);
      assert On(k, s'.applied)[f..] == On(k, s.applied)[f..] + [w];
      Associative(On(k, s.log), On(k, s.flight), [w]);
    }
  }

  /** A key none of whose deadlines falls due never looks expired. */
  lemma TtlCheckKeeps(s: State, key: ByteString, now: Millis, k: ByteString, t: Millis)
    requires Inv(s, t) && Enabled(s, TtlCheck(key, now), t)
    ensures KeyInv(Do(s, TtlCheck(key, now), t), k, t)
  {
    hide SameMeaning, On, NothingFallsDue;
    assert KeyInv(s, k, t);
    if key == k && NothingFallsDue(On(k, s.issued), t) {
      NothingDueIsSteady(On(k, s.applied), t);
    }
  }

  lemma TtlRemoveKeeps(s: State, key: ByteString, k: ByteString, t: Millis)
    requires Inv(s, t) && Enabled(s, TtlRemove(key), t)
    ensures KeyInv(Do(s, TtlRemove(key), t), k, t)
  {
    hide SameMeaning, On, NothingFallsDue, Steady, KeyFold, LiveAt;
    assert KeyInv(s, k, t);
    var s' := Do(s, TtlRemove(key), t);
    if key == k {
      assert Lookup(s'.cache, k).None?;
    } else {
      assert Lookup(s'.cache, k) == Lookup(s.cache, k);
    }
  }

  lemma EndAppendKeeps(s: State, k: ByteString, t: Millis)
    requires Inv(s, t) && Enabled(s, EndAppend, t)
    ensures KeyInv(Do(s, EndAppend, t), k, t)
  {
    hide SameMeaning, On, Tracks, Lookup, EncodeWrite, EncodeLog, NothingFallsDue;
    assert KeyInv(s, k, t);
    var x := s.append.index;
    var w := s.flight[x];
    TakeOldest(s.flight, x, k);
    OnNext(k, s.log, w);
    if w.key == k {
      Associative(On(k, s.log), [w], On(k, Without(s.flight, x)));
    }
  }

  lemma StoreKeeps(s: State, k: ByteString, t: Millis)
    requires Inv(s, t) && Enabled(s, StoreSnapshot, t)
    ensures KeyInv(Do(s, StoreSnapshot, t), k, t)
  {
    hide SameMeaning, On, Tracks, Lookup, NothingFallsDue;
    assert KeyInv(s, k, t);
    assert s.applied[..|s.applied|] == s.applied;
  }

  lemma ClearKeeps(s: State, k: ByteString, t: Millis)
    requires Inv(s, t) && Enabled(s, ClearLog, t)
    ensures KeyInv(Do(s, ClearLog, t), k, t)
  {
    hide On, SameMeaning, Tracks, Lookup, FileInv, NothingFallsDue;
    assert KeyInv(s, k, t);
    assert s.applied[..s.storedAt] == s.applied;
    var whole, logged, flight := On(k, s.applied), On(k, s.log), On(k, s.flight);
    var f := Forgotten(s, k);
    OnNothing(k);
    assert whole[f + |logged|..] == whole[f..][|logged|..] == flight;
    assert [] + flight == flight;
  }

  // ---- Restart ----

  /** At any instant the file reads back, without error, as exactly the entries whole in it. */
  lemma FileReadsBack(s: State, clock: nat -> Millis, t: Millis)
    requires Inv(s, t)
    ensures ReadLog(s.file, clock, 0) == LogRead(Replayed(Durable(s), clock, 0), TornOrEmpty)
    ensures Log(Replayed(Durable(s), clock, 0)) == Durable(s)
  {
    hide EncodeWrite, EncodeLog, ReadLog, Storable, KeyInv, RaceInv, Log, OldestOfItsKey;
    LogOfWrites(Replayed(Durable(s), clock, 0), Durable(s));
    match s.append
    case NoAppend =>
      if s.tail.Torn? {
        CrashMidAppend(s.log, s.tail.cmd, s.tail.done, clock);
      } else {
        assert EncodeLog(s.log) + [] == EncodeLog(s.log);
        WholeLogReplays(s.log, clock);
      }
    case Append(x, d) =>
      OldestIsThere(s.flight, x);
      CrashMidAppend(s.log, s.flight[x], d, clock);
  }

  lemma OldestIsThere(flight: seq<WriteCommand>, x: nat)
    requires OldestOfItsKey(flight, x)
    ensures x < |flight|
  {
  }

  lemma DurableOn(s: State, k: ByteString, t: Millis)
    requires Inv(s, t)
    ensures On(k, Durable(s)) == On(k, s.log)
            || (On(k, s.flight) != [] && On(k, Durable(s)) == On(k, s.log) + [On(k, s.flight)[0]])
  {
    hide On, KeyInv, EncodeWrite, EncodeLog;
    if Durable(s) != s.log {
      var x := s.append.index;
      OnNext(k, s.log, s.flight[x]);
      TakeOldest(s.flight, x, k);
    }
  }

  /** Steadiness of a history, from that of its two halves. */
  lemma {:induction false} SteadyConcat(a: seq<WriteCommand>, b: seq<WriteCommand>, t: Millis)
    requires Steady(KeyFold(None, a), b, t) && (HasReset(b) || Steady(None, a, t))
    ensures Steady(None, a + b, t)
  {
    if b == [] {
      assert a + b == a;
    } else {
      hide KeyFold, Steady, HasReset;
      var o, front, last := KeyFold(None, a), b[..|b| - 1], b[|b| - 1];
      SplitLast(a, b);
      SteadyNext(o, front, last, t);
      SteadyNext(None, a + front, last, t);
      KeyFoldConcat(None, a, front);
      if !IsReset(last) && KeyFold(o, front).Some? {
        SteadyConcat(a, front, t);
      }
    }
  }

  /** Re-applying a stretch of a history on top of itself keeps its meaning, steadiness included. */
  lemma RebasedMeansTheSame(ws: seq<WriteCommand>, i: nat, j: nat, t: Millis)
    requires i <= j <= |ws|
    ensures SameMeaning(ws[..j] + ws[i..], ws, t)
  {
    hide Steady, KeyFold, HasReset;
    var base := KeyFold(None, ws[..j]);
    AbsorbsAt(None, ws, i, j);
    KeyFoldConcat(None, ws[..j], ws[i..]);
    if Steady(None, ws, t) && LiveAt(KeyFold(None, ws), t) {
      if !HasReset(ws[i..]) {
        NoResetLater(ws, i, j);
        SteadyBefore(ws, j, t);
      }
      SteadyOverlay(ws, i, base, t);
      SteadyConcat(ws[..j], ws[i..], t);
    }
  }

  lemma NoResetLater(ws: seq<WriteCommand>, i: nat, j: nat)
    requires i <= j <= |ws| && !HasReset(ws[i..])
    ensures !HasReset(ws[j..])
  {
    assert forall q :: 0 <= q < |ws[j..]| ==> ws[j..][q] == ws[i..][q + (j - i)];
  }

  lemma SameMeaningTrans(a: seq<WriteCommand>, b: seq<WriteCommand>, c: seq<WriteCommand>, t: Millis)
    requires SameMeaning(a, b, t) && SameMeaning(b, c, t)
    ensures SameMeaning(a, c, t)
  {
  }

  lemma SameMeaningReset(a: seq<WriteCommand>, b: seq<WriteCommand>, w: WriteCommand, t: Millis)
    requires IsReset(w)
    ensures SameMeaning(a + [w], b + [w], t)
  {
    SteadyNext(None, a, w, t);
    KeyFoldNext(None, a, w);
    KeyFoldNext(None, b, w);
  }

  lemma SameMeaningNext(a: seq<WriteCommand>, b: seq<WriteCommand>, w: WriteCommand, t: Millis)
    requires SameMeaning(a, b, t)
    ensures SameMeaning(a + [w], b + [w], t)
  {
    hide Steady, KeyFold;
    SteadyNext(None, a, w, t);
    SteadyNext(None, b, w, t);
    KeyFoldNext(None, a, w);
    KeyFoldNext(None, b, w);
  }

  lemma {:induction false} NotInFlight(flight: seq<WriteCommand>, k: ByteString)
    requires forall w :: w in flight ==> w.key != k
    ensures On(k, flight) == []
  {
    OnNone(k, flight);
  }

  /** Replaying the log on the snapshot: the key tracks what the snapshot saw with the log on top. */
  lemma ReplayTracks(s: State, clock: nat -> Millis, k: ByteString, t: Millis)
    requires Inv(s, t) && ClockUpTo(clock, t)
    ensures Tracks(Lookup(Run(s.stored, ReadLog(s.file, clock, 0).events), k),
                   On(k, s.applied[..s.storedAt]) + On(k, Durable(s)), Lacks(s, k), t)
  {
    hide On, Faithful, Lookup, ReadLog, EncodeWrite, EncodeLog, Run, Log, Durable, FileInv, SameMeaning, RaceInv,
      Within, NothingFallsDue, HasReset;
    assert KeyInv(s, k, t);
    FileReadsBack(s, clock, t);
    var rs := Replayed(Durable(s), clock, 0);
    var seen, tail := On(k, s.applied[..s.storedAt]), On(k, Durable(s));
    var j, ws := |seen|, seen + tail;
    assert ws[j..] == tail && ws[..j] == seen;
    if HasReset(tail) {
      ReplayWithReset(s.stored, rs, k, ws, j, t);
    } else if k in s.missing {
      RunWithin(s.stored, rs, k, KeyFold(None, seen));
      KeyFoldConcat(None, seen, tail);
    } else {
      ReplayFaithful(s.stored, rs, k, ws, j, j, t);
    }
  }

  lemma RestartKeeps(s: State, clock: nat -> Millis, at: Millis, k: ByteString, t: Millis)
    requires Inv(s, t) && Enabled(s, CrashAndRestart(clock, at), t)
    ensures var s' := Do(s, CrashAndRestart(clock, at), t);
            s'.storedAt <= |s'.applied| && KeyInv(s', k, t)
  {
    hide On, Tracks, Lookup, ReadLog, EncodeWrite, EncodeLog, Run, Log, Durable, FileInv, SameMeaning, TailLeft,
      RaceInv,
      Unexpired, NothingFallsDue;
    var s' := Do(s, CrashAndRestart(clock, at), t);
    assert KeyInv(s, k, t);
    ReplayTracks(s, clock, k, t);
    var seen, tail := s.applied[..s.storedAt], Durable(s);
    OnConcat(k, seen, tail);
    TracksStep(Run(s.stored, ReadLog(s.file, clock, 0).events), Swept(at), k, On(k, s'.applied), Lacks(s, k), t);
    assert s'.applied[..s.storedAt] == seen;
    assert On(k, s'.applied)[|On(k, seen)|..] == On(k, tail);
    OnNothing(k);
    assert On(k, tail) + [] == On(k, tail);
    if NothingFallsDue(On(k, s.issued), t) {
      RestartStaysUndisturbed(s, k, t);
    }
    if k !in s'.hurt {
      RestartMeansTheSame(s, k, t);
    }
  }

  lemma NothingDueParts(ws: seq<WriteCommand>, i: nat, j: nat, t: Millis)
    requires i <= j <= |ws| && NothingFallsDue(ws, t)
    ensures NothingFallsDue(ws[i..j], t)
  {
    assert forall q :: 0 <= q < j - i ==> ws[i..j][q] == ws[i + q];
  }

  lemma NothingDueConcat(a: seq<WriteCommand>, b: seq<WriteCommand>, t: Millis)
    requires NothingFallsDue(a, t) && NothingFallsDue(b, t)
    ensures NothingFallsDue(a + b, t)
  {
    assert forall q :: 0 <= q < |a| ==> (a + b)[q] == a[q];
    assert forall q :: |a| <= q < |a + b| ==> (a + b)[q] == b[q - |a|];
  }

  /** The durable writes of a key are a stretch of the history behind it. */
  lemma DurableStretch(s: State, k: ByteString, t: Millis)
    requires Inv(s, t)
    ensures var f, n := Forgotten(s, k), Forgotten(s, k) + |On(k, Durable(s))|;
            0 <= f <= n <= |On(k, s.applied)| && On(k, Durable(s)) == On(k, s.applied)[f..n]
    ensures |On(k, s.applied)| - |On(k, s.flight)| <= Forgotten(s, k) + |On(k, Durable(s))|
            <= |On(k, s.applied)| - |On(k, s.flight)| + 1
  {
    hide On, Tracks, Durable, FileInv, SameMeaning, RaceInv, NothingFallsDue, Undisturbed;
    assert KeyInv(s, k, t);
    DurableOn(s, k, t);
    var whole, f, logged, flight := On(k, s.applied), Forgotten(s, k), On(k, s.log), On(k, s.flight);
    var n := f + |On(k, Durable(s))|;
    OnSplit(k, s.applied, s.storedAt);
    assert whole[f..n] == whole[f..][..n - f];
    if flight != [] {
      assert logged + flight == (logged + [flight[0]]) + flight[1..];
    }
  }

  lemma RestartStaysUndisturbed(s: State, k: ByteString, t: Millis)
    requires Inv(s, t) && NothingFallsDue(On(k, s.issued), t)
    ensures NothingFallsDue(On(k, s.applied[..s.storedAt] + Durable(s)), t) && k !in s.robbed && k !in s.missing
  {
    hide On, Tracks, Durable, FileInv, SameMeaning, RaceInv, NothingFallsDue;
    assert KeyInv(s, k, t);
    DurableStretch(s, k, t);
    OnConcat(k, s.applied[..s.storedAt], Durable(s));
    OnSplit(k, s.applied, s.storedAt);
    var whole, j, f := On(k, s.applied), |On(k, s.applied[..s.storedAt])|, Forgotten(s, k);
    NothingDueParts(whole, 0, j, t);
    assert whole[0..j] == whole[..j];
    NothingDueParts(whole, f, f + |On(k, Durable(s))|, t);
    NothingDueConcat(On(k, s.applied[..s.storedAt]), On(k, Durable(s)), t);
  }

  lemma OnNothing(k: ByteString)
    ensures On(k, []) == []
  {
  }

  lemma RestartMeansTheSame(s: State, k: ByteString, t: Millis)
    requires Inv(s, t) && k !in s.hurt && forall w :: w in s.flight ==> w.key != k
    ensures SameMeaning(On(k, s.applied[..s.storedAt] + Durable(s)), On(k, s.issued), t)
  {
    hide On, Tracks, Lookup, Durable, FileInv, SameMeaning, EncodeLog, EncodeWrite, RaceInv, NothingFallsDue;
    assert KeyInv(s, k, t);
    NotInFlight(s.flight, k);
    DurableOn(s, k, t);
    OnSplit(k, s.applied, s.storedAt);
    OnConcat(k, s.applied[..s.storedAt], Durable(s));
    var ws, i, j := On(k, s.applied), Forgotten(s, k), |On(k, s.applied[..s.storedAt])|;
    assert ws[i..] == On(k, s.log) + [] == On(k, s.log);
    RebasedMeansTheSame(ws, i, j, t);
    SameMeaningTrans(ws[..j] + ws[i..], ws, On(k, s.issued), t);
  }

  lemma KeyStep(s: State, a: Action, k: ByteString, t: Millis)
    requires Inv(s, t) && Enabled(s, a, t)
    ensures Do(s, a, t).storedAt <= |Do(s, a, t).applied| && KeyInv(Do(s, a, t), k, t)
  {
    hide On, Tracks, Lookup, EncodeWrite, EncodeLog, ApplyAt, Touch, Unexpired, SameMeaning, Restarted,
      NothingFallsDue, RaceInv, TailLeft;
    assert KeyInv(s, k, t);
    match a
    case Apply(w, now) => ApplyKeeps(s, w, now, k, t);
    case Look(key, now) => TracksStep(s.cache, Looked(key, now), k, On(k, s.applied), k in s.robbed, t);
    case TtlCheck(key, now) => TtlCheckKeeps(s, key, now, k, t);
    case TtlRemove(key) => TtlRemoveKeeps(s, key, k, t);
    case Sweep(now) => TracksStep(s.cache, Swept(now), k, On(k, s.applied), k in s.robbed, t);
    case BeginAppend(_) =>
    case WriteBytes(_) =>
    case EndAppend => EndAppendKeeps(s, k, t);
    case LockCache =>
    case StoreSnapshot => StoreKeeps(s, k, t);
    case ClearLog => ClearKeeps(s, k, t);
    case GiveUp =>
    case CrashAndRestart(clock, at) => RestartKeeps(s, clock, at, k, t);
  }

  /** A write under a pending removal is what makes a race; nothing else brings a removed key back to life. */
  lemma RaceStep(s: State, a: Action, t: Millis)
    requires Inv(s, t) && Enabled(s, a, t)
    ensures RaceInv(Do(s, a, t), t)
  {
    hide KeyInv, FileInv, EncodeWrite, EncodeLog, Storable, OldestOfItsKey, Restarted, Durable, TailLeft, ApplyAt;
    var s' := Do(s, a, t);
    forall k | k in s'.pending && k !in s'.raced
      ensures !LiveAt(Lookup(s'.cache, k), t)
    {
      if k in s.pending {
        assert !LiveAt(Lookup(s.cache, k), t);
        if a.Apply? {
          StepPointwise(s.cache, Wrote(a.cmd, a.now), k);
        }
      }
    }
  }

  lemma FileStep(s: State, a: Action, t: Millis)
    requires Inv(s, t) && Enabled(s, a, t)
    ensures FileInv(Do(s, a, t))
  {
    hide EncodeWrite, KeyInv, RaceInv, EncodeLog, ApplyAt, Restarted, Storable;
    match a
    case WriteBytes(n) =>
      var Append(x, d) := s.append;
      var bytes := EncodeWrite(s.flight[x]);
      assert bytes[..d + n] == bytes[..d] + bytes[d..d + n];
      Associative(EncodeLog(s.log), bytes[..d], bytes[d..d + n]);
    case BeginAppend(x) =>
      assert EncodeWrite(s.flight[x])[..0] == [];
    case EndAppend =>
      var Append(x, d) := s.append;
      assert EncodeWrite(s.flight[x])[..d] == EncodeWrite(s.flight[x]);
      EncodeLogNext(s.log, s.flight[x]);
      assert EncodeLog(s.log + [s.flight[x]]) + [] == EncodeLog(s.log + [s.flight[x]]);
    case ClearLog =>
      EncodeNothing();
    case CrashAndRestart(_, _) =>
      FileLeft(s, t);
    case _ =>
  }

  /** What a crash leaves in the file: the whole entries, and perhaps a torn one. */
  lemma FileLeft(s: State, t: Millis)
    requires Inv(s, t)
    ensures var tail := TailLeft(s);
            && s.file == EncodeLog(Durable(s)) + TailBytes(tail) && AllStorable(Durable(s))
            && (tail.Torn? ==> Storable(tail.cmd) && 0 < tail.done < |EncodeWrite(tail.cmd)|)
  {
    hide EncodeWrite, EncodeLog, KeyInv, RaceInv, Storable;
    if s.append.Append? {
      var Append(x, d) := s.append;
      var bytes := EncodeWrite(s.flight[x]);
      if d == |bytes| {
        assert bytes[..d] == bytes;
        EncodeLogNext(s.log, s.flight[x]);
        assert EncodeLog(Durable(s)) + [] == EncodeLog(Durable(s));
      } else if d == 0 {
        assert bytes[..0] == [];
      }
    }
  }

  lemma EncodeNothing()
    ensures EncodeLog([]) == []
  {
  }

  lemma InvStep(s: State, a: Action, t: Millis)
    requires Inv(s, t) && Enabled(s, a, t)
    ensures Inv(Do(s, a, t), t)
  {
    hide KeyInv, FileInv, RaceInv, EncodeWrite, Storable, OldestOfItsKey, Restarted, Durable, TailLeft, LiveAt;
    FileStep(s, a, t);
    RaceStep(s, a, t);
    if a.CrashAndRestart? {
      FileLeft(s, t);
    }
    forall k: ByteString
      ensures KeyInv(Do(s, a, t), k, t)
    {
      KeyStep(s, a, k, t);
    }
  }

  lemma InvStart(t: Millis)
    ensures Inv(START, t)
  {
    forall k: ByteString
      ensures KeyInv(START, k, t)
    {
      assert On(k, []) == [];
    }
  }

  /** Every state any interleaving can reach satisfies the invariant. */
  lemma {:induction false} ReachableInv(acts: seq<Action>, t: Millis)
    requires After(acts, t).Some?
    ensures Inv(After(acts, t).value, t)
  {
    if acts == [] {
      InvStart(t);
    } else {
      hide Inv, Do, Enabled;
      var front, a := acts[..|acts| - 1], acts[|acts| - 1];
      ReachableInv(front, t);
      InvStep(After(front, t).value, a, t);
    }
  }
}
