/** The log file, the snapshot, and the executor that keeps both in step with the cache. */
module Persistence {
  import opened Wrappers
  import opened Bytes
  import opened Sequences
  import opened Writer
  import opened Frames
  import opened Commands
  import opened CommandCodec
  import opened CacheSpec
  import opened CacheObject
  import opened Ideal
  import opened Recovery
  import opened LogCodec

  /** The append-only log. `logged` is what the file holds, write by write. */
  class Aof {
    const out: BufferedFile
    ghost var logged: seq<WriteCommand>

    ghost predicate Valid()
      reads this, out
    {
      out.buffer == [] && out.file == EncodeLog(logged)
    }

    constructor (out: BufferedFile, ghost logged: seq<WriteCommand>)
      requires out.buffer == [] && out.file == EncodeLog(logged)
      ensures Valid() && this.out == out && this.logged == logged
    {
      this.out := out;
      this.logged := logged;
    }

    /** Encode, write, flush. Until it returns, the file shows the old log plus part of the new entry. */
    method Append(w: WriteCommand)
      requires Valid()
      modifies this, out
      ensures Valid() && logged == old(logged) + [w]
      ensures out.file == old(out.file) + EncodeWrite(w)
      ensures Between(old(out.trail), out.trail, old(out.file), old(out.file) + EncodeWrite(w))
    {
      hide Encode, EncodeLog;
      WriteTo(ToFrame(w), out);
      ghost var mid, low := out.trail, out.file;
      assert out.Contents() == old(out.file) + EncodeWrite(w);
      out.Flush();
      BetweenTrans(old(out.trail), mid, out.trail, old(out.file), out.file, low, out.file);
      logged := logged + [w];
      EncodeLogNext(old(logged), w);
    }

    /** Drain the buffer, then truncate through the same handle. */
    method Clear()
      modifies this, out
      ensures Valid() && logged == []
      ensures old(Valid()) ==>
                forall i :: |old(out.trail)| <= i < |out.trail| ==> out.trail[i] == old(out.file) || out.trail[i] == []
    {
      out.Flush();
      out.Truncate();
      logged := [];
    }

    /** Walk the file frame by frame, executing each cache command as it is lifted. */
    method Replay(cache: Cache, clock: nat -> Millis) returns (end: LogEnd)
      modifies cache
      ensures var read := ReadLog(out.file, clock, 0);
              cache.entries == Run(old(cache.entries), read.events) && end == read.end
    {
      hide ParseOne, FromFrame, Run, ReadLog;
      var bytes := out.file;
      var n := 0;
      ghost var done: seq<Event> := [];
      RunNothing(cache.entries);
      while true
        invariant cache.entries == Run(old(cache.entries), done)
        invariant ReadLog(out.file, clock, 0) == Before(done, ReadLog(bytes, clock, n))
        decreases |bytes|
      {
        ReadLogUnfolds(bytes, clock, n);
        assert done + [] == done;
        var one := ParseFrame(bytes);
        if one.Failed? {
          return if one.error == Incomplete then TornOrEmpty else BadFrame(one.error);
        }
        var lifted := FromFrame(one.frame, clock(2 * n));
        if lifted.Err? {
          return BadCommand(lifted.error);
        }
        if lifted.value.Cache? {
          var c, now := lifted.value.cache, clock(2 * n + 1);
          var _ := cache.Execute(c, now, now);
          RunNext(old(cache.entries), done, c, now);
          BeforeTwice(done, AsEvent(c, now), ReadLog(one.rest, clock, n + 1));
          done := done + [AsEvent(c, now)];
        }
        bytes := one.rest;
        n := n + 1;
      }
    }
  }

  function Before(es: seq<Event>, r: LogRead): LogRead {
    LogRead(es + r.events, r.end)
  }

  lemma BeforeTwice(es: seq<Event>, e: Event, r: LogRead)
    ensures Before(es, Before([e], r)) == Before(es + [e], r)
  {
    Associative(es, [e], r.events);
  }

  lemma ReadLogUnfolds(b: ByteString, clock: nat -> Millis, n: nat)
    ensures ReadLog(b, clock, n) ==
            match ParseOne(b)
            case Failed(e) => LogRead([], if e == Incomplete then TornOrEmpty else BadFrame(e))
            case Parsed(f, rest) =>
              match FromFrame(f, clock(2 * n))
              case Err(e) => LogRead([], BadCommand(e))
              case Ok(command) =>
                var more := ReadLog(rest, clock, n + 1);
                if command.Cache? then Before([AsEvent(command.cache, clock(2 * n + 1))], more) else more
  {
    hide ParseOne, FromFrame;
  }

  lemma RunNothing(m: Store)
    ensures Run(m, []) == m
  {
  }

  lemma RunSweep(m: Store, es: seq<Event>, now: Millis)
    ensures Run(m, es + [Swept(now)]) == Unexpired(Run(m, es), now)
  {
    assert (es + [Swept(now)])[..|es|] == es;
  }

  lemma RunNext(m: Store, es: seq<Event>, c: CacheCommand, now: Millis)
    ensures Run(m, es + [AsEvent(c, now)]) == CommandStore(Run(m, es), c, now)
  {
    assert (es + [AsEvent(c, now)])[..|es|] == es;
  }

  /** The log and the snapshot together. The snapshot file is replaced by one atomic rename. */
  class Persister {
    const aof: Aof
    var stored: Store

    /** What was on disk after each step of a snapshot: the snapshot file, and the log. */
    ghost var moments: seq<(Store, ByteString)>

    ghost predicate Valid()
      reads this, aof, aof.out
    {
      aof.Valid()
    }

    constructor (aof: Aof, stored: Store)
      requires aof.Valid()
      ensures Valid() && this.aof == aof && this.stored == stored
    {
      this.aof := aof;
      this.stored, moments := stored, [];
    }

    method Append(w: WriteCommand)
      requires Valid()
      modifies aof, aof.out
      ensures Valid() && aof.logged == old(aof.logged) + [w]
    {
      aof.Append(w);
    }

    /**
     * Store the map, then clear the log, with the cache locked throughout: in between the old log stands
     * beside the new snapshot, and at no moment is the log gone while the old snapshot is still there.
     */
    method Snapshot(cache: Cache)
      requires Valid()
      modifies this, aof, aof.out
      ensures Valid() && stored == cache.entries && aof.logged == []
      ensures moments == old(moments) + [(cache.entries, old(aof.out.file)), (cache.entries, [])]
    {
      stored := cache.entries;
      moments := moments + [(stored, aof.out.file)];
      aof.Clear();
      moments := moments + [(stored, aof.out.file)];
    }
  }

  /** Server start-up: load the snapshot, replay the log on top, sweep. */
  method Restart(persister: Persister, clock: nat -> Millis, sweepAt: Millis) returns (cache: Cache, end: LogEnd)
    ensures fresh(cache)
    ensures var read := ReadLog(persister.aof.out.file, clock, 0);
            end == read.end &&
            (end == TornOrEmpty ==> cache.entries == Unexpired(Run(persister.stored, read.events), sweepAt))
  {
    cache := new Cache(persister.stored);
    end := persister.aof.Replay(cache, clock);
    if end == TornOrEmpty {
      var _ := cache.RemoveExpired(sweepAt);
    }
  }

  /**
   * The executor over a shared cache and persister, run by one session at a time. Its ghost history
   * ties the three together: the cache is what the history did, the snapshot is what a prefix of it
   * did, and the log reaches back at least that far.
   */
  class Executor {
    const cache: Cache
    const repo: Persister
    ghost var history: seq<Event>

    /** The map and the log after each step of a command. */
    ghost var moments: seq<(Store, seq<WriteCommand>)>
    ghost var snapshotAt: nat
    ghost var logFrom: nat

    ghost predicate Valid()
      reads this, cache, repo, repo.aof, repo.aof.out
    {
      && repo.Valid() && AllStorable(repo.aof.logged)
      && cache.entries == Run(map[], history)
      && snapshotAt <= |history| && repo.stored == Run(map[], history[..snapshotAt])
      && logFrom <= |Log(history[..snapshotAt])| && logFrom <= |Log(history)|
      && repo.aof.logged == Log(history)[logFrom..]
    }

    constructor (cache: Cache, repo: Persister)
      requires repo.Valid() && cache.entries == map[] && repo.stored == map[] && repo.aof.logged == []
      ensures Valid() && this.cache == cache && this.repo == repo && history == []
    {
      this.cache, this.repo := cache, repo;
      history, moments, snapshotAt, logFrom := [], [], 0, 0;
    }

    /** Apply to the cache, and only then append to the log if the command is a write. */
    method ExecuteLogged(c: CacheCommand, now: Millis, again: Millis) returns (r: Outcome)
      requires Valid() && (c.Write? ==> Storable(c.write))
      modifies this, cache, repo.aof, repo.aof.out
      ensures Valid() && history == old(history) + [AsEvent(c, now)]
      ensures cache.entries == CommandStore(old(cache.entries), c, now)
      ensures r == CommandReply(old(cache.entries), c, now, again)
      ensures repo.aof.logged == old(repo.aof.logged) + if c.Write? then [c.write] else []
      ensures moments == old(moments) + [(cache.entries, old(repo.aof.logged)), (cache.entries, repo.aof.logged)]
    {
      hide Run, Log, EncodeLog;
      r := cache.Execute(c, now, again);
      moments := moments + [(cache.entries, repo.aof.logged)];
      if c.Write? {
        repo.Append(c.write);
      }
      moments := moments + [(cache.entries, repo.aof.logged)];
      history := history + [AsEvent(c, now)];
      RunNext(map[], old(history), c, now);
      HistoryGrows(old(history), AsEvent(c, now), snapshotAt, logFrom);
    }

    method Sweep(now: Millis) returns (count: nat)
      requires Valid()
      modifies this, cache
      ensures Valid() && history == old(history) + [Swept(now)]
      ensures cache.entries == Unexpired(old(cache.entries), now)
    {
      hide Run, Log, EncodeLog;
      count := cache.RemoveExpired(now);
      history := history + [Swept(now)];
      RunSweep(map[], old(history), now);
      HistoryGrows(old(history), Swept(now), snapshotAt, logFrom);
    }

    method Snapshot()
      requires Valid()
      modifies this, repo, repo.aof, repo.aof.out
      ensures Valid() && history == old(history) && snapshotAt == |history| && repo.aof.logged == []
    {
      hide Run, Log, EncodeLog;
      repo.Snapshot(cache);
      snapshotAt, logFrom := |history|, |Log(history)|;
      assert history[..snapshotAt] == history;
    }

    /**
     * Crash now and restart: the replay reports no error, a recovered key never holds anything but
     * what the history gave it, and a settled key comes back exactly as the live cache held it.
     */
    method CrashAndRestart(clock: nat -> Millis, t: Millis, ghost k: ByteString) returns (recovered: Cache)
      requires Valid()
      ensures fresh(recovered)
      ensures Within(Lookup(recovered.entries, k), KeyFold(None, On(k, Log(history))))
      ensures UpTo(history, t) && (forall n: nat :: clock(n) <= t) && Settled(Log(history), k, t) ==>
                Lookup(recovered.entries, k) == Lookup(Unexpired(cache.entries, t), k)
    {
      hide Run, Log, EncodeLog, ReadLog, KeyFold, Settled, On;
      var end;
      recovered, end := Restart(repo, clock, t);
      ghost var log := repo.aof.logged;
      ghost var rs := Replayed(log, clock, 0);
      WholeLogReplays(log, clock);
      LogOfWrites(rs, log);
      RecoveredContentIsExact(history, snapshotAt, logFrom, rs, k);
      FoldPointwise(map[], Log(history), k);
      if UpTo(history, t) && (forall n: nat :: clock(n) <= t) && Settled(Log(history), k, t) {
        ExactRecovery(history, snapshotAt, logFrom, rs, t, k);
      }
    }
  }

  lemma HistoryGrows(es: seq<Event>, e: Event, p: nat, i: nat)
    requires p <= |es| && i <= |Log(es)|
    ensures (es + [e])[..p] == es[..p]
    ensures i <= |Log(es + [e])|
    ensures Log(es + [e])[i..] == Log(es)[i..] + if e.Wrote? then [e.cmd] else []
  {
    assert (es + [e])[..|es|] == es;
  }
}
