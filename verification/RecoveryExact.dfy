/** The other half: a log that is not settled really does recover wrongly after some live run. */
module RecoveryExact {
  import opened Wrappers
  import opened Bytes
  import opened Commands
  import opened CacheSpec
  import opened Ideal
  import opened Recovery

  /** Every write of `ws` executed at clock reading `t`. */
  function AllAt(ws: seq<WriteCommand>, t: Millis): (es: seq<Event>)
    ensures |es| == |ws| && UpTo(es, t)
    ensures forall i :: 0 <= i < |es| ==> es[i].now == t
  {
    seq(|ws|, i requires 0 <= i < |ws| => Wrote(ws[i], t))
  }

  /** Start-up with no snapshot, all of it at clock reading `t`. */
  function Recover(log: seq<WriteCommand>, t: Millis): Store {
    Unexpired(Run(map[], AllAt(log, t)), t)
  }

  predicate NonDecreasing(es: seq<Event>) {
    forall i, j :: 0 <= i < j < |es| ==> es[i].now <= es[j].now
  }

  predicate ClocksIn(es: seq<Event>, from: Millis, t: Millis) {
    forall i :: 0 <= i < |es| ==> from <= es[i].now <= t
  }

  lemma {:induction false} LogOfAllAt(ws: seq<WriteCommand>, t: Millis)
    ensures Log(AllAt(ws, t)) == ws
  {
    if ws != [] {
      var front := ws[..|ws| - 1];
      LogOfAllAt(front, t);
      assert AllAt(ws, t)[..|ws| - 1] == AllAt(front, t);
    }
  }

  lemma {:induction false} RunConcat(m: Store, a: seq<Event>, b: seq<Event>)
    ensures Run(m, a + b) == Run(Run(m, a), b)
    ensures Log(a + b) == Log(a) + Log(b)
  {
    if b == [] {
      assert a + b == a;
    } else {
      var front, last := b[..|b| - 1], b[|b| - 1];
      RunConcat(m, a, front);
      assert (a + b)[..|a + b| - 1] == a + front;
    }
  }

  // ---- The history as the earliest possible run sees it ----

  /**
   * A key's writes, all executed at the first clock reading there may be. Deadlines not after it are the
   * ones every run finds reached; the others are still open.
   */
  function KeyRun(o: Option<Entry>, ws: seq<WriteCommand>, from: Millis): Option<Entry> {
    if ws == [] then o else KeyAt(KeyRun(o, ws[..|ws| - 1], from), ws[|ws| - 1], from)
  }

  /**
   * Since the key was last set or deleted, no EXPIREAT or PERSIST replaced a deadline that clocks between
   * `from` and `t` may or may not have reached.
   */
  predicate SteadySince(ws: seq<WriteCommand>, from: Millis, t: Millis) {
    ws == [] ||
    (var front, last := ws[..|ws| - 1], ws[|ws| - 1];
     var before := KeyRun(None, front, from);
     IsReset(last) || before.None? || (LiveAt(before, t) && SteadySince(front, from, t)))
  }

  /** The key recovers exactly after every run with clocks in that range. */
  predicate SettledSince(log: seq<WriteCommand>, k: ByteString, from: Millis, t: Millis) {
    LiveAt(KeyRun(None, On(k, log), from), t) ==> SteadySince(On(k, log), from, t)
  }

  lemma KeyRunNext(o: Option<Entry>, ws: seq<WriteCommand>, w: WriteCommand, from: Millis)
    ensures KeyRun(o, ws + [w], from) == KeyAt(KeyRun(o, ws, from), w, from)
  {
    assert (ws + [w])[..|ws|] == ws;
  }

  lemma SteadySinceNext(ws: seq<WriteCommand>, w: WriteCommand, from: Millis, t: Millis)
    ensures SteadySince(ws + [w], from, t) <==>
            IsReset(w) || KeyRun(None, ws, from).None? || (LiveAt(KeyRun(None, ws, from), t) &&
              SteadySince(ws, from, t))
  {
    assert (ws + [w])[..|ws|] == ws;
  }

  /** The condition that asks nothing of the clocks but that they stay below `t` is the stronger one. */
  lemma SettledImpliesSettledSince(log: seq<WriteCommand>, k: ByteString, from: Millis, t: Millis)
    requires from <= t && Settled(log, k, t)
    ensures SettledSince(log, k, from, t)
  {
    if LiveAt(KeyRun(None, On(k, log), from), t) {
      SteadyFromAnyClock(On(k, log), from, t);
    }
  }

  lemma {:induction false} SteadyFromAnyClock(ws: seq<WriteCommand>, from: Millis, t: Millis)
    requires from <= t
    ensures Within(KeyRun(None, ws, from), KeyFold(None, ws))
    ensures Steady(None, ws, t) ==> SteadySince(ws, from, t)
  {
    if ws != [] {
      SteadyFromAnyClock(ws[..|ws| - 1], from, t);
    }
  }

  /** No run with later clocks holds anything the earliest one does not. */
  lemma KeyAtWithin(o: Option<Entry>, early: Option<Entry>, w: WriteCommand, now: Millis, from: Millis)
    requires Within(o, early) && from <= now
    ensures Within(KeyAt(o, w, now), KeyAt(early, w, from))
  {
  }

  lemma {:induction false} RunWithinEarliest(es: seq<Event>, k: ByteString, from: Millis, t: Millis)
    requires ClocksIn(es, from, t)
    ensures Within(Lookup(Run(map[], es), k), KeyRun(None, On(k, Log(es)), from))
  {
    if es == [] {
      assert Lookup(Run(map[], es), k).None?;
    } else {
      hide Step, On, KeyRun, KeyAt, Lookup;
      var front, last := es[..|es| - 1], es[|es| - 1];
      RunWithinEarliest(front, k, from, t);
      StepPointwise(Run(map[], front), last, k);
      if last.Wrote? {
        OnNext(k, Log(front), last.cmd);
        KeyRunNext(None, On(k, Log(front)), last.cmd, from);
        KeyAtWithin(Lookup(Run(map[], front), k), KeyRun(None, On(k, Log(front)), from), last.cmd, last.now, from);
      } else {
        assert Log(es) == Log(front);
      }
    }
  }

  /** Executing everything at the first clock reading is what `KeyRun` describes. */
  lemma {:induction false} RunEarliest(ws: seq<WriteCommand>, k: ByteString, from: Millis)
    ensures Lookup(Run(map[], AllAt(ws, from)), k) == KeyRun(None, On(k, ws), from)
  {
    if ws == [] {
      assert On(k, ws) == [] && Lookup(Run(map[], AllAt(ws, from)), k).None?;
    } else {
      hide Step, On, KeyRun, KeyAt;
      var front, last := ws[..|ws| - 1], ws[|ws| - 1];
      RunEarliest(front, k, from);
      assert ws == front + [last];
      assert AllAt(ws, from)[..|ws| - 1] == AllAt(front, from);
      StepPointwise(Run(map[], AllAt(front, from)), Wrote(last, from), k);
      OnNext(k, front, last);
      KeyRunNext(None, On(k, front), last, from);
    }
  }

  /** On a key live at `t` throughout, a deadline move does the same at every clock of the range. */
  lemma MoveKeepsSince(o: Option<Entry>, w: WriteCommand, now: Millis, from: Millis, t: Millis)
    requires from <= now <= t && LiveAt(KeyAt(o, w, from), t) && (!IsReset(w) ==> LiveAt(o, t))
    ensures KeyAt(o, w, now) == KeyAt(o, w, from)
  {
  }

  lemma MovesNeedAKey(o: Option<Entry>, w: WriteCommand, from: Millis, t: Millis)
    requires !IsReset(w) && LiveAt(KeyAt(o, w, from), t)
    ensures o.Some?
  {
  }

  lemma ResetAlways(o: Option<Entry>, g: Option<Entry>, w: WriteCommand, now: Millis, from: Millis)
    requires IsReset(w)
    ensures KeyAt(o, w, now) == KeyAt(g, w, from)
  {
  }

  /** Every run in the range keeps a key whose history is steady and leaves it live at `t`. */
  lemma {:induction false} RunKeepsSince(es: seq<Event>, k: ByteString, from: Millis, t: Millis)
    requires ClocksIn(es, from, t)
    requires SteadySince(On(k, Log(es)), from, t) && LiveAt(KeyRun(None, On(k, Log(es)), from), t)
    ensures Lookup(Run(map[], es), k) == KeyRun(None, On(k, Log(es)), from)
  {
    if es != [] {
      hide Step, On, KeyRun, SteadySince, KeyAt, LiveAt, IsReset, Lookup;
      var front, last := es[..|es| - 1], es[|es| - 1];
      StepPointwise(Run(map[], front), last, k);
      if last.Wrote? && last.cmd.key == k {
        var ws := On(k, Log(front));
        OnNext(k, Log(front), last.cmd);
        KeyRunNext(None, ws, last.cmd, from);
        SteadySinceNext(ws, last.cmd, from, t);
        if IsReset(last.cmd) {
          ResetAlways(Lookup(Run(map[], front), k), KeyRun(None, ws, from), last.cmd, last.now, from);
        } else {
          MovesNeedAKey(KeyRun(None, ws, from), last.cmd, from, t);
          RunKeepsSince(front, k, from, t);
          MoveKeepsSince(Lookup(Run(map[], front), k), last.cmd, last.now, from, t);
        }
      } else {
        if last.Wrote? {
          OnNext(k, Log(front), last.cmd);
        } else {
          assert Log(es) == Log(front);
        }
        RunKeepsSince(front, k, from, t);
        NotDropped(Lookup(Run(map[], front), k), last.now, t);
      }
    }
  }

  lemma {:induction false} AbsentStays(m: Store, es: seq<Event>, k: ByteString)
    requires Lookup(m, k).None? && !HasReset(On(k, Log(es)))
    ensures Lookup(Run(m, es), k).None?
  {
    if es != [] {
      var front, last := es[..|es| - 1], es[|es| - 1];
      StepPointwise(Run(m, front), last, k);
      if last.Wrote? {
        OnNext(k, Log(front), last.cmd);
        SteadyNext(None, On(k, Log(front)), last.cmd, 0);
      } else {
        assert Log(es) == Log(front);
      }
      AbsentStays(m, front, k);
    }
  }

  /** Where an unsteady history went wrong: the key was due at `t`, and nothing has reset it since. */
  lemma {:induction false} UnsteadyPoint(ws: seq<WriteCommand>, from: Millis, t: Millis) returns (q: nat)
    requires !SteadySince(ws, from, t) && LiveAt(KeyRun(None, ws, from), t)
    ensures q <= |ws| && !HasReset(ws[q..])
    ensures KeyRun(None, ws[..q], from).Some? && !LiveAt(KeyRun(None, ws[..q], from), t)
  {
    var front, last := ws[..|ws| - 1], ws[|ws| - 1];
    if LiveAt(KeyRun(None, front, from), t) {
      q := UnsteadyPoint(front, from, t);
      assert front[..q] == ws[..q] && ws[q..] == front[q..] + [last];
      SteadyNext(None, front[q..], last, t);
    } else {
      q := |front|;
      assert ws[q..] == [last];
    }
  }

  /** The point of the whole log by which `q` writes to `k` have gone by. */
  lemma {:induction false} PrefixWith(k: ByteString, log: seq<WriteCommand>, q: nat) returns (g: nat)
    requires q <= |On(k, log)|
    ensures g <= |log| && On(k, log[..g]) == On(k, log)[..q] && On(k, log[g..]) == On(k, log)[q..]
  {
    if q == |On(k, log)| {
      g := |log|;
      assert log[..g] == log && log[g..] == [];
    } else {
      var front := log[..|log| - 1];
      OnSplit(k, log, |log| - 1);
      g := PrefixWith(k, front, q);
      assert front[..g] == log[..g];
    }
    OnSplit(k, log, g);
  }

  /** A run that writes the first `g` commands as early as it can, sweeps at `t`, and writes the rest then. */
  function SweptAt(log: seq<WriteCommand>, g: nat, from: Millis, t: Millis): seq<Event>
    requires g <= |log|
  {
    AllAt(log[..g], from) + [Swept(t)] + AllAt(log[g..], t)
  }

  /** A run that may have written `log`: its clock stays between `from` and `t` and never goes back. */
  predicate MayHaveWritten(es: seq<Event>, log: seq<WriteCommand>, from: Millis, t: Millis) {
    Log(es) == log && ClocksIn(es, from, t) && NonDecreasing(es)
  }

  lemma SweptAtRuns(log: seq<WriteCommand>, g: nat, from: Millis, t: Millis)
    requires g <= |log| && from <= t
    ensures MayHaveWritten(SweptAt(log, g, from, t), log, from, t)
    ensures Run(map[], SweptAt(log, g, from, t)) ==
            Run(Unexpired(Run(map[], AllAt(log[..g], from)), t), AllAt(log[g..], t))
  {
    hide Run, Log;
    var a, s, b := AllAt(log[..g], from), [Swept(t)], AllAt(log[g..], t);
    LogOfAllAt(log[..g], from);
    LogOfAllAt(log[g..], t);
    RunConcat(map[], a, s);
    RunConcat(map[], a + s, b);
    SweepAlone(Run(map[], a), t);
    assert log[..g] + [] + log[g..] == log;
  }

  lemma SweepAlone(m: Store, t: Millis)
    ensures Log([Swept(t)]) == [] && Run(m, [Swept(t)]) == Unexpired(m, t)
  {
    assert [Swept(t)][..0] == [];
  }

  /** A run that writes everything early keeps the key. */
  lemma EarlyRunKeeps(log: seq<WriteCommand>, k: ByteString, from: Millis, t: Millis) returns (es: seq<Event>)
    requires from <= t && LiveAt(KeyRun(None, On(k, log), from), t)
    ensures MayHaveWritten(es, log, from, t)
    ensures Lookup(Unexpired(Run(map[], es), t), k).Some?
  {
    hide Run, Log, On, KeyRun;
    es := AllAt(log, from);
    LogOfAllAt(log, from);
    RunEarliest(log, k, from);
  }

  /** A run that sweeps at `t` just before the override loses the key. */
  lemma SweptRunLoses(log: seq<WriteCommand>, k: ByteString, from: Millis, t: Millis) returns (es: seq<Event>)
    requires from <= t && !SettledSince(log, k, from, t)
    ensures MayHaveWritten(es, log, from, t)
    ensures Lookup(Unexpired(Run(map[], es), t), k).None?
  {
    hide SweptAt, AllAt, Run, Log, On, KeyRun, SteadySince, MayHaveWritten;
    var q := UnsteadyPoint(On(k, log), from, t);
    var g := PrefixWith(k, log, q);
    es := SweptAt(log, g, from, t);
    SweptAtRuns(log, g, from, t);
    RunEarliest(log[..g], k, from);
    LogOfAllAt(log[g..], t);
    AbsentStays(Unexpired(Run(map[], AllAt(log[..g], from)), t), AllAt(log[g..], t), k);
  }

  /**
   * For an unsettled key there is a live run, with a clock that only moves forward, whose log this
   * is and from which recovery differs: either it lost the key or it brought it back.
   */
  lemma UnsettledDiverges(log: seq<WriteCommand>, k: ByteString, from: Millis, t: Millis) returns (es: seq<Event>)
    requires from <= t && !SettledSince(log, k, from, t)
    ensures MayHaveWritten(es, log, from, t)
    ensures Lookup(Unexpired(Run(map[], es), t), k) != Lookup(Recover(log, t), k)
  {
    hide Recover, Run, Log, On, KeyRun, SteadySince, MayHaveWritten;
    if Lookup(Recover(log, t), k).None? {
      es := EarlyRunKeeps(log, k, from, t);
    } else {
      es := SweptRunLoses(log, k, from, t);
    }
  }

  /**
   * The exact condition: take any range of clock readings ending at `t`. Replaying a log at `t` reproduces
   * every live run with clocks in the range that could have written it, if and only if every key of the
   * log is settled over the range.
   */
  lemma RecoveryExactIffSettled(log: seq<WriteCommand>, from: Millis, t: Millis)
    requires from <= t
    ensures (forall es: seq<Event> :: MayHaveWritten(es, log, from, t) ==>
              Unexpired(Run(map[], es), t) == Recover(log, t))
            <==> (forall k: ByteString :: SettledSince(log, k, from, t))
  {
    hide Recover, Run, SettledSince, MayHaveWritten;
    if forall k: ByteString :: SettledSince(log, k, from, t) {
      forall es: seq<Event> | MayHaveWritten(es, log, from, t)
        ensures Unexpired(Run(map[], es), t) == Recover(log, t)
      {
        SettledRecoversExactly(es, log, from, t);
      }
    } else {
      var k :| !SettledSince(log, k, from, t);
      var es := UnsettledDiverges(log, k, from, t);
    }
  }

  /** What a settled key shows at `t` after any run in the range is what the earliest run leaves of it. */
  lemma SettledKeyShows(es: seq<Event>, k: ByteString, from: Millis, t: Millis)
    requires ClocksIn(es, from, t) && SettledSince(Log(es), k, from, t)
    ensures var o := KeyRun(None, On(k, Log(es)), from);
            Lookup(Unexpired(Run(map[], es), t), k) == if LiveAt(o, t) then o else None
  {
    RunWithinEarliest(es, k, from, t);
    if LiveAt(KeyRun(None, On(k, Log(es)), from), t) {
      RunKeepsSince(es, k, from, t);
    }
  }

  lemma SettledRecoversExactly(es: seq<Event>, log: seq<WriteCommand>, from: Millis, t: Millis)
    requires from <= t && MayHaveWritten(es, log, from, t)
    requires forall k: ByteString :: SettledSince(log, k, from, t)
    ensures Unexpired(Run(map[], es), t) == Recover(log, t)
  {
    hide SettledSince, Run, KeyRun, On;
    LogOfAllAt(log, t);
    forall k: ByteString
      ensures Lookup(Unexpired(Run(map[], es), t), k) == Lookup(Recover(log, t), k)
    {
      SettledKeyShows(es, k, from, t);
      SettledKeyShows(AllAt(log, t), k, from, t);
    }
    SameLookups(Unexpired(Run(map[], es), t), Recover(log, t));
  }

  // ---- Concrete divergences, both ways ----

  /** A deadline that was moved before it was reached live, but has passed by replay: the key is lost. */
  lemma ReplayCanLoseAKey(k: ByteString, v: ByteString)
    ensures var log := [Set(k, v, None), ExpireAt(k, 5), ExpireAt(k, 100)];
            var live := Run(map[], AllAt(log, 1));
            live == map[k := Entry(v, Some(100))] && k in Unexpired(live, 10) && k !in Recover(log, 10)
  {
    var log := [Set(k, v, None), ExpireAt(k, 5), ExpireAt(k, 100)];
    ThreeWrites(log[0], log[1], log[2], 1);
    ThreeWrites(log[0], log[1], log[2], 10);
  }

  lemma ThreeWrites(a: WriteCommand, b: WriteCommand, c: WriteCommand, t: Millis)
    ensures Run(map[], AllAt([a, b, c], t)) == ApplyAt(ApplyAt(ApplyAt(map[], a, t), b, t), c, t)
  {
    var es := AllAt([a, b, c], t);
    assert es[..2][..1][..0] == [] && es[..2][..1][0] == Wrote(a, t);
    assert Run(map[], es[..2][..1]) == Step(Run(map[], es[..2][..1][..0]), Wrote(a, t));
    assert Run(map[], es[..2]) == Step(Run(map[], es[..2][..1]), Wrote(b, t));
  }

  /** A key swept live, then hit by an EXPIREAT that answered 0 but was logged: replay brings it back. */
  lemma ReplayCanResurrectAKey(k: ByteString, v: ByteString)
    ensures var es := [Wrote(Set(k, v, Some(5)), 1), Swept(6), Wrote(ExpireAt(k, 100), 7)];
            Run(map[], es) == map[] && Log(es) == [Set(k, v, Some(5)), ExpireAt(k, 100)]
            && WriteReply(Run(map[], es[..2]), ExpireAt(k, 100), 7) == Flag(false)
            && k in Recover(Log(es), 10)
  {
    var a, b, c := Wrote(Set(k, v, Some(5)), 1), Swept(6), Wrote(ExpireAt(k, 100), 7);
    var es := [a, b, c];
    assert es[..2] == [a, b] && es[..2][..1] == [a] && es[..2][..1][..0] == [];
    assert Run(map[], [a]) == map[k := Entry(v, Some(5))];
    assert Run(map[], [a, b]) == map[];
    assert Log([a]) == [a.cmd] && Log([a, b]) == [a.cmd];
    var log := [a.cmd, c.cmd];
    var rs := AllAt(log, 10);
    assert rs[..1][..0] == [] && rs[..1] == [Wrote(a.cmd, 10)];
    assert Run(map[], rs[..1]) == map[k := Entry(v, Some(5))];
    assert Run(map[], rs) == map[k := Entry(v, Some(100))];
  }
}
