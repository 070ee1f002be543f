/**
 * The clocked cache against the clock-free history: what a live run, a snapshot and a replay agree
 * on, at which clock readings, and exactly when they agree on everything.
 */
module Recovery {
  import opened Wrappers
  import opened Bytes
  import opened Commands
  import opened CacheSpec
  import opened Ideal

  /** One thing that happens to the cache, with the clock reading it used. */
  datatype Event =
    | Wrote(cmd: WriteCommand, now: Millis)
    | Looked(key: ByteString, now: Millis)
    | Swept(now: Millis)

  function Step(m: Store, e: Event): Store {
    match e
    case Wrote(w, now) => ApplyAt(m, w, now)
    case Looked(k, now) => Touch(m, k, now)
    case Swept(now) => Unexpired(m, now)
  }

  /** A live run, or a replay: both are the cache executing events. */
  function Run(m: Store, es: seq<Event>): Store {
    if es == [] then m else Step(Run(m, es[..|es| - 1]), es[|es| - 1])
  }

  /** The writes of a run, which is what the log records: every write, whatever it answered. */
  function Log(es: seq<Event>): seq<WriteCommand> {
    if es == [] then []
    else
      var last := es[|es| - 1];
      Log(es[..|es| - 1]) + if last.Wrote? then [last.cmd] else []
  }

  predicate UpTo(es: seq<Event>, t: Millis) {
    forall i :: 0 <= i < |es| ==> es[i].now <= t
  }

  // ---- One key ----

  function KeyAt(o: Option<Entry>, w: WriteCommand, now: Millis): Option<Entry> {
    match w
    case Set(_, v, at) => Some(Entry(v, at))
    case Delete(_) => None
    case ExpireAt(_, at) => if now >= at then None else Retimed(o, Some(at))
    case Persist(_) => if o.Some? && Due(o.value, now) then None else Retimed(o, None)
  }

  /** Every event acts on `k` alone: through its own write, or by dropping it when due. */
  lemma StepPointwise(m: Store, e: Event, k: ByteString)
    ensures var o, o' := Lookup(m, k), Lookup(Step(m, e), k);
            if e.Wrote? && e.cmd.key == k then o' == KeyAt(o, e.cmd, e.now)
            else o' == o || (o'.None? && o.Some? && !e.Wrote? && Due(o.value, e.now))
  {
  }

  predicate LiveAt(o: Option<Entry>, t: Millis) {
    o.Some? && !Due(o.value, t)
  }

  // ---- Soundness: content never diverges ----

  predicate Within(o: Option<Entry>, ideal: Option<Entry>) {
    o.None? || o == ideal
  }

  /**
   * Whatever the clock does, a key that is present holds exactly the value and deadline the
   * clock-free history gives it.
   */
  lemma {:induction false} RunWithin(m: Store, es: seq<Event>, k: ByteString, ideal: Option<Entry>)
    requires Within(Lookup(m, k), ideal)
    ensures Within(Lookup(Run(m, es), k), KeyFold(ideal, On(k, Log(es))))
  {
    if es != [] {
      var front, last := es[..|es| - 1], es[|es| - 1];
      RunWithin(m, front, k, ideal);
      StepPointwise(Run(m, front), last, k);
      if last.Wrote? {
        OnNext(k, Log(front), last.cmd);
        KeyFoldNext(ideal, On(k, Log(front)), last.cmd);
      } else {
        assert Log(es) == Log(front);
      }
    }
  }

  // ---- Steadiness: when presence does not diverge either ----

  /**
   * Since the key was last set or deleted, no EXPIREAT or PERSIST in `ws` replaced a deadline that
   * is already reached at `t`.
   */
  predicate Steady(o: Option<Entry>, ws: seq<WriteCommand>, t: Millis) {
    ws == [] ||
    (var front, last := ws[..|ws| - 1], ws[|ws| - 1];
     IsReset(last) || KeyFold(o, front).None? || (LiveAt(KeyFold(o, front), t) && Steady(o, front, t)))
  }

  predicate HasReset(ws: seq<WriteCommand>) {
    exists i :: 0 <= i < |ws| && IsReset(ws[i])
  }

  lemma SteadyNext(o: Option<Entry>, ws: seq<WriteCommand>, w: WriteCommand, t: Millis)
    ensures Steady(o, ws + [w], t) <==>
            IsReset(w) || KeyFold(o, ws).None? || (LiveAt(KeyFold(o, ws), t) && Steady(o, ws, t))
    ensures HasReset(ws + [w]) <==> HasReset(ws) || IsReset(w)
  {
    var all := ws + [w];
    assert all[..|all| - 1] == ws && all[|all| - 1] == w;
    if HasReset(ws) {
      var i :| 0 <= i < |ws| && IsReset(ws[i]);
      assert IsReset(all[i]);
    }
    if IsReset(w) {
      assert IsReset(all[|ws|]);
    }
  }

  /** Stepping back over a deadline move: the key was steady and live before it too. */
  lemma SteadyBack(o: Option<Entry>, ws: seq<WriteCommand>, w: WriteCommand, t: Millis)
    requires Steady(o, ws + [w], t) && LiveAt(KeyFold(o, ws + [w]), t)
    ensures KeyFold(o, ws + [w]) == KeyApply(KeyFold(o, ws), w)
    ensures HasReset(ws + [w]) <==> HasReset(ws) || IsReset(w)
    ensures !IsReset(w) ==> Steady(o, ws, t) && LiveAt(KeyFold(o, ws), t)
  {
    SteadyNext(o, ws, w, t);
    KeyFoldNext(o, ws, w);
  }

  /** Away from resets, a write that leaves a key live at `t` loses nothing at a clock no later than `t`. */
  lemma DeadlineMoveKeeps(o: Option<Entry>, w: WriteCommand, now: Millis, t: Millis)
    requires now <= t && LiveAt(KeyApply(o, w), t)
    requires !IsReset(w) ==> LiveAt(o, t)
    ensures KeyAt(o, w, now) == KeyApply(o, w)
  {
  }

  /** What is known of the base state: it is the given one if live, unless a reset makes it moot. */
  predicate BaseKnown(m: Store, k: ByteString, o: Option<Entry>, ws: seq<WriteCommand>, t: Millis) {
    HasReset(ws) || (LiveAt(o, t) ==> Lookup(m, k) == o)
  }

  /** A run at clocks no later than `t` keeps every key whose steady history leaves it live at `t`. */
  lemma {:induction false} RunKeeps(m: Store, es: seq<Event>, k: ByteString, o: Option<Entry>, t: Millis)
    requires UpTo(es, t) && BaseKnown(m, k, o, On(k, Log(es)), t)
    requires Steady(o, On(k, Log(es)), t) && LiveAt(KeyFold(o, On(k, Log(es))), t)
    ensures Lookup(Run(m, es), k) == KeyFold(o, On(k, Log(es)))
  {
    if es != [] {
      hide Step, On, KeyFold, Steady, HasReset, KeyAt, KeyApply, LiveAt, IsReset, Lookup;
      var front, last := es[..|es| - 1], es[|es| - 1];
      StepPointwise(Run(m, front), last, k);
      if last.Wrote? && last.cmd.key == k {
        var ws := On(k, Log(front));
        OnNext(k, Log(front), last.cmd);
        SteadyBack(o, ws, last.cmd, t);
        if IsReset(last.cmd) {
          ResetDecides(Lookup(Run(m, front), k), KeyFold(o, ws), last.cmd, last.now);
        } else {
          RunKeeps(m, front, k, o, t);
          DeadlineMoveKeeps(Lookup(Run(m, front), k), last.cmd, last.now, t);
        }
      } else {
        if last.Wrote? {
          OnNext(k, Log(front), last.cmd);
        } else {
          assert Log(es) == Log(front);
        }
        RunKeeps(m, front, k, o, t);
        NotDropped(Lookup(Run(m, front), k), last.now, t);
      }
    }
  }

  lemma ResetDecides(o: Option<Entry>, g: Option<Entry>, w: WriteCommand, now: Millis)
    requires IsReset(w)
    ensures KeyAt(o, w, now) == KeyApply(g, w)
  {
  }

  lemma NotDropped(o: Option<Entry>, now: Millis, t: Millis)
    requires now <= t && LiveAt(o, t)
    ensures o.Some? && !Due(o.value, now)
  {
  }

  /** Steadiness runs backwards: with no reset since write `j`, the key was already live then. */
  lemma {:induction false} SteadyBefore(ws: seq<WriteCommand>, j: nat, t: Millis)
    requires j <= |ws| && Steady(None, ws, t) && LiveAt(KeyFold(None, ws), t)
    requires !HasReset(ws[j..])
    ensures Steady(None, ws[..j], t) && LiveAt(KeyFold(None, ws[..j]), t)
  {
    if j == |ws| {
      assert ws[..j] == ws;
    } else {
      var front, last := ws[..|ws| - 1], ws[|ws| - 1];
      assert ws[j..] == front[j..] + [last] && front[..j] == ws[..j];
      SteadyNext(None, front[j..], last, t);
      SteadyBefore(front, j, t);
    }
  }

  /** Steadiness survives replaying a suffix on any base that is live, or that a reset replaces. */
  lemma {:induction false} SteadyOverlay(ws: seq<WriteCommand>, i: nat, o: Option<Entry>, t: Millis)
    requires i <= |ws| && Steady(None, ws, t) && LiveAt(KeyFold(None, ws), t)
    requires LiveAt(o, t) || HasReset(ws[i..])
    ensures Steady(o, ws[i..], t) && LiveAt(KeyFold(o, ws[i..]), t)
  {
    if i < |ws| {
      var front, last := ws[..|ws| - 1], ws[|ws| - 1];
      assert ws[i..] == front[i..] + [last];
      SteadyNext(o, front[i..], last, t);
      KeyFoldNext(o, front[i..], last);
      if !IsReset(last) {
        SteadyOverlay(front, i, o, t);
      }
    }
  }

  // ---- Recovery ----

  /**
   * How a concrete state of one key relates to the writes applied to it: never anything but their
   * clock-free outcome, and exactly that outcome whenever it is steady and live at `t`.
   */
  predicate Faithful(o: Option<Entry>, ws: seq<WriteCommand>, t: Millis) {
    && Within(o, KeyFold(None, ws))
    && (Steady(None, ws, t) && LiveAt(KeyFold(None, ws), t) ==> o == KeyFold(None, ws))
  }

  lemma LiveRunFaithful(es: seq<Event>, k: ByteString, t: Millis)
    requires UpTo(es, t)
    ensures Faithful(Lookup(Run(map[], es), k), On(k, Log(es)), t)
  {
    var ws := On(k, Log(es));
    RunWithin(map[], es, k, None);
    if Steady(None, ws, t) && LiveAt(KeyFold(None, ws), t) {
      RunKeeps(map[], es, k, None, t);
    }
  }

  /**
   * Replay: a snapshot faithful to the first `j` writes of a key, and a log holding its writes from
   * `i` on, with any overlap between the two, rebuild a state faithful to all of them.
   */
  lemma ReplayFaithful(m: Store, rs: seq<Event>, k: ByteString, ws: seq<WriteCommand>, i: nat, j: nat, t: Millis)
    requires i <= j <= |ws| && On(k, Log(rs)) == ws[i..] && UpTo(rs, t)
    requires Faithful(Lookup(m, k), ws[..j], t)
    ensures Faithful(Lookup(Run(m, rs), k), ws, t)
  {
    var base := KeyFold(None, ws[..j]);
    RunWithin(m, rs, k, base);
    AbsorbsAt(None, ws, i, j);
    if Steady(None, ws, t) && LiveAt(KeyFold(None, ws), t) {
      if !HasReset(ws[i..]) {
        assert forall q :: 0 <= q < |ws[j..]| ==> ws[j..][q] == ws[i..][q + (j - i)];
        SteadyBefore(ws, j, t);
      }
      SteadyOverlay(ws, i, base, t);
      RunKeeps(m, rs, k, base, t);
    }
  }

  lemma {:induction false} ResetIsDecisive(ws: seq<WriteCommand>)
    requires HasReset(ws)
    ensures Summary(ws).Put?
  {
    var front, last := ws[..|ws| - 1], ws[|ws| - 1];
    if !IsReset(last) {
      var i :| 0 <= i < |ws| && IsReset(ws[i]);
      assert front[i] == ws[i];
      ResetIsDecisive(front);
    }
  }

  /** A log that sets or deletes the key rebuilds its whole history on top of any state at all. */
  lemma ReplayWithReset(m: Store, rs: seq<Event>, k: ByteString, ws: seq<WriteCommand>, i: nat, t: Millis)
    requires i <= |ws| && On(k, Log(rs)) == ws[i..] && UpTo(rs, t) && HasReset(ws[i..])
    ensures Faithful(Lookup(Run(m, rs), k), ws, t)
  {
    hide Run, On, Log, Steady, KeyFold, HasReset, Summary;
    var base := Lookup(m, k);
    RunWithin(m, rs, k, base);
    assert ws == ws[..i] + ws[i..];
    KeyFoldConcat(None, ws[..i], ws[i..]);
    FoldIsSummary(base, ws[i..]);
    FoldIsSummary(KeyFold(None, ws[..i]), ws[i..]);
    ResetIsDecisive(ws[i..]);
    if Steady(None, ws, t) && LiveAt(KeyFold(None, ws), t) {
      SteadyOverlay(ws, i, base, t);
      RunKeeps(m, rs, k, base, t);
    }
  }

  /** The key recovers exactly: its history either is steady or leaves nothing alive at `t`. */
  predicate Settled(log: seq<WriteCommand>, k: ByteString, t: Millis) {
    LiveAt(KeyFold(None, On(k, log)), t) ==> Steady(None, On(k, log), t)
  }

  lemma FaithfulStatesAgree(a: Store, b: Store, k: ByteString, ws: seq<WriteCommand>, t: Millis)
    requires Faithful(Lookup(a, k), ws, t) && Faithful(Lookup(b, k), ws, t)
    requires LiveAt(KeyFold(None, ws), t) ==> Steady(None, ws, t)
    ensures Lookup(Unexpired(a, t), k) == Lookup(Unexpired(b, t), k)
  {
  }

  /**
   * Content never diverges: for any live run, any point in it where a snapshot was taken, any log
   * reaching back to or before that point, and any clock readings at all, a key the recovered map
   * holds has exactly the value and deadline of the clock-free history.
   */
  lemma RecoveredContentIsExact(es: seq<Event>, p: nat, i: nat, rs: seq<Event>, k: ByteString)
    requires p <= |es| && i <= |Log(es[..p])|
    requires i <= |Log(es)| && Log(rs) == Log(es)[i..]
    ensures Within(Lookup(Run(Run(map[], es[..p]), rs), k), Lookup(Fold(map[], Log(es)), k))
    ensures Within(Lookup(Run(map[], es), k), Lookup(Fold(map[], Log(es)), k))
  {
    RunWithin(map[], es, k, None);
    RunWithin(map[], es[..p], k, None);
    FoldPointwise(map[], Log(es), k);
    LogPrefix(es, p);
    var j := |Log(es[..p])|;
    Overlap(k, Log(es), i, j);
    AbsorbsAt(None, On(k, Log(es)), |On(k, Log(es)[..i])|, |On(k, Log(es)[..j])|);
    RunWithin(Run(map[], es[..p]), rs, k, KeyFold(None, On(k, Log(es[..p]))));
  }

  lemma {:induction false} LogPrefix(es: seq<Event>, p: nat)
    requires p <= |es|
    ensures |Log(es[..p])| <= |Log(es)| && Log(es[..p]) == Log(es)[..|Log(es[..p])|]
  {
    if p == |es| {
      assert es[..p] == es;
    } else {
      var front := es[..|es| - 1];
      LogPrefix(front, p);
      assert front[..p] == es[..p];
    }
  }

  /**
   * Exact recovery with expiry: load, replay and sweep at `t` give the live map without its expired
   * entries, for every key whose logged deadline overrides are settled at `t`.
   */
  lemma ExactRecovery(es: seq<Event>, p: nat, i: nat, rs: seq<Event>, t: Millis, k: ByteString)
    requires p <= |es| && i <= |Log(es[..p])|
    requires i <= |Log(es)| && Log(rs) == Log(es)[i..]
    requires UpTo(es, t) && UpTo(rs, t) && Settled(Log(es), k, t)
    ensures Lookup(Unexpired(Run(Run(map[], es[..p]), rs), t), k) == Lookup(Unexpired(Run(map[], es), t), k)
  {
    var snapshot, ws := Run(map[], es[..p]), Log(es);
    LogPrefix(es, p);
    var j := |Log(es[..p])|;
    Overlap(k, ws, i, j);
    LiveRunFaithful(es, k, t);
    LiveRunFaithful(es[..p], k, t);
    ReplayFaithful(snapshot, rs, k, On(k, ws), |On(k, ws[..i])|, |On(k, ws[..j])|, t);
    FaithfulStatesAgree(Run(snapshot, rs), Run(map[], es), k, On(k, ws), t);
  }
}
