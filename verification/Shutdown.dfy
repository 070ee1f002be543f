/**
 * Stopping a server that blocks in `accept`: whoever triggers shutdown raises the flag and then
 * connects to the listener itself, so that `accept` returns and the loop sees the flag.
 */
module Shutdown {
  import opened Wrappers

  /** Clients are told apart by a number; the knocks are all alike. */
  datatype Conn = Client(id: nat) | Knock

  /** A trigger thread: flag raised, then knocked, or its connect failed. */
  datatype Trigger = Flagged | Knocked | ConnectFailed

  /** The accept loop: about to look at the flag, inside `accept`, holding what it returned, or out. */
  datatype Loop = Top | Accepting | Holding(conn: Conn) | Exited

  datatype State = State(flag: bool, backlog: seq<Conn>, triggers: map<nat, Trigger>, loop: Loop, served: seq<Conn>)

  datatype Action =
    | RaiseFlag(trigger: nat)
    | KnockOn(trigger: nat)
    | KnockFails(trigger: nat)
    | ClientConnects(id: nat)
    | CheckFlag
    | Accept
    | AcceptFails
    | Decide

  const START: State := State(false, [], map[], Top, [])

  predicate Enabled(s: State, a: Action) {
    match a
    case RaiseFlag(i) => i !in s.triggers
    case KnockOn(i) => i in s.triggers && s.triggers[i].Flagged?
    case KnockFails(i) => i in s.triggers && s.triggers[i].Flagged?
    case ClientConnects(_) => true
    case CheckFlag => s.loop.Top?
    case Accept => s.loop.Accepting? && s.backlog != []
    case AcceptFails => s.loop.Accepting?
    case Decide => s.loop.Holding?
  }

  function Do(s: State, a: Action): State
    requires Enabled(s, a)
  {
    match a
    case RaiseFlag(i) => s.(flag := true, triggers := s.triggers[i := Flagged])
    case KnockOn(i) => s.(backlog := s.backlog + [Knock], triggers := s.triggers[i := Knocked])
    case KnockFails(i) => s.(triggers := s.triggers[i := ConnectFailed])
    case ClientConnects(id) => s.(backlog := s.backlog + [Client(id)])
    case CheckFlag => s.(loop := if s.flag then Exited else Accepting)
    case Accept => s.(loop := Holding(s.backlog[0]), backlog := s.backlog[1..])
    case AcceptFails => s.(loop := Top)
    case Decide => if s.flag then s.(loop := Exited) else s.(loop := Top, served := s.served + [s.loop.conn])
  }

  function After(acts: seq<Action>): Option<State> {
    if acts == [] then Some(START)
    else
      match After(acts[..|acts| - 1])
      case None => None
      case Some(s) =>
        var a := acts[|acts| - 1];
        if Enabled(s, a) then Some(Do(s, a)) else None
  }

  predicate SomeoneKnocked(s: State) {
    exists i :: i in s.triggers && s.triggers[i].Knocked?
  }

  /** A knock is under way: waiting in the backlog, in the loop's hand, or it has done its work. */
  predicate KnockPending(s: State) {
    Knock in s.backlog || s.loop == Holding(Knock) || s.loop.Exited?
  }

  predicate Inv(s: State) {
    && (s.triggers != map[] ==> s.flag)
    && (s.loop.Exited? ==> s.flag)
    && (Knock in s.backlog || s.loop == Holding(Knock) ==> s.flag)
    && (SomeoneKnocked(s) ==> KnockPending(s))
    && Knock !in s.served
  }

  lemma InvStep(s: State, a: Action)
    requires Inv(s) && Enabled(s, a)
    ensures Inv(Do(s, a))
  {
    var s' := Do(s, a);
    if SomeoneKnocked(s') && !a.KnockOn? {
      var i :| i in s'.triggers && s'.triggers[i].Knocked?;
      assert i in s.triggers && s.triggers[i].Knocked?;
      assert SomeoneKnocked(s);
    }
    if a.Accept? {
      assert s.backlog == [s.backlog[0]] + s.backlog[1..];
    }
  }

  lemma {:induction false} ReachableInv(acts: seq<Action>)
    requires After(acts).Some?
    ensures Inv(After(acts).value)
  {
    if acts != [] {
      hide Inv, Do, Enabled;
      var front, a := acts[..|acts| - 1], acts[|acts| - 1];
      ReachableInv(front);
      InvStep(After(front).value, a);
    }
  }

  /** Inside `accept` with the flag up and nothing to accept. */
  predicate Stuck(s: State) {
    s.flag && s.loop.Accepting? && s.backlog == []
  }

  predicate IsLoopStep(a: Action) {
    a.CheckFlag? || a.Accept? || a.AcceptFails? || a.Decide?
  }

  /**
   * No lost wake-up: in no interleaving of triggers, clients and the accept loop has a knock gone in
   * while the loop sits in `accept` with nothing to accept, and a knock never becomes a session.
   */
  lemma NoLostWakeup(acts: seq<Action>)
    requires After(acts).Some?
    ensures var s := After(acts).value;
            && (SomeoneKnocked(s) ==> !Stuck(s))
            && (SomeoneKnocked(s) && !s.loop.Exited? ==>
                  Enabled(s, CheckFlag) || Enabled(s, Accept) || Enabled(s, Decide))
            && Knock !in s.served
  {
    hide After;
    ReachableInv(acts);
  }

  // ---- Who gets a session ----

  /** The connections made so far, in order, going by the steps alone. */
  function Made(acts: seq<Action>): seq<Conn> {
    if acts == [] then []
    else
      Made(acts[..|acts| - 1]) +
      match acts[|acts| - 1]
      case ClientConnects(id) => [Client(id)]
      case KnockOn(_) => [Knock]
      case _ => []
  }

  /** The connection the loop has accepted and not decided on. */
  function InHand(l: Loop): seq<Conn> {
    if l.Holding? then [l.conn] else []
  }

  /** Made and not served: in the loop's hand, then waiting. */
  function Waiting(s: State): seq<Conn> {
    InHand(s.loop) + s.backlog
  }

  lemma MadeNext(acts: seq<Action>, a: Action)
    ensures Made(acts + [a]) ==
            Made(acts) + if a.ClientConnects? then [Client(a.id)] else if a.KnockOn? then [Knock] else []
  {
    assert (acts + [a])[..|acts|] == acts;
  }

  /** While the flag is down nobody is lost: a step moves a connection along or adds one at the end. */
  lemma NobodyLostStep(s: State, a: Action, made: seq<Conn>)
    requires Enabled(s, a) && !Do(s, a).flag && s.served + Waiting(s) == made
    ensures Do(s, a).served + Waiting(Do(s, a)) ==
            made + if a.ClientConnects? then [Client(a.id)] else if a.KnockOn? then [Knock] else []
  {
    var s' := Do(s, a);
    match a
    case ClientConnects(id) =>
      assert s'.served + Waiting(s') == s.served + Waiting(s) + [Client(id)];
    case KnockOn(_) =>
      assert s'.served + Waiting(s') == s.served + Waiting(s) + [Knock];
    case Accept =>
      assert Waiting(s') == s.backlog == Waiting(s);
    case Decide =>
      assert s'.served + Waiting(s') == s.served + ([s.loop.conn] + s.backlog);
    case _ =>
  }

  /**
   * Everybody gets a session, in turn: while the flag is down, the clients served, then the connection in the
   * loop's hand, then the backlog are exactly the connections made so far, in order.
   */
  lemma {:induction false} NobodyLost(acts: seq<Action>)
    requires After(acts).Some? && !After(acts).value.flag
    ensures var s := After(acts).value; s.served + Waiting(s) == Made(acts)
  {
    if acts != [] {
      hide Do, Enabled, Waiting;
      var front, a := acts[..|acts| - 1], acts[|acts| - 1];
      FlagStays(After(front).value, a);
      NobodyLost(front);
      NobodyLostStep(After(front).value, a, Made(front));
      MadeNext(front, a);
      assert front + [a] == acts;
    } else {
      assert START.served + Waiting(START) == [];
    }
  }

  lemma FlagStays(s: State, a: Action)
    requires Enabled(s, a)
    ensures s.flag ==> Do(s, a).flag && Do(s, a).served == s.served
    ensures !s.flag && Do(s, a).flag ==> a.RaiseFlag? && Do(s, a).served == s.served && Waiting(Do(s, a)) == Waiting(s)
  {
  }

  lemma {:induction false} MadeConcat(a: seq<Action>, b: seq<Action>)
    ensures Made(a + b) == Made(a) + Made(b)
  {
    if b == [] {
      assert a + b == a;
    } else {
      var front, last := b[..|b| - 1], b[|b| - 1];
      assert a + b == (a + front) + [last] && b == front + [last];
      MadeConcat(a, front);
      MadeNext(a + front, last);
      MadeNext(front, last);
    }
  }

  // ---- Nobody waits in vain ----

  function RunFrom(s: State, acts: seq<Action>): Option<State>
    decreases acts
  {
    if acts == [] then Some(s)
    else if Enabled(s, acts[0]) then RunFrom(Do(s, acts[0]), acts[1..])
    else None
  }

  lemma {:induction false} RunOn(s: State, first: seq<Action>, more: seq<Action>)
    requires RunFrom(s, first).Some?
    ensures RunFrom(s, first + more) == RunFrom(RunFrom(s, first).value, more)
    decreases first
  {
    hide Do, Enabled;
    if first == [] {
      assert first + more == more;
    } else {
      assert (first + more)[0] == first[0] && (first + more)[1..] == first[1..] + more;
      RunOn(Do(s, first[0]), first[1..], more);
    }
  }

  /** One trip round the loop: look at the flag, accept, decide. */
  lemma OneRound(s: State)
    requires !s.flag && s.loop.Top? && s.backlog != []
    ensures RunFrom(s, [CheckFlag, Accept, Decide]) ==
            Some(s.(backlog := s.backlog[1..], served := s.served + [s.backlog[0]]))
  {
    var a := [CheckFlag, Accept, Decide];
    assert a[1..] == [Accept, Decide] && a[1..][1..] == [Decide] && a[1..][1..][1..] == [];
    var s1 := Do(s, CheckFlag);
    assert RunFrom(s, a) == RunFrom(s1, a[1..]);
    var s2 := Do(s1, Accept);
    assert RunFrom(s1, a[1..]) == RunFrom(s2, a[1..][1..]);
    assert RunFrom(s2, [Decide]) == RunFrom(Do(s2, Decide), []);
  }

  predicate AllLoopSteps(acts: seq<Action>) {
    forall i :: 0 <= i < |acts| ==> IsLoopStep(acts[i])
  }

  lemma {:induction false} RoundsServe(s: State) returns (more: seq<Action>)
    requires !s.flag && s.loop.Top?
    ensures AllLoopSteps(more) && RunFrom(s, more) == Some(s.(backlog := [], served := s.served + s.backlog))
    decreases |s.backlog|
  {
    hide RunFrom;
    if s.backlog == [] {
      more := [];
      RunNothing(s);
      assert s.served + [] == s.served;
    } else {
      OneRound(s);
      var s' := s.(backlog := s.backlog[1..], served := s.served + [s.backlog[0]]);
      var rest := RoundsServe(s');
      RunOn(s, [CheckFlag, Accept, Decide], rest);
      more := [CheckFlag, Accept, Decide] + rest;
      assert s'.served + s'.backlog == s.served + s.backlog;
    }
  }

  lemma RunNothing(s: State)
    ensures RunFrom(s, []) == Some(s)
  {
  }

  /**
   * While the flag is down the loop is still there, and by steps of its own alone it can give everyone in
   * hand or waiting their session, in order.
   */
  lemma LoopCanServeAll(acts: seq<Action>) returns (more: seq<Action>)
    requires After(acts).Some? && !After(acts).value.flag
    ensures AllLoopSteps(more)
    ensures var s := After(acts).value;
            && RunFrom(s, more).Some? && Waiting(RunFrom(s, more).value) == []
            && RunFrom(s, more).value.served == s.served + Waiting(s)
  {
    hide After, RunFrom;
    var s := After(acts).value;
    ReachableInv(acts);
    match s.loop
    case Top =>
      more := RoundsServe(s);
    case Holding(conn) =>
      more := FromStep(s, Decide);
      assert s.served + [conn] + s.backlog == s.served + Waiting(s);
    case Accepting =>
      if s.backlog == [] {
        more := FromStep(s, AcceptFails);
      } else {
        var s1 := Do(s, Accept);
        var rest := FromStep(s1, Decide);
        TakeThen(s, Accept, rest);
        more := [Accept] + rest;
        assert s.served + [s.backlog[0]] + s.backlog[1..] == s.served + Waiting(s);
      }
  }

  lemma TakeThen(s: State, a: Action, rest: seq<Action>)
    requires Enabled(s, a)
    ensures RunFrom(s, [a] + rest) == RunFrom(Do(s, a), rest)
  {
    assert ([a] + rest)[1..] == rest;
  }

  lemma FromStep(s: State, a: Action) returns (more: seq<Action>)
    requires Enabled(s, a) && IsLoopStep(a) && !Do(s, a).flag && Do(s, a).loop.Top?
    ensures AllLoopSteps(more)
    ensures var s1 := Do(s, a);
            RunFrom(s, more) == Some(s1.(backlog := [], served := s1.served + s1.backlog))
  {
    hide RunFrom, Do, Enabled;
    var rest := RoundsServe(Do(s, a));
    TakeThen(s, a, rest);
    more := [a] + rest;
  }

  /** When the flag went up: the longest run with it still down. */
  lemma {:induction false} FlagWentUp(acts: seq<Action>) returns (i: nat)
    requires After(acts).Some? && After(acts).value.flag
    ensures i < |acts| && After(acts[..i]).Some? && !After(acts[..i]).value.flag && acts[i].RaiseFlag?
    ensures After(acts).value.served == After(acts[..i]).value.served
  {
    hide Do, Enabled;
    var front, a := acts[..|acts| - 1], acts[|acts| - 1];
    FlagStays(After(front).value, a);
    if After(front).value.flag {
      i := FlagWentUp(front);
      assert front[..i] == acts[..i];
    } else {
      i := |front|;
    }
  }

  /**
   * Who goes without: once the flag is up, those served are the ones served when it went up, and exactly the
   * connections that were in the loop's hand or waiting at that moment, or were made later, never are.
   */
  lemma ServedUpToTheFlag(acts: seq<Action>) returns (i: nat)
    requires After(acts).Some? && After(acts).value.flag
    ensures i < |acts| && After(acts[..i]).Some? && !After(acts[..i]).value.flag && acts[i].RaiseFlag?
    ensures var before := After(acts[..i]).value;
            Made(acts) == After(acts).value.served + Waiting(before) + Made(acts[i..])
  {
    hide After, Made, Waiting;
    i := FlagWentUp(acts);
    NobodyLost(acts[..i]);
    MadeConcat(acts[..i], acts[i..]);
    assert acts[..i] + acts[i..] == acts;
  }

  /** Steps of its own the loop still takes once the flag is up. */
  function Rank(l: Loop): nat {
    match l
    case Exited => 0
    case Top => 1
    case Holding(_) => 1
    case Accepting => 2
  }

  function LoopSteps(acts: seq<Action>): nat {
    if acts == [] then 0 else LoopSteps(acts[1..]) + if IsLoopStep(acts[0]) then 1 else 0
  }

  /**
   * Once the flag is up the loop is out after at most two more steps of its own, whatever else happens
   * in between, and it starts no session on the way.
   */
  lemma {:induction false} LoopExitsInTime(s: State, more: seq<Action>)
    requires s.flag && RunFrom(s, more).Some?
    ensures var end := RunFrom(s, more).value;
            end.flag && end.served == s.served && LoopSteps(more) + Rank(end.loop) <= Rank(s.loop)
    decreases more
  {
    if more != [] {
      LoopExitsInTime(Do(s, more[0]), more[1..]);
    }
  }

  // ---- Exactly when the loop can hang ----

  lemma TakeStep(acts: seq<Action>, a: Action)
    requires After(acts).Some? && Enabled(After(acts).value, a)
    ensures After(acts + [a]) == Some(Do(After(acts).value, a))
  {
    assert (acts + [a])[..|acts|] == acts;
  }

  /** The loop enters `accept`, then each trigger raises the flag and, where its connect is to fail, fails. */
  lemma {:induction false} HangingRun(m: map<nat, Trigger>) returns (acts: seq<Action>)
    requires forall i :: i in m ==> !m[i].Knocked?
    ensures After(acts) == Some(State(m != map[], [], m, Accepting, []))
    decreases |m|
  {
    hide After;
    if m == map[] {
      NothingYet();
      TakeStep([], CheckFlag);
      acts := [] + [CheckFlag];
    } else {
      var i :| i in m;
      var others := m - {i};
      assert others.Keys == m.Keys - {i};
      assert |others.Keys| < |m.Keys|;
      var front := HangingRun(others);
      assert others[i := m[i]] == m;
      TakeStep(front, RaiseFlag(i));
      acts := front + [RaiseFlag(i)];
      if m[i].ConnectFailed? {
        TakeStep(acts, KnockFails(i));
        acts := acts + [KnockFails(i)];
        assert others[i := Flagged][i := m[i]] == m;
      }
    }
  }

  lemma NothingYet()
    ensures After([]) == Some(START)
  {
  }

  /** A run that leaves the loop stuck with the triggers in the positions `m` says. */
  predicate HangsWith(acts: seq<Action>, m: map<nat, Trigger>) {
    After(acts).Some? && Stuck(After(acts).value) && After(acts).value.triggers == m
  }

  /**
   * What can leave the loop waiting, exactly: some interleaving leaves it stuck with the triggers as in `m`, at
   * least one of them having raised the flag, if and only if none of them has knocked.
   */
  lemma HangsIffNobodyKnocked(m: map<nat, Trigger>)
    requires m != map[]
    ensures (exists acts: seq<Action> :: HangsWith(acts, m)) <==> (forall i :: i in m ==> !m[i].Knocked?)
  {
    hide After;
    if forall i :: i in m ==> !m[i].Knocked? {
      var acts := HangingRun(m);
      assert HangsWith(acts, m);
    }
    forall acts: seq<Action> | HangsWith(acts, m)
      ensures forall i :: i in m ==> !m[i].Knocked?
    {
      NoLostWakeup(acts);
      assert !SomeoneKnocked(After(acts).value);
    }
  }

  /** A step that comes from outside the triggers there are and the loop itself. */
  predicate FromOutside(a: Action) {
    a.RaiseFlag? || a.ClientConnects? || a.AcceptFails?
  }

  /** Stuck, and nothing the loop or any trigger can still do changes that. */
  ghost predicate StuckForGood(s: State) {
    Stuck(s) && forall a: Action :: Enabled(s, a) ==> FromOutside(a)
  }

  lemma OnlyFailedTriggersAreDone(s: State)
    requires Stuck(s) && forall i :: i in s.triggers ==> !s.triggers[i].Knocked?
    ensures StuckForGood(s) <==> forall i :: i in s.triggers ==> s.triggers[i].ConnectFailed?
  {
    if i :| i in s.triggers && s.triggers[i].Flagged? {
      assert Enabled(s, KnockOn(i)) && !FromOutside(KnockOn(i));
    }
  }

  /**
   * What hangs it for good: some interleaving leaves the loop stuck with the triggers as in `m` and only
   * outsiders able to help, if and only if every trigger's connect has failed.
   */
  lemma HangsForGoodIffAllFailed(m: map<nat, Trigger>)
    requires m != map[]
    ensures (exists acts: seq<Action> :: HangsWith(acts, m) && StuckForGood(After(acts).value)) <==>
            (forall i :: i in m ==> m[i].ConnectFailed?)
  {
    hide After, StuckForGood;
    if forall i :: i in m ==> m[i].ConnectFailed? {
      var acts := HangingRun(m);
      OnlyFailedTriggersAreDone(After(acts).value);
      assert HangsWith(acts, m);
    }
    forall acts: seq<Action> | HangsWith(acts, m) && StuckForGood(After(acts).value)
      ensures forall i :: i in m ==> m[i].ConnectFailed?
    {
      NoLostWakeup(acts);
      assert !SomeoneKnocked(After(acts).value);
      OnlyFailedTriggersAreDone(After(acts).value);
    }
  }
}
