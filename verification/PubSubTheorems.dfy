/** What pub/sub guarantees in every reachable state. */
module PubSubTheorems {
  import opened Wrappers
  import opened Bytes
  import Sequences
  import opened Registry
  import opened PubSubModel

  /**
   * Registry and sessions agree: an id under a channel belongs to a session whose set holds the
   * channel, and while the session's writer lives the converse holds too. A session between its two
   * half-steps, or part way through leaving, is described by what it wants instead of by its set.
   */
  lemma RegistryAgrees(acts: seq<Action>, id: Id, c: Channel)
    requires After(acts).Some?
    ensures var s := After(acts).value;
            && (Registered(s.registry, c, id) ==> id in s.sessions && Wants(s.sessions[id], c))
            && (id in s.sessions && s.sessions[id].writer ==>
                  (Registered(s.registry, c, id) <==> Wants(s.sessions[id], c)))
            && (id in s.sessions && s.sessions[id].phase.Running? && s.sessions[id].midway.Settled? ==>
                  (Wants(s.sessions[id], c) <==> c in s.sessions[id].subs))
  {
    hide After;
    ReachableInv(acts);
    assert Agree(After(acts).value, id, c);
  }

  /** Every channel still in the registry, empty or not, is wanted by a session that has not finished leaving. */
  lemma NoStrayChannels(acts: seq<Action>, c: Channel)
    requires After(acts).Some? && c in After(acts).value.registry
    ensures Wanted(After(acts).value, c)
  {
    hide After;
    ReachableInv(acts);
  }

  /**
   * A publish leaves an empty entry behind, exactly when the channel has one and nobody whose writer is
   * still alive wants it.
   */
  lemma PublishEmptiesIff(acts: seq<Action>, c: Channel, m: ByteString)
    requires After(acts).Some? && c in After(acts).value.registry
    ensures var s := After(acts).value; var s' := Do(s, Publish(c, m));
            && c in s'.registry
            && (s'.registry[c] == {} <==>
              forall id :: id in s.sessions && s.sessions[id].writer ==> !Wants(s.sessions[id], c))
  {
    hide After, Wants;
    var s := After(acts).value;
    ReachableInv(acts);
    forall id: Id
      ensures id in s.registry[c] * Writers(s) <==>
                id in s.sessions && s.sessions[id].writer && Wants(s.sessions[id], c)
    {
      assert Agree(s, id, c);
    }
  }

  lemma TakeStep(acts: seq<Action>, a: Action)
    requires After(acts).Some? && Enabled(After(acts).value, a)
    ensures After(acts + [a]) == Some(Do(After(acts).value, a))
  {
    assert (acts + [a])[..|acts|] == acts;
  }

  /** It does happen: a lone subscriber's writer dies, and the next publish leaves its channel with nobody. */
  lemma EmptyEntryIsReachable(c: Channel, m: ByteString) returns (acts: seq<Action>)
    ensures After(acts).Some? && After(acts).value.registry == map[c := {}]
  {
    hide After;
    NothingYet();
    TakeStep([], Connect(0));
    var a1 := [] + [Connect(0)];
    TakeStep(a1, JoinRegistry(0, c));
    var a2 := a1 + [JoinRegistry(0, c)];
    TakeStep(a2, JoinSet(0));
    var a3 := a2 + [JoinSet(0)];
    TakeStep(a3, WriterQuits(0));
    var a4 := a3 + [WriterQuits(0)];
    var nobody: set<Id> := {};
    assert After(a2).value.registry == map[c := nobody + {0}] && nobody + {0} == {0};
    assert Writers(After(a4).value) == nobody && {0} * nobody == nobody;
    TakeStep(a4, Publish(c, m));
    acts := a4 + [Publish(c, m)];
  }

  lemma NothingYet()
    ensures After([]) == Some(START)
  {
  }

  /** Once every session has left, nothing is left in the registry, whatever pruning did on the way. */
  lemma RegistryEmptiesOut(acts: seq<Action>)
    requires After(acts).Some?
    requires forall id :: id in After(acts).value.sessions ==>
               After(acts).value.sessions[id].phase.Dropped? || After(acts).value.sessions[id].phase.Ended?
    ensures After(acts).value.registry == map[]
  {
    hide After;
    var s := After(acts).value;
    ReachableInv(acts);
    assert forall c: Channel :: !Wanted(s, c);
  }

  // ---- Teardown ----

  /** A session waiting to join its writer has no sender left, so the writer is never parked for good. */
  lemma JoinCannotDeadlock(acts: seq<Action>, id: Id)
    requires After(acts).Some? && id in After(acts).value.sessions
    requires var me := After(acts).value.sessions[id]; me.phase.Dropped? || me.phase.Ended?
    ensures var s := After(acts).value; var me := s.sessions[id];
            && me.senders == 0
            && (me.writer ==> Enabled(s, if me.queue != [] then Deliver(id) else WriterReleased(id)))
            && (me.phase.Dropped? && !me.writer ==> Enabled(s, Join(id)))
  {
    hide After;
    ReachableInv(acts);
    SendersGone(After(acts).value, id);
  }

  /** How many steps of its own the writer has left before it exits. */
  function Rank(me: Session): nat {
    if me.writer then |me.queue| + 1 else 0
  }

  predicate IsWriterStep(a: Action, id: Id) {
    a == Deliver(id) || a == WriterQuits(id) || a == WriterReleased(id)
  }

  predicate Gone(s: State, id: Id) {
    id in s.sessions && (s.sessions[id].phase.Dropped? || s.sessions[id].phase.Ended?)
  }

  lemma ActDrains(me: Session, a: Action, held: bool)
    requires Ready(me, a) && (me.phase.Dropped? || me.phase.Ended?) && me.midway.Settled?
    ensures var me' := Act(me, a, held);
            && (me'.phase.Dropped? || me'.phase.Ended?)
            && Rank(me') + (if a.Deliver? || a.WriterQuits? || a.WriterReleased? then 1 else 0) <= Rank(me)
  {
  }

  /** Nobody can add work for a writer whose read half is gone, and each of its own steps uses some up. */
  lemma WriterDrains(s: State, a: Action, id: Id)
    requires Inv(s) && Enabled(s, a) && Gone(s, id)
    ensures Gone(Do(s, a), id)
    ensures Rank(Do(s, a).sessions[id]) + (if IsWriterStep(a, id) then 1 else 0) <= Rank(s.sessions[id])
  {
    hide RegistryAfter, Act, Ready;
    assert SessionInv(s, id);
    if a.Publish? {
      assert Agree(s, id, a.channel);
    } else if !a.Connect? && a.id == id {
      var held := (a.JoinRegistry? || a.PartRegistry? || a.LeaveOne?) && Registered(s.registry, a.channel, a.id);
      ActDrains(s.sessions[id], a, held);
    }
  }

  function RunFrom(s: State, acts: seq<Action>): Option<State>
    decreases acts
  {
    if acts == [] then Some(s)
    else if Enabled(s, acts[0]) then RunFrom(Do(s, acts[0]), acts[1..])
    else None
  }

  function WriterSteps(acts: seq<Action>, id: Id): nat {
    if acts == [] then 0 else WriterSteps(acts[1..], id) + if IsWriterStep(acts[0], id) then 1 else 0
  }

  /** From the join on, whatever else happens, the writer exits within its backlog plus one of its own steps. */
  lemma {:induction false} WriterExitsInTime(s: State, more: seq<Action>, id: Id)
    requires Inv(s) && Gone(s, id) && RunFrom(s, more).Some?
    ensures Gone(RunFrom(s, more).value, id)
    ensures WriterSteps(more, id) + Rank(RunFrom(s, more).value.sessions[id]) <= Rank(s.sessions[id])
    decreases more
  {
    hide Inv, Do, Enabled, Gone, Rank;
    if more != [] {
      InvStep(s, more[0]);
      WriterDrains(s, more[0], id);
      WriterExitsInTime(Do(s, more[0]), more[1..], id);
    }
  }

  // ---- What a session can always do ----

  /**
   * Nothing but its own code holds a session up: running and with no change half done, it can join, part,
   * leave and, while its writer lives, reply; the writer can send whatever is queued, or die.
   */
  lemma RunningSessionIsFree(s: State, id: Id, c: Channel, bytes: ByteString)
    requires id in s.sessions
    ensures var me := s.sessions[id];
            && (me.phase.Running? && me.midway.Settled? ==>
                  Enabled(s, JoinRegistry(id, c)) && Enabled(s, PartRegistry(id, c)) && Enabled(s, StartLeaving(id)))
            && (me.phase.Running? && me.writer ==> Enabled(s, Reply(id, bytes)))
            && (me.writer ==> Enabled(s, WriterQuits(id)) && (me.queue != [] ==> Enabled(s, Deliver(id))))
    ensures Enabled(s, Publish(c, bytes))
  {
  }

  // ---- Leaving for good ----

  lemma {:induction false} RunOn(s: State, first: seq<Action>, more: seq<Action>)
    requires RunFrom(s, first).Some?
    ensures RunFrom(s, first + more) == RunFrom(RunFrom(s, first).value, more)
    decreases first
  {
    hide Do, Enabled;
    if first == [] {
      assert first + more == more;
    } else {
      assert (first + more)[0] == first[0] && (first + more)[1..] == first[1..] + more;
      RunOn(Do(s, first[0]), first[1..], more);
    }
  }

  lemma OneStep(s: State, a: Action)
    requires Enabled(s, a)
    ensures RunFrom(s, [a]) == Some(Do(s, a))
  {
    assert [a][1..] == [];
  }

  /** One step of its own, and the session is as far as the rest of its steps can take it from there. */
  lemma StepThen(s: State, a: Action, more: seq<Action>)
    requires Enabled(s, a) && RunFrom(Do(s, a), more).Some?
    ensures RunFrom(s, [a] + more) == RunFrom(Do(s, a), more)
  {
    hide Do, Enabled;
    OneStep(s, a);
    RunOn(s, [a], more);
  }

  predicate EndsAfter(s: State, more: seq<Action>, id: Id) {
    && RunFrom(s, more).Some? && id in RunFrom(s, more).value.sessions
    && RunFrom(s, more).value.sessions[id].phase.Ended?
    && forall i :: 0 <= i < |more| ==> OwnStepOf(more[i], id)
  }

  predicate OwnStepOf(a: Action, id: Id) {
    !a.Connect? && !a.Publish? && a.id == id
  }

  /** Writer last: send what is queued, go once no sender is left, and let the session join it. */
  lemma {:induction false} CanJoin(s: State, id: Id) returns (more: seq<Action>)
    requires Inv(s) && id in s.sessions && s.sessions[id].phase.Dropped?
    ensures EndsAfter(s, more, id)
    decreases Rank(s.sessions[id])
  {
    hide Inv, Do, RunFrom;
    DroppedCanMove(s, id);
    var a := NextOfDropped(s.sessions[id], id);
    if a.Join? {
      OneStep(s, a);
      more := [a];
    } else {
      InvStep(s, a);
      var rest := CanJoin(Do(s, a), id);
      StepThen(s, a, rest);
      more := [a] + rest;
    }
  }

  function NextOfDropped(me: Session, id: Id): Action {
    if !me.writer then Join(id) else if me.queue != [] then Deliver(id) else WriterReleased(id)
  }

  lemma DroppedCanMove(s: State, id: Id)
    requires Inv(s) && id in s.sessions && s.sessions[id].phase.Dropped?
    ensures var a := NextOfDropped(s.sessions[id], id);
            && Enabled(s, a) && id in Do(s, a).sessions
            && (if a.Join? then Do(s, a).sessions[id].phase.Ended?
                else Do(s, a).sessions[id].phase.Dropped? && Rank(Do(s, a).sessions[id]) < Rank(s.sessions[id]))
  {
    SendersGone(s, id);
  }

  lemma SendersGone(s: State, id: Id)
    requires Inv(s) && id in s.sessions && (s.sessions[id].phase.Dropped? || s.sessions[id].phase.Ended?)
    ensures s.sessions[id].senders == 0 && ChannelsOf(s.registry, id) == {}
  {
    assert SessionInv(s, id);
    forall c: Channel
      ensures !Registered(s.registry, c, id)
    {
      assert Agree(s, id, c);
    }
    ChannelsMember(s.registry, id);
  }

  /** Leaving: every channel still to leave, then the read half. */
  lemma {:induction false} CanLeave(s: State, id: Id) returns (more: seq<Action>)
    requires Inv(s) && id in s.sessions && s.sessions[id].phase.Leaving?
    ensures EndsAfter(s, more, id)
    decreases |s.sessions[id].phase.todo|
  {
    hide Inv, RunFrom, RegistryAfter, Registered;
    var a, rest;
    if s.sessions[id].phase.todo == {} {
      a := DropReadHalf(id);
      InvStep(s, a);
      rest := CanJoin(Do(s, a), id);
    } else {
      var c :| c in s.sessions[id].phase.todo;
      a := LeaveOne(id, c);
      InvStep(s, a);
      rest := CanLeave(Do(s, a), id);
    }
    StepThen(s, a, rest);
    more := [a] + rest;
  }

  /**
   * From any reachable state a session still running can be torn down to its end by steps of its own
   * alone, whatever it is subscribed to, has queued or is in the middle of.
   */
  lemma TeardownCompletes(acts: seq<Action>, id: Id) returns (more: seq<Action>)
    requires After(acts).Some? && id in After(acts).value.sessions && After(acts).value.sessions[id].phase.Running?
    ensures EndsAfter(After(acts).value, more, id)
  {
    hide After, Inv, RunFrom, RegistryAfter, Registered;
    var s := After(acts).value;
    ReachableInv(acts);
    if s.sessions[id].midway.Settled? {
      more := CanStop(s, id);
    } else {
      var a := if s.sessions[id].midway.Joining? then JoinSet(id) else PartSet(id);
      InvStep(s, a);
      var rest := CanStop(Do(s, a), id);
      StepThen(s, a, rest);
      more := [a] + rest;
    }
  }

  lemma CanStop(s: State, id: Id) returns (more: seq<Action>)
    requires Inv(s) && id in s.sessions && s.sessions[id].phase.Running? && s.sessions[id].midway.Settled?
    ensures EndsAfter(s, more, id)
  {
    hide Inv, RunFrom, RegistryAfter;
    var a := StartLeaving(id);
    InvStep(s, a);
    var rest := CanLeave(Do(s, a), id);
    StepThen(s, a, rest);
    more := [a] + rest;
  }

  // ---- What a client is sent ----

  /** The channels `id` has joined and not parted, going by the steps alone. */
  function MemberOf(acts: seq<Action>, id: Id): set<Channel> {
    if acts == [] then {}
    else
      var before := MemberOf(acts[..|acts| - 1], id);
      match acts[|acts| - 1]
      case JoinRegistry(who, c) => if who == id then before + {c} else before
      case PartRegistry(who, c) => if who == id then before - {c} else before
      case LeaveOne(who, c) => if who == id then before - {c} else before
      case _ => before
  }

  predicate WriterIsGone(acts: seq<Action>, id: Id) {
    WriterQuits(id) in acts || WriterReleased(id) in acts
  }

  /**
   * Everything addressed to `id` while its writer lived, going by the steps alone: its own replies, and what
   * was published on channels it was a member of at the time, interleaved as they were issued.
   */
  function Addressed(acts: seq<Action>, id: Id): seq<Packet> {
    if acts == [] then []
    else
      var front := acts[..|acts| - 1];
      Addressed(front, id) +
      if WriterIsGone(front, id) then []
      else
        match acts[|acts| - 1]
        case Reply(who, bytes) => if who == id then [Own(bytes)] else []
        case Publish(c, m) => if c in MemberOf(front, id) then [Push(c, m)] else []
        case _ => []
  }

  lemma StepsNext(acts: seq<Action>, a: Action, id: Id)
    ensures MemberOf(acts + [a], id) ==
            (if a.JoinRegistry? && a.id == id then MemberOf(acts, id) + {a.channel}
             else if (a.PartRegistry? || a.LeaveOne?) && a.id == id then MemberOf(acts, id) - {a.channel}
             else MemberOf(acts, id))
    ensures WriterIsGone(acts + [a], id) <==> WriterIsGone(acts, id) || a == WriterQuits(id) || a == WriterReleased(id)
    ensures Addressed(acts + [a], id) ==
            Addressed(acts, id) +
            (if WriterIsGone(acts, id) then []
             else if a.Reply? && a.id == id then [Own(a.bytes)]
             else if a.Publish? && a.channel in MemberOf(acts, id) then [Push(a.channel, a.message)]
             else [])
  {
    assert (acts + [a])[..|acts|] == acts;
  }

  /** Socket and queue together hold exactly what was addressed; a dead writer delivered a prefix of it. */
  predicate TrafficInv(acts: seq<Action>, s: State, id: Id) {
    if id !in s.sessions then MemberOf(acts, id) == {} && !WriterIsGone(acts, id) && Addressed(acts, id) == []
    else
      var me := s.sessions[id];
      && (me.writer <==> !WriterIsGone(acts, id))
      && (me.writer ==> ChannelsOf(s.registry, id) == MemberOf(acts, id))
      && (me.writer ==> me.sent + me.queue == Addressed(acts, id))
      && me.sent <= Addressed(acts, id)
  }

  /** How a session's packets move in a step: one is queued, one is sent, or the queue is lost with the writer. */
  lemma PacketsMove(s: State, a: Action, id: Id)
    requires Enabled(s, a) && id in s.sessions && id in Do(s, a).sessions && !a.Publish?
    ensures var me, me' := s.sessions[id], Do(s, a).sessions[id];
            && (me'.writer <==> me.writer && a != WriterQuits(id) && a != WriterReleased(id))
            && (me'.writer ==>
                  me'.sent + me'.queue == me.sent + me.queue + if a.Reply? && a.id == id then [Own(a.bytes)] else [])
            && (me'.sent == me.sent || (me'.writer && me'.sent <= me.sent + me.queue))
  {
    hide RegistryAfter, Registered;
    var me := s.sessions[id];
    assert me.sent + me.queue + [] == me.sent + me.queue;
    if a.Reply? && a.id == id {
      Sequences.Associative(me.sent, me.queue, [Own(a.bytes)]);
    } else if a == Deliver(id) {
      assert me.queue == [me.queue[0]] + me.queue[1..];
      Sequences.Associative(me.sent, [me.queue[0]], me.queue[1..]);
    }
  }

  lemma TrafficStep(acts: seq<Action>, s: State, a: Action, id: Id)
    requires Inv(s) && Enabled(s, a) && TrafficInv(acts, s, id)
    ensures TrafficInv(acts + [a], Do(s, a), id)
  {
    hide MemberOf, Addressed, WriterIsGone, ChannelsOf, RegistryAfter, Registered, Act, Ready;
    StepsNext(acts, a, id);
    ChannelsStep(s, a, id);
    assert Addressed(acts, id) + [] == Addressed(acts, id);
    if id !in s.sessions {
      if a == Connect(id) {
        UnknownUnregistered(s, id);
        NothingSent();
      }
    } else if a.Publish? {
      PublishTraffic(acts, s, a.channel, a.message, id);
    } else {
      PacketsMove(s, a, id);
    }
  }

  lemma NothingSent()
    ensures var none: seq<Packet> := []; none + none == none
  {
  }

  lemma PublishTraffic(acts: seq<Action>, s: State, c: Channel, m: ByteString, id: Id)
    requires Inv(s) && TrafficInv(acts, s, id) && id in s.sessions
    ensures TrafficInv(acts + [Publish(c, m)], Do(s, Publish(c, m)), id)
  {
    hide MemberOf, Addressed, WriterIsGone, ChannelsOf, RegistryAfter, Registered;
    var me := s.sessions[id];
    StepsNext(acts, Publish(c, m), id);
    ChannelsStep(s, Publish(c, m), id);
    ChannelsMember(s.registry, id);
    Sequences.Associative(me.sent, me.queue, [Push(c, m)]);
    assert Addressed(acts, id) + [] == Addressed(acts, id);
  }

  lemma {:induction false} ReachableTraffic(acts: seq<Action>, id: Id)
    requires After(acts).Some?
    ensures TrafficInv(acts, After(acts).value, id)
  {
    if acts != [] {
      hide Inv, Do, Enabled, TrafficInv;
      var front, a := acts[..|acts| - 1], acts[|acts| - 1];
      ReachableTraffic(front, id);
      ReachableInv(front);
      TrafficStep(front, After(front).value, a, id);
      assert front + [a] == acts;
    }
  }

  /**
   * Delivery: while a session's writer lives, what it has sent and still queues is, packet for packet and in
   * order, everything addressed to the session. Once the writer is gone, what it sent is a prefix of that.
   */
  lemma TrafficIsExact(acts: seq<Action>, id: Id)
    requires After(acts).Some? && id in After(acts).value.sessions
    ensures var me := After(acts).value.sessions[id];
            && me.sent <= Addressed(acts, id)
            && (!WriterIsGone(acts, id) ==> me.sent + me.queue == Addressed(acts, id))
  {
    hide After, Addressed;
    ReachableTraffic(acts, id);
  }
}
