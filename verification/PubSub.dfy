/** The subscription registry, as the functions its three operations compute. */
module Registry {
  import opened Bytes

  type Id = nat
  type Channel = ByteString

  /** Channel name to the sessions registered under it. An entry can be empty after pruning. */
  type Registry = map<Channel, set<Id>>

  function Register(reg: Registry, c: Channel, id: Id): Registry {
    reg[c := (if c in reg then reg[c] else {}) + {id}]
  }

  /** Remove the session; drop the channel once nobody is left under it. */
  function Unregister(reg: Registry, c: Channel, id: Id): Registry {
    if c !in reg then reg
    else if reg[c] - {id} == {} then reg - {c}
    else reg[c := reg[c] - {id}]
  }

  /** A publish prunes the subscribers whose receiver is gone, and keeps the channel even if that empties it. */
  function Prune(reg: Registry, c: Channel, alive: set<Id>): Registry {
    if c in reg then reg[c := reg[c] * alive] else reg
  }

  predicate Registered(reg: Registry, c: Channel, id: Id) {
    c in reg && id in reg[c]
  }

  lemma UnregisterMoves(reg: Registry, c: Channel, id: Id)
    ensures forall d: Channel :: d in Unregister(reg, c, id) <==> d in reg && (d == c ==> reg[c] - {id} != {})
    ensures forall d: Channel, other: Id ::
              Registered(Unregister(reg, c, id), d, other) <==> Registered(reg, d, other) && !(d == c && other == id)
  {
    forall d: Channel, other: Id
      ensures Registered(Unregister(reg, c, id), d, other) <==> Registered(reg, d, other) && !(d == c && other == id)
    {
      if Registered(reg, c, other) && other != id {
        assert other in reg[c] - {id};
      }
    }
  }

  /** The channels a session is registered under. */
  function ChannelsOf(reg: Registry, id: Id): set<Channel> {
    set c | c in reg && id in reg[c]
  }
}

/**
 * Sessions, their writer threads and the shared registry, step by step. A session changes the
 * registry first and its own set afterwards, so the states in between are states too.
 */
module PubSubModel {
  import opened Wrappers
  import opened Bytes
  import opened Registry

  /** The half-done change of a session: registry updated, own set not yet. */
  datatype Midway = Settled | Joining(channel: Channel) | Parting(channel: Channel)

  /**
   * `Running` its command loop; `Leaving`, with the channels still to unsubscribe; `Dropped`, its read
   * half gone and itself waiting to join the writer; `Ended`.
   */
  datatype Phase = Running | Leaving(todo: set<Channel>) | Dropped | Ended

  datatype Packet = Push(channel: Channel, message: ByteString) | Own(bytes: ByteString)

  /** `senders` counts live senders to `queue`; `sent` is what the writer has put on the socket. */
  datatype Session = Session(
    subs: set<Channel>,
    midway: Midway,
    phase: Phase,
    writer: bool,
    senders: int,
    queue: seq<Packet>,
    sent: seq<Packet>)

  datatype State = State(registry: Registry, sessions: map<Id, Session>)

  datatype Action =
    | Connect(id: Id)
    | JoinRegistry(id: Id, channel: Channel)
    | JoinSet(id: Id)
    | PartRegistry(id: Id, channel: Channel)
    | PartSet(id: Id)
    | Publish(channel: Channel, message: ByteString)
    | Reply(id: Id, bytes: ByteString)
    | Deliver(id: Id)
    | WriterQuits(id: Id)
    | WriterReleased(id: Id)
    | StartLeaving(id: Id)
    | LeaveOne(id: Id, channel: Channel)
    | DropReadHalf(id: Id)
    | Join(id: Id)

  const START: State := State(map[], map[])

  /** Whether the session is at the point in its own code where the step can be taken. */
  predicate Ready(me: Session, a: Action) {
    match a
    case JoinRegistry(_, _) => me.phase.Running? && me.midway.Settled?
    case PartRegistry(_, _) => me.phase.Running? && me.midway.Settled?
    case JoinSet(_) => me.midway.Joining?
    case PartSet(_) => me.midway.Parting?
    case Reply(_, _) => me.phase.Running? && me.writer
    case Deliver(_) => me.writer && me.queue != []
    case WriterQuits(_) => me.writer
    case WriterReleased(_) => me.writer && me.senders == 0 && me.queue == []
    case StartLeaving(_) => me.phase.Running? && me.midway.Settled?
    case LeaveOne(_, c) => me.phase.Leaving? && c in me.phase.todo
    case DropReadHalf(_) => me.phase == Leaving({})
    case Join(_) => me.phase.Dropped? && !me.writer
    case _ => false
  }

  predicate Enabled(s: State, a: Action) {
    if a.Connect? then a.id !in s.sessions
    else if a.Publish? then true
    else a.id in s.sessions && Ready(s.sessions[a.id], a)
  }

  function Bump(b: bool): int {
    if b then 1 else 0
  }

  /** The acting session after its own step; `held` says whether it was registered under the channel named. */
  function Act(me: Session, a: Action, held: bool): Session
    requires Ready(me, a)
  {
    match a
    case JoinRegistry(_, c) => me.(midway := Joining(c), senders := me.senders + 1 - Bump(held))
    case JoinSet(_) => me.(subs := me.subs + {me.midway.channel}, midway := Settled)
    case PartRegistry(_, c) => me.(midway := Parting(c), senders := me.senders - Bump(held))
    case PartSet(_) => me.(subs := me.subs - {me.midway.channel}, midway := Settled)
    case Reply(_, bytes) => me.(queue := me.queue + [Own(bytes)])
    case Deliver(_) => me.(queue := me.queue[1..], sent := me.sent + [me.queue[0]])
    case WriterQuits(_) => me.(writer := false, queue := [])
    case WriterReleased(_) => me.(writer := false)
    case StartLeaving(_) => me.(phase := Leaving(me.subs))
    case LeaveOne(_, c) => me.(phase := Leaving(me.phase.todo - {c}), senders := me.senders - Bump(held))
    case DropReadHalf(_) => me.(phase := Dropped, senders := me.senders - 1)
    case Join(_) => me.(phase := Ended)
  }

  /** A publish on one session: delivered to a registered live one, its sender dropped from a dead one. */
  function Receive(me: Session, registered: bool, c: Channel, m: ByteString): Session {
    if !registered then me
    else if me.writer then me.(queue := me.queue + [Push(c, m)])
    else me.(senders := me.senders - 1)
  }

  function Writers(s: State): set<Id> {
    set id | id in s.sessions && s.sessions[id].writer
  }

  function RegistryAfter(s: State, a: Action): Registry {
    match a
    case JoinRegistry(id, c) => Register(s.registry, c, id)
    case PartRegistry(id, c) => Unregister(s.registry, c, id)
    case LeaveOne(id, c) => Unregister(s.registry, c, id)
    case Publish(c, _) => Prune(s.registry, c, Writers(s))
    case _ => s.registry
  }

  function SessionsAfter(s: State, a: Action): map<Id, Session>
    requires Enabled(s, a)
  {
    match a
    case Connect(id) => s.sessions[id := Session({}, Settled, Running, true, 1, [], [])]
    case Publish(c, m) =>
      map id | id in s.sessions :: Receive(s.sessions[id], Registered(s.registry, c, id), c, m)
    case _ =>
      var held := (a.JoinRegistry? || a.PartRegistry? || a.LeaveOne?) && Registered(s.registry, a.channel, a.id);
      s.sessions[a.id := Act(s.sessions[a.id], a, held)]
  }

  function Do(s: State, a: Action): State
    requires Enabled(s, a)
  {
    State(RegistryAfter(s, a), SessionsAfter(s, a))
  }

  function After(acts: seq<Action>): Option<State> {
    if acts == [] then Some(START)
    else
      match After(acts[..|acts| - 1])
      case None => None
      case Some(s) =>
        var a := acts[|acts| - 1];
        if Enabled(s, a) then Some(Do(s, a)) else None
  }

  // ---- The invariant ----

  /** The session means to be registered under `c`. With no change half done, that is membership in its set. */
  predicate Wants(me: Session, c: Channel) {
    match me.phase
    case Running => me.midway == Joining(c) || (c in me.subs && me.midway != Parting(c))
    case Leaving(todo) => c in todo
    case _ => false
  }

  predicate HoldsReadHalf(me: Session) {
    me.phase.Running? || me.phase.Leaving?
  }

  /** The session's own side: the sender count, and no change half done outside the command loop. */
  predicate SessionInv(s: State, id: Id)
    requires id in s.sessions
  {
    var me := s.sessions[id];
    && (!me.phase.Running? ==> me.midway.Settled?)
    && me.senders == Bump(HoldsReadHalf(me)) + |ChannelsOf(s.registry, id)|
    && (!me.writer ==> me.queue == [])
  }

  /** Registry and session agree on `c`: registered only if wanted, and wanted is registered while the writer lives. */
  predicate Agree(s: State, id: Id, c: Channel) {
    && (Registered(s.registry, c, id) ==> id in s.sessions && Wants(s.sessions[id], c))
    && (id in s.sessions && s.sessions[id].writer && Wants(s.sessions[id], c) ==> Registered(s.registry, c, id))
  }

  /** Some session that has not ended wants the channel. */
  predicate Wanted(s: State, c: Channel) {
    exists id :: id in s.sessions && Wants(s.sessions[id], c)
  }

  ghost predicate Inv(s: State) {
    && (forall id :: id in s.sessions ==> SessionInv(s, id))
    && (forall id: Id, c: Channel :: Agree(s, id, c))
    && (forall c :: c in s.registry ==> Wanted(s, c))
  }

  // ---- Preservation ----

  /** Membership in the registry after a step. */
  lemma RegistryStep(s: State, a: Action, id: Id, c: Channel)
    ensures Registered(RegistryAfter(s, a), c, id) <==>
            (if a == JoinRegistry(id, c) then true
             else if a == PartRegistry(id, c) || a == LeaveOne(id, c) then false
             else if a.Publish? && a.channel == c then Registered(s.registry, c, id) && id in Writers(s)
             else Registered(s.registry, c, id))
  {
    if (a.PartRegistry? || a.LeaveOne?) && Registered(s.registry, a.channel, id) && id != a.id {
      assert id in s.registry[a.channel] - {a.id};
    }
  }

  /** The channels a session is registered under, after a step. */
  lemma ChannelsStep(s: State, a: Action, id: Id)
    ensures ChannelsOf(RegistryAfter(s, a), id) ==
            (if a.JoinRegistry? && a.id == id then ChannelsOf(s.registry, id) + {a.channel}
             else if (a.PartRegistry? || a.LeaveOne?) && a.id == id then ChannelsOf(s.registry, id) - {a.channel}
             else if a.Publish? && id !in Writers(s) then ChannelsOf(s.registry, id) - {a.channel}
             else ChannelsOf(s.registry, id))
  {
    hide RegistryAfter;
    forall c: Channel
      ensures Registered(RegistryAfter(s, a), c, id) <==> c in ChannelsOf(RegistryAfter(s, a), id)
      ensures Registered(s.registry, c, id) <==> c in ChannelsOf(s.registry, id)
    {
    }
    forall c: Channel {
      RegistryStep(s, a, id, c);
    }
  }

  lemma UnknownUnregistered(s: State, id: Id)
    requires Inv(s) && id !in s.sessions
    ensures ChannelsOf(s.registry, id) == {}
  {
    if c :| c in ChannelsOf(s.registry, id) {
      assert Registered(s.registry, c, id) && Agree(s, id, c);
    }
  }

  lemma ActWishes(me: Session, a: Action, held: bool, c: Channel)
    requires Ready(me, a) && (!me.phase.Running? ==> me.midway.Settled?)
    ensures Wants(Act(me, a, held), c) <==>
            (if a.JoinRegistry? && a.channel == c then true
             else if (a.PartRegistry? || a.LeaveOne?) && a.channel == c then false
             else Wants(me, c))
    ensures Act(me, a, held).writer <==> me.writer && !a.WriterQuits? && !a.WriterReleased?
  {
  }

  /** What each step makes of a session's wishes: only joining, parting and leaving change them. */
  lemma WishesStep(s: State, a: Action, id: Id, c: Channel)
    requires Inv(s) && Enabled(s, a) && id in s.sessions
    ensures id in Do(s, a).sessions
    ensures Wants(Do(s, a).sessions[id], c) <==>
            (if a == JoinRegistry(id, c) then true
             else if a == PartRegistry(id, c) || a == LeaveOne(id, c) then false
             else Wants(s.sessions[id], c))
    ensures Do(s, a).sessions[id].writer ==> s.sessions[id].writer
  {
    hide Act, Ready, RegistryAfter;
    assert SessionInv(s, id);
    if !a.Connect? && !a.Publish? && a.id == id {
      var held := (a.JoinRegistry? || a.PartRegistry? || a.LeaveOne?) && Registered(s.registry, a.channel, id);
      ActWishes(s.sessions[id], a, held, c);
    }
  }

  lemma AgreeStep(s: State, a: Action, id: Id, c: Channel)
    requires Inv(s) && Enabled(s, a)
    ensures Agree(Do(s, a), id, c)
  {
    assert Agree(s, id, c);
    RegistryStep(s, a, id, c);
    if id in s.sessions {
      hide RegistryAfter, SessionsAfter, Wants, Registered;
      WishesStep(s, a, id, c);
    } else {
      hide RegistryAfter, Registered;
    }
  }

  /** The sender count moves with the clones made and dropped by the step. */
  lemma ActCounts(me: Session, a: Action, held: bool)
    requires Ready(me, a) && (!me.phase.Running? ==> me.midway.Settled?) && (!me.writer ==> me.queue == [])
    ensures var me' := Act(me, a, held);
            && (!me'.phase.Running? ==> me'.midway.Settled?)
            && (!me'.writer ==> me'.queue == [])
            && me'.senders - Bump(HoldsReadHalf(me')) == me.senders - Bump(HoldsReadHalf(me)) +
                 (if a.JoinRegistry? then 1 - Bump(held) else if a.PartRegistry? || a.LeaveOne? then -Bump(held) else 0)
  {
  }

  /** Adding or removing one channel changes the number of registrations by what the sender count records. */
  lemma RegistrationsCount(s: State, a: Action)
    requires !a.Connect? && !a.Publish?
    ensures var held := (a.JoinRegistry? || a.PartRegistry? || a.LeaveOne?) && Registered(s.registry, a.channel, a.id);
            |ChannelsOf(RegistryAfter(s, a), a.id)| == |ChannelsOf(s.registry, a.id)| +
              (if a.JoinRegistry? then 1 - Bump(held) else if a.PartRegistry? || a.LeaveOne? then -Bump(held) else 0)
  {
    hide RegistryAfter;
    ChannelsStep(s, a, a.id);
    if a.JoinRegistry? || a.PartRegistry? || a.LeaveOne? {
      var before := ChannelsOf(s.registry, a.id);
      assert Registered(s.registry, a.channel, a.id) <==> a.channel in before;
      assert a.channel in before ==> before + {a.channel} == before;
      assert a.channel !in before ==> before - {a.channel} == before;
    }
  }

  lemma OwnStep(s: State, a: Action)
    requires Inv(s) && Enabled(s, a) && !a.Connect? && !a.Publish?
    ensures a.id in Do(s, a).sessions && SessionInv(Do(s, a), a.id)
  {
    hide RegistryAfter, ChannelsOf, Act, Ready, Registered;
    var id := a.id;
    var held := (a.JoinRegistry? || a.PartRegistry? || a.LeaveOne?) && Registered(s.registry, a.channel, id);
    assert SessionInv(s, id);
    RegistrationsCount(s, a);
    ActCounts(s.sessions[id], a, held);
    assert Do(s, a).sessions[id] == Act(s.sessions[id], a, held);
  }

  lemma PublishStep(s: State, c: Channel, m: ByteString, id: Id)
    requires Inv(s) && id in s.sessions
    ensures SessionInv(Do(s, Publish(c, m)), id)
  {
    hide RegistryAfter, ChannelsOf, Registered;
    assert SessionInv(s, id);
    ChannelsStep(s, Publish(c, m), id);
    ChannelsMember(s.registry, id);
  }

  lemma SessionStep(s: State, a: Action, id: Id)
    requires Inv(s) && Enabled(s, a) && id in Do(s, a).sessions
    ensures SessionInv(Do(s, a), id)
  {
    hide RegistryAfter, ChannelsOf, Act, Ready;
    ChannelsStep(s, a, id);
    if a.Connect? && a.id == id {
      UnknownUnregistered(s, id);
    } else if a.Publish? {
      PublishStep(s, a.channel, a.message, id);
    } else if a.id == id {
      OwnStep(s, a);
    } else {
      assert SessionInv(s, id);
    }
  }

  lemma ChannelsMember(reg: Registry, id: Id)
    ensures forall c: Channel :: c in ChannelsOf(reg, id) <==> Registered(reg, c, id)
  {
  }

  lemma WantedStep(s: State, a: Action, c: Channel)
    requires Inv(s) && Enabled(s, a) && c in Do(s, a).registry
    ensures Wanted(Do(s, a), c)
  {
    var s' := Do(s, a);
    if a.JoinRegistry? && a.channel == c {
      WishesStep(s, a, a.id, c);
    } else if (a.PartRegistry? || a.LeaveOne?) && a.channel == c {
      // The entry is still there, so somebody else is registered under it.
      var other :| other in s'.registry[c];
      assert Registered(s.registry, c, other) && Agree(s, other, c);
      WishesStep(s, a, other, c);
    } else {
      assert Wanted(s, c);
      var id :| id in s.sessions && Wants(s.sessions[id], c);
      WishesStep(s, a, id, c);
    }
  }

  lemma InvStep(s: State, a: Action)
    requires Inv(s) && Enabled(s, a)
    ensures Inv(Do(s, a))
  {
    hide Do, SessionInv, Agree, Wanted;
    forall id | id in Do(s, a).sessions
      ensures SessionInv(Do(s, a), id)
    {
      SessionStep(s, a, id);
    }
    forall id: Id, c: Channel
      ensures Agree(Do(s, a), id, c)
    {
      AgreeStep(s, a, id, c);
    }
    forall c | c in Do(s, a).registry
      ensures Wanted(Do(s, a), c)
    {
      WantedStep(s, a, c);
    }
  }

  lemma {:induction false} ReachableInv(acts: seq<Action>)
    requires After(acts).Some?
    ensures Inv(After(acts).value)
  {
    if acts != [] {
      hide Inv, Do, Enabled;
      var front, a := acts[..|acts| - 1], acts[|acts| - 1];
      ReachableInv(front);
      InvStep(After(front).value, a);
    }
  }
}
