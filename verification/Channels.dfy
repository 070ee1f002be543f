/** The shared registry object, and the read half that keeps its own set in step with it. */
module ChannelsObject {
  import opened Wrappers
  import opened Bytes
  import opened Registry

  const U32_MAX: nat := 0xFFFF_FFFF

  /** The receiving end of a session's queue. Once closed, sends to it fail. */
  datatype Mailbox = Mailbox(open: bool, queue: seq<ByteString>)

  type Post = map<Id, Mailbox>

  function OpenBoxes(post: Post): set<Id> {
    set id | id in post && post[id].open
  }

  /** A `u32` counter that stops at its limit. */
  function Capped(n: nat): nat {
    if n <= U32_MAX then n else U32_MAX
  }

  lemma CappedNext(n: nat)
    ensures Capped(n + 1) == if Capped(n) < U32_MAX then Capped(n) + 1 else Capped(n)
    ensures Capped(0) == 0
  {
  }

  /** Every mailbox in `to` gets the message at the end of its queue; the rest are as they were. */
  function Deliver(post: Post, to: set<Id>, message: ByteString): Post {
    map id | id in post :: if id in to then post[id].(queue := post[id].queue + [message]) else post[id]
  }

  lemma DeliverNext(post: Post, to: set<Id>, message: ByteString, id: Id)
    requires id in post && id !in to
    ensures Deliver(post, to + {id}, message) ==
            Deliver(post, to, message)[id := post[id].(queue := post[id].queue + [message])]
  {
  }

  lemma DeliverElsewhere(post: Post, to: set<Id>, message: ByteString, id: Id)
    requires id !in to
    ensures id in Deliver(post, to, message) <==> id in post
    ensures id in post ==> Deliver(post, to, message)[id] == post[id]
    ensures id in OpenBoxes(post) <==> id in post && post[id].open
    ensures Deliver(post, {}, message) == post
  {
  }

  /** The subscribers already served that were alive. */
  function Served(subs: set<Id>, todo: set<Id>, alive: set<Id>): set<Id> {
    (subs - todo) * alive
  }

  lemma ServedNext(subs: set<Id>, todo: set<Id>, alive: set<Id>, id: Id)
    requires id in todo && todo <= subs
    ensures id !in Served(subs, todo, alive)
    ensures Served(subs, todo - {id}, alive) == Served(subs, todo, alive) + if id in alive then {id} else {}
  {
  }

  lemma ServedEnds(subs: set<Id>, alive: set<Id>)
    ensures Served(subs, subs, alive) == {} && Served(subs, {}, alive) == subs * alive
  {
  }

  class Channels {
    var channels: Registry
    var post: Post

    constructor ()
      ensures channels == map[] && post == map[]
    {
      channels, post := map[], map[];
    }

    method Subscribe(c: Channel, id: Id)
      modifies this`channels
      ensures channels == Register(old(channels), c, id)
      ensures channels.Keys == old(channels).Keys + {c}
      ensures forall d: Channel, other: Id ::
                Registered(channels, d, other) <==> Registered(old(channels), d, other) || (d == c && other == id)
    {
      if c !in channels {
        channels := channels[c := {}];
      }
      channels := channels[c := channels[c] + {id}];
    }

    method Unsubscribe(c: Channel, id: Id)
      modifies this`channels
      ensures channels == Unregister(old(channels), c, id)
      ensures forall d: Channel :: d in channels <==> d in old(channels) && (d == c ==> old(channels)[c] - {id} != {})
      ensures forall d: Channel, other: Id ::
                Registered(channels, d, other) <==> Registered(old(channels), d, other) && !(d == c && other == id)
    {
      UnregisterMoves(channels, c, id);
      if c in channels {
        channels := channels[c := channels[c] - {id}];
        if channels[c] == {} {
          channels := channels - {c};
        }
      }
    }

    /**
     * Fan out to every subscriber of `c`: each live one gets the message once, each dead one is pruned,
     * and the count is of those reached. Nobody else's queue changes.
     */
    method Publish(message: ByteString, c: Channel) returns (sent: nat)
      modifies this
      ensures channels == Prune(old(channels), c, OpenBoxes(old(post)))
      ensures var reached := if c in old(channels) then old(channels)[c] * OpenBoxes(old(post)) else {};
              post == Deliver(old(post), reached, message) &&
              sent == if |reached| <= 4294967295 then |reached| else 4294967295
      ensures post.Keys == old(post).Keys && channels.Keys == old(channels).Keys
      ensures forall id :: id in post ==>
                post[id] == if Registered(old(channels), c, id) && old(post)[id].open
                            then Mailbox(true, old(post)[id].queue + [message]) else old(post)[id]
      ensures forall d: Channel, id: Id ::
                Registered(channels, d, id) <==>
                Registered(old(channels), d, id) && (d == c ==> id in old(post) && old(post)[id].open)
    {
      if c !in channels {
        assert post == Deliver(post, {}, message);
        return 0;
      }
      var kept;
      post, kept, sent := Retain(post, channels[c], message);
      channels := channels[c := kept];
    }
  }

  /** The `retain` of a publish: send to each subscriber in turn, keep those the send reached. */
  method Retain(before: Post, subs: set<Id>, message: ByteString) returns (post: Post, kept: set<Id>, sent: nat)
    ensures kept == subs * OpenBoxes(before)
    ensures post == Deliver(before, kept, message)
    ensures sent == Capped(|kept|)
  {
    hide Deliver, OpenBoxes, Capped, Served;
    ghost var alive := OpenBoxes(before);
    post, kept, sent := before, {}, 0;
    var todo := subs;
    DeliverElsewhere(before, {}, message, 0);
    ServedEnds(subs, alive);
    CappedNext(0);
    while todo != {}
      invariant todo <= subs && kept == Served(subs, todo, alive)
      invariant post == Deliver(before, kept, message)
      invariant sent == Capped(|kept|)
      decreases todo
    {
      var id :| id in todo;
      ServedNext(subs, todo, alive, id);
      DeliverElsewhere(before, kept, message, id);
      if id in post && post[id].open {
        CappedNext(|kept|);
        DeliverNext(before, kept, message, id);
        post := post[id := post[id].(queue := post[id].queue + [message])];
        kept := kept + {id};
        sent := if sent < U32_MAX then sent + 1 else sent;
      }
      todo := todo - {id};
    }
  }

  /** One line of a subscribe or unsubscribe acknowledgement: the channel, and the running total after it. */
  datatype Ack = Ack(channel: Option<Channel>, count: nat)

  function Elems(cs: seq<Channel>): set<Channel> {
    set c | c in cs
  }

  /** Registering under each channel of the list in turn. */
  function RegisterAll(reg: Registry, cs: seq<Channel>, id: Id): Registry {
    if cs == [] then reg else Register(RegisterAll(reg, cs[..|cs| - 1], id), cs[|cs| - 1], id)
  }

  function UnregisterAll(reg: Registry, cs: seq<Channel>, id: Id): Registry {
    if cs == [] then reg else Unregister(UnregisterAll(reg, cs[..|cs| - 1], id), cs[|cs| - 1], id)
  }

  /** One acknowledgement per channel, each with the size of the set once that channel is in, or out. */
  function JoinAcks(subs: set<Channel>, cs: seq<Channel>): seq<Ack> {
    if cs == [] then [] else JoinAcks(subs, cs[..|cs| - 1]) + [Ack(Some(cs[|cs| - 1]), |subs + Elems(cs)|)]
  }

  function PartAcks(subs: set<Channel>, cs: seq<Channel>): seq<Ack> {
    if cs == [] then [] else PartAcks(subs, cs[..|cs| - 1]) + [Ack(Some(cs[|cs| - 1]), |subs - Elems(cs)|)]
  }

  /** Acknowledgement `i` names channel `i` and counts the set as it is after that channel, the first `i` before it. */
  lemma {:induction false} AcksInTurn(subs: set<Channel>, cs: seq<Channel>, i: nat)
    requires i < |cs|
    ensures |JoinAcks(subs, cs)| == |PartAcks(subs, cs)| == |cs|
    ensures JoinAcks(subs, cs)[i] == Ack(Some(cs[i]), |subs + Elems(cs[..i + 1])|)
    ensures PartAcks(subs, cs)[i] == Ack(Some(cs[i]), |subs - Elems(cs[..i + 1])|)
  {
    hide Elems;
    var front := cs[..|cs| - 1];
    assert cs[..|cs|] == cs;
    if i < |front| {
      AcksInTurn(subs, front, i);
      assert front[..i + 1] == cs[..i + 1];
    } else if front != [] {
      AcksInTurn(subs, front, 0);
    }
  }

  /** The totals never skip: each new channel adds one, each channel left takes one away. */
  lemma RunningTotals(subs: set<Channel>, cs: seq<Channel>, c: Channel)
    ensures |subs + Elems(cs + [c])| == |subs + Elems(cs)| + if c in subs || c in cs then 0 else 1
    ensures |subs - Elems(cs + [c])| + (if c in subs && c !in cs then 1 else 0) == |subs - Elems(cs)|
  {
    assert Elems(cs + [c]) == Elems(cs) + {c};
    var joined, left := subs + Elems(cs), subs - Elems(cs);
    assert subs + Elems(cs + [c]) == joined + {c} && subs - Elems(cs + [c]) == left - {c};
    assert c in joined ==> joined + {c} == joined;
    assert c !in left ==> left - {c} == left;
  }

  lemma ElemsNext(cs: seq<Channel>, i: nat)
    requires i < |cs|
    ensures cs[..i + 1][..i] == cs[..i] && cs[..i + 1][i] == cs[i] && |cs[..i + 1]| == i + 1
    ensures Elems(cs[..i + 1]) == Elems(cs[..i]) + {cs[i]}
  {
    assert cs[..i + 1] == cs[..i] + [cs[i]];
  }

  lemma JoinNext(reg: Registry, subs: set<Channel>, cs: seq<Channel>, i: nat, id: Id)
    requires i < |cs|
    ensures RegisterAll(reg, cs[..i + 1], id) == Register(RegisterAll(reg, cs[..i], id), cs[i], id)
    ensures JoinAcks(subs, cs[..i + 1]) == JoinAcks(subs, cs[..i]) + [Ack(Some(cs[i]), |subs + Elems(cs[..i + 1])|)]
  {
    hide Register, Elems;
    ElemsNext(cs, i);
  }

  lemma PartNext(reg: Registry, subs: set<Channel>, cs: seq<Channel>, i: nat, id: Id)
    requires i < |cs|
    ensures UnregisterAll(reg, cs[..i + 1], id) == Unregister(UnregisterAll(reg, cs[..i], id), cs[i], id)
    ensures PartAcks(subs, cs[..i + 1]) == PartAcks(subs, cs[..i]) + [Ack(Some(cs[i]), |subs - Elems(cs[..i + 1])|)]
  {
    hide Unregister, Elems;
    ElemsNext(cs, i);
  }

  /** Only this session's registrations change, and exactly under the channels listed. */
  lemma {:induction false} RegisterAllMoves(reg: Registry, cs: seq<Channel>, id: Id, other: Id, c: Channel)
    ensures Registered(RegisterAll(reg, cs, id), c, other) <==>
              Registered(reg, c, other) || (other == id && c in Elems(cs))
    ensures Registered(UnregisterAll(reg, cs, id), c, other) <==>
              Registered(reg, c, other) && !(other == id && c in Elems(cs))
  {
    if cs != [] {
      var front, last := cs[..|cs| - 1], cs[|cs| - 1];
      RegisterAllMoves(reg, front, id, other, c);
      assert c in cs <==> c in front || c == last;
      var mid := UnregisterAll(reg, front, id);
      if Registered(mid, last, other) && other != id {
        assert other in mid[last] - {id};
      }
    }
  }

  /** The set is what the registry holds for the session. */
  ghost predicate Matches(reg: Registry, subs: set<Channel>, id: Id) {
    forall c: Channel :: Registered(reg, c, id) <==> c in subs
  }

  lemma MovesKeepStep(reg: Registry, subs: set<Channel>, cs: seq<Channel>, id: Id)
    requires Matches(reg, subs, id)
    ensures Matches(RegisterAll(reg, cs, id), subs + Elems(cs), id)
    ensures Matches(UnregisterAll(reg, cs, id), subs - Elems(cs), id)
  {
    hide Registered, RegisterAll, UnregisterAll, Elems;
    forall c: Channel
      ensures Registered(RegisterAll(reg, cs, id), c, id) <==> c in subs + Elems(cs)
      ensures Registered(UnregisterAll(reg, cs, id), c, id) <==> c in subs - Elems(cs)
    {
      RegisterAllMoves(reg, cs, id, id, c);
    }
  }

  lemma MatchesNothing(reg: Registry, id: Id)
    requires Matches(reg, {}, id)
    ensures ChannelsOf(reg, id) == {}
  {
    assert forall c: Channel :: c in ChannelsOf(reg, id) ==> Registered(reg, c, id);
  }

  class ReadHalf {
    const id: Id
    const hub: Channels
    var subs: set<Channel>

    constructor (id: Id, hub: Channels)
      ensures this.id == id && this.hub == hub && subs == {}
    {
      this.id, this.hub, subs := id, hub, {};
    }

    /** The session's set is what the registry holds for it. */
    ghost predicate InStep()
      reads this, hub
    {
      Matches(hub.channels, subs, id)
    }

    /** `SUBSCRIBE`: registry first, own set second, one acknowledgement per channel with the running total. */
    method Subscribe(cs: seq<Channel>) returns (acks: seq<Ack>)
      modifies this, hub`channels
      ensures subs == old(subs) + Elems(cs)
      ensures hub.channels == RegisterAll(old(hub.channels), cs, id)
      ensures old(InStep()) ==> InStep()
      ensures acks == JoinAcks(old(subs), cs)
    {
      hide RegisterAll, JoinAcks, Elems, Register, Matches;
      acks := [];
      NothingYet(hub.channels, subs, id);
      for i := 0 to |cs|
        invariant subs == old(subs) + Elems(cs[..i])
        invariant hub.channels == RegisterAll(old(hub.channels), cs[..i], id)
        invariant acks == JoinAcks(old(subs), cs[..i])
      {
        ElemsNext(cs, i);
        JoinNext(old(hub.channels), old(subs), cs, i, id);
        hub.Subscribe(cs[i], id);
        subs := subs + {cs[i]};
        assert subs == old(subs) + Elems(cs[..i + 1]);
        acks := acks + [Ack(Some(cs[i]), |subs|)];
      }
      assert cs[..|cs|] == cs;
      if old(InStep()) {
        MovesKeepStep(old(hub.channels), old(subs), cs, id);
      }
    }

    /** `UNSUBSCRIBE`: the listed channels, or all of them if none is listed; a null line if there are none. */
    method Unsubscribe(cs: seq<Channel>) returns (acks: seq<Ack>, ghost targets: seq<Channel>)
      modifies this, hub`channels
      ensures if cs != [] then targets == cs else Elems(targets) == old(subs) && |targets| == |old(subs)|
      ensures subs == old(subs) - Elems(targets)
      ensures hub.channels == UnregisterAll(old(hub.channels), targets, id)
      ensures old(InStep()) ==> InStep()
      ensures acks == if targets == [] then [Ack(None, 0)] else PartAcks(old(subs), targets)
    {
      hide UnregisterAll, PartAcks, Elems, Unregister, Matches;
      var list := cs;
      if cs == [] {
        list := Listing(subs);
      }
      targets := list;
      if list == [] {
        NothingYet(hub.channels, subs, id);
        acks := [Ack(None, |subs|)];
      } else {
        acks := LeaveAll(list);
      }
    }

    /** The unsubscribe loop over a list of channels. */
    method LeaveAll(list: seq<Channel>) returns (acks: seq<Ack>)
      modifies this`subs, hub`channels
      ensures subs == old(subs) - Elems(list)
      ensures hub.channels == UnregisterAll(old(hub.channels), list, id)
      ensures old(InStep()) ==> InStep()
      ensures acks == PartAcks(old(subs), list)
    {
      hide UnregisterAll, PartAcks, Elems, Unregister, Matches;
      acks := [];
      NothingYet(hub.channels, subs, id);
      for i := 0 to |list|
        invariant subs == old(subs) - Elems(list[..i])
        invariant hub.channels == UnregisterAll(old(hub.channels), list[..i], id)
        invariant acks == PartAcks(old(subs), list[..i])
      {
        ElemsNext(list, i);
        PartNext(old(hub.channels), old(subs), list, i, id);
        hub.Unsubscribe(list[i], id);
        subs := subs - {list[i]};
        assert subs == old(subs) - Elems(list[..i + 1]);
        acks := acks + [Ack(Some(list[i]), |subs|)];
      }
      assert list[..|list|] == list;
      if old(InStep()) {
        MovesKeepStep(old(hub.channels), old(subs), list, id);
      }
    }

    /** Disconnect clean-up: out of every channel of its set, in some order; the set itself is left alone. */
    method UnsubscribeFromAll() returns (ghost order: seq<Channel>)
      modifies hub`channels
      ensures Elems(order) == subs && hub.channels == UnregisterAll(old(hub.channels), order, id)
      ensures old(InStep()) ==> ChannelsOf(hub.channels, id) == {}
    {
      hide UnregisterAll, Elems, Unregister, Matches, ChannelsOf;
      var list := Listing(subs);
      order := list;
      NothingYet(hub.channels, subs, id);
      for i := 0 to |list|
        invariant hub.channels == UnregisterAll(old(hub.channels), list[..i], id)
      {
        PartNext(old(hub.channels), subs, list, i, id);
        hub.Unsubscribe(list[i], id);
      }
      assert list[..|list|] == list;
      if old(InStep()) {
        MovesKeepStep(old(hub.channels), subs, list, id);
        assert subs - Elems(list) == {};
        MatchesNothing(hub.channels, id);
      }
    }
  }

  lemma NothingYet(reg: Registry, subs: set<Channel>, id: Id)
    ensures RegisterAll(reg, [], id) == reg && UnregisterAll(reg, [], id) == reg
    ensures JoinAcks(subs, []) == [] && PartAcks(subs, []) == [] && Elems([]) == {}
  {
  }

  /** The members of a set in some order, as collecting a hash set gives them. */
  method Listing(cs: set<Channel>) returns (list: seq<Channel>)
    ensures Elems(list) == cs && |list| == |cs|
  {
    list := [];
    var todo := cs;
    while todo != {}
      invariant todo <= cs && Elems(list) == cs - todo && |list| == |cs| - |todo|
      decreases todo
    {
      var c :| c in todo;
      assert Elems(list + [c]) == Elems(list) + {c};
      list := list + [c];
      todo := todo - {c};
    }
  }
}
