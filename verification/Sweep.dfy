/** When keys are reclaimed is nobody's business: sweeps and stray reads do not show in any reply. */
module SweepTransparency {
  import opened Wrappers
  import opened Bytes
  import opened Commands
  import opened CacheSpec
  import Ideal

  /**
   * A command whose reply matters, with its clock readings, or an extra event (a sweep, or a read
   * nobody is asking about) that may be there or not.
   */
  datatype Op =
    | Asked(cmd: CacheCommand, now: Millis, again: Millis)
    | ExtraSweep(now: Millis)
    | ExtraRead(key: ByteString, now: Millis)

  function StepOp(m: Store, op: Op): Store {
    match op
    case Asked(c, now, _) => CommandStore(m, c, now)
    case ExtraSweep(now) => Unexpired(m, now)
    case ExtraRead(k, now) => Touch(m, k, now)
  }

  function Final(m: Store, ops: seq<Op>): Store
    decreases ops
  {
    if ops == [] then m else Final(StepOp(m, ops[0]), ops[1..])
  }

  /** The replies to what was asked. DEL's is left blank: it counts an expired key nobody has swept. */
  function Answers(m: Store, ops: seq<Op>): seq<Option<Outcome>>
    decreases ops
  {
    if ops == [] then []
    else
      var rest := Answers(StepOp(m, ops[0]), ops[1..]);
      match ops[0]
      case Asked(c, now, again) =>
        [if c.Write? && c.write.Delete? then None else Some(CommandReply(m, c, now, again))] + rest
      case _ => rest
  }

  function WithoutExtras(ops: seq<Op>): seq<Op> {
    if ops == [] then []
    else if ops[0].Asked? then [ops[0]] + WithoutExtras(ops[1..])
    else WithoutExtras(ops[1..])
  }

  predicate Ordered(ops: seq<Op>, from: Millis) {
    ops == [] || (from <= ops[0].now && Ordered(ops[1..], ops[0].now))
  }

  function LastClock(ops: seq<Op>, from: Millis): Millis {
    if ops == [] then from else LastClock(ops[1..], ops[0].now)
  }

  /** No expire command finds its key expired but still there. */
  predicate ExpiresFindNoStaleKey(m: Store, ops: seq<Op>)
    decreases ops
  {
    ops == [] ||
    (&& (ops[0].Asked? && ops[0].cmd.Write? && ops[0].cmd.write.ExpireAt? ==>
           !(ops[0].cmd.write.key in m && Due(m[ops[0].cmd.write.key], ops[0].now)))
     && ExpiresFindNoStaleKey(StepOp(m, ops[0]), ops[1..]))
  }

  /** `a` is `b`, except that some entries due by `now` may be gone from it. */
  ghost predicate Trimmed(a: Store, b: Store, now: Millis) {
    forall k: ByteString :: TrimmedAt(a, b, k, now)
  }

  predicate TrimmedAt(a: Store, b: Store, k: ByteString, now: Millis) {
    Lookup(a, k) == Lookup(b, k) || (k !in a && k in b && Due(b[k], now))
  }

  lemma ExtraTrims(a: Store, b: Store, op: Op, from: Millis)
    requires Trimmed(a, b, from) && from <= op.now && !op.Asked?
    ensures Trimmed(StepOp(a, op), b, op.now)
  {
    forall k: ByteString
      ensures TrimmedAt(StepOp(a, op), b, k, op.now)
    {
      assert TrimmedAt(a, b, k, from);
    }
  }

  /** One command on a trimmed and on an untrimmed map: same reply (DEL aside), still trimmed after. */
  lemma CommandAgrees(a: Store, b: Store, c: CacheCommand, now: Millis, again: Millis, from: Millis)
    requires Trimmed(a, b, from) && from <= now
    requires c.Write? && c.write.ExpireAt? ==> !(c.write.key in b && Due(b[c.write.key], now))
    ensures !(c.Write? && c.write.Delete?) ==> CommandReply(a, c, now, again) == CommandReply(b, c, now, again)
    ensures Trimmed(CommandStore(a, c, now), CommandStore(b, c, now), now)
  {
    var key := if c.Read? then c.read.key else c.write.key;
    assert TrimmedAt(a, b, key, from);
    forall k: ByteString
      ensures TrimmedAt(CommandStore(a, c, now), CommandStore(b, c, now), k, now)
    {
      assert TrimmedAt(a, b, k, from);
    }
  }

  lemma {:induction false} ExtrasInvisible(a: Store, b: Store, ops: seq<Op>, from: Millis)
    requires Trimmed(a, b, from) && Ordered(ops, from)
    requires ExpiresFindNoStaleKey(b, WithoutExtras(ops))
    ensures Answers(a, ops) == Answers(b, WithoutExtras(ops))
    ensures Trimmed(Final(a, ops), Final(b, WithoutExtras(ops)), LastClock(ops, from))
    decreases ops
  {
    hide Trimmed, CommandStore, CommandReply, Unexpired, Touch;
    if ops != [] {
      var op, lean := ops[0], WithoutExtras(ops);
      if op.Asked? {
        assert lean[0] == op && lean[1..] == WithoutExtras(ops[1..]);
        CommandAgrees(a, b, op.cmd, op.now, op.again, from);
        ExtrasInvisible(StepOp(a, op), StepOp(b, op), ops[1..], op.now);
      } else {
        ExtraTrims(a, b, op, from);
        ExtrasInvisible(StepOp(a, op), b, ops[1..], op.now);
      }
    }
  }

  /**
   * Sweep transparency: two runs of the same commands at the same clock readings, each with sweeps and
   * stray reads of its own anywhere, give the same GET, EXISTS, TTL, PERSIST, SET and expire replies,
   * and end in maps that look alike to every later read, provided no expire command of the bare run
   * finds its key expired but still there.
   */
  lemma SweepsInvisible(m: Store, x: seq<Op>, y: seq<Op>, from: Millis, later: Millis)
    requires WithoutExtras(x) == WithoutExtras(y) && Ordered(x, from) && Ordered(y, from)
    requires ExpiresFindNoStaleKey(m, WithoutExtras(x))
    requires LastClock(x, from) <= later && LastClock(y, from) <= later
    ensures Answers(m, x) == Answers(m, y)
    ensures Unexpired(Final(m, x), later) == Unexpired(Final(m, y), later)
  {
    hide Answers, Final, WithoutExtras, Ordered, LastClock, ExpiresFindNoStaleKey;
    ExtrasInvisible(m, m, x, from);
    ExtrasInvisible(m, m, y, from);
    TrimmedLooksAlike(Final(m, x), Final(m, WithoutExtras(x)), LastClock(x, from), later);
    TrimmedLooksAlike(Final(m, y), Final(m, WithoutExtras(y)), LastClock(y, from), later);
  }

  lemma TrimmedLooksAlike(a: Store, b: Store, now: Millis, later: Millis)
    requires Trimmed(a, b, now) && now <= later
    ensures Unexpired(a, later) == Unexpired(b, later)
  {
    forall k: ByteString
      ensures Lookup(Unexpired(a, later), k) == Lookup(Unexpired(b, later), k)
    {
      assert TrimmedAt(a, b, k, now);
    }
    Ideal.SameLookups(Unexpired(a, later), Unexpired(b, later));
  }

  predicate AllAsked(ops: seq<Op>) {
    forall i :: 0 <= i < |ops| ==> ops[i].Asked?
  }

  lemma {:induction false} BareHasNoExtras(ops: seq<Op>)
    requires AllAsked(ops)
    ensures WithoutExtras(ops) == ops
  {
    if ops != [] {
      BareHasNoExtras(ops[1..]);
    }
  }

  /** If an expire command finds a stale key, sweeping just before it changes its reply. */
  lemma {:induction false} StaleExpireShows(m: Store, ops: seq<Op>, from: Millis) returns (x: seq<Op>)
    requires AllAsked(ops) && Ordered(ops, from) && !ExpiresFindNoStaleKey(m, ops)
    ensures WithoutExtras(x) == ops && Ordered(x, from) && Answers(m, x) != Answers(m, ops)
    decreases ops
  {
    hide CommandStore;
    var op, rest := ops[0], ops[1..];
    if op.cmd.Write? && op.cmd.write.ExpireAt? && op.cmd.write.key in m && Due(m[op.cmd.write.key], op.now) {
      x := [ExtraSweep(op.now)] + ops;
      BareHasNoExtras(ops);
      assert x[1..] == ops;
      assert Answers(Unexpired(m, op.now), ops)[0] == Some(Flag(false));
      assert Answers(m, ops)[0] == Some(Flag(true));
    } else {
      var y := StaleExpireShows(StepOp(m, op), rest, op.now);
      x := [op] + y;
      assert x[1..] == y && ops == [op] + rest;
      assert Answers(m, x)[1..] == Answers(StepOp(m, op), y);
      assert Answers(m, ops)[1..] == Answers(StepOp(m, op), rest);
    }
  }

  /**
   * The proviso is exact: among all runs that only add sweeps and stray reads to these commands, every
   * one gives the same answers if and only if no expire command finds its key expired but still there.
   */
  lemma SweepsInvisibleIff(m: Store, ops: seq<Op>, from: Millis)
    requires AllAsked(ops) && Ordered(ops, from)
    ensures (forall x: seq<Op> :: WithoutExtras(x) == ops && Ordered(x, from) ==> Answers(m, x) == Answers(m, ops))
            <==> ExpiresFindNoStaleKey(m, ops)
  {
    hide Answers, WithoutExtras, Ordered, ExpiresFindNoStaleKey;
    BareHasNoExtras(ops);
    if ExpiresFindNoStaleKey(m, ops) {
      forall x: seq<Op> | WithoutExtras(x) == ops && Ordered(x, from)
        ensures Answers(m, x) == Answers(m, ops)
      {
        SweepsInvisible(m, x, ops, from, U64_MAX);
      }
    } else {
      var x := StaleExpireShows(m, ops, from);
    }
  }
}
