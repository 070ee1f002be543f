/** The commands the server understands, sorted by who handles them. Deadlines are always absolute. */
module Commands {
  import opened Wrappers
  import opened Bytes

  datatype WriteCommand =
    | Set(key: ByteString, value: ByteString, expiresAt: Option<Millis>)
    | Delete(key: ByteString)
    | ExpireAt(key: ByteString, deadline: Millis)
    | Persist(key: ByteString)

  datatype ReadCommand =
    | Get(key: ByteString)
    | Exists(key: ByteString)
    | Ttl(key: ByteString)

  datatype CacheCommand = Read(read: ReadCommand) | Write(write: WriteCommand)

  datatype ChannelCommand =
    | Subscribe(channels: seq<ByteString>)
    | Unsubscribe(channels: seq<ByteString>)
    | Publish(channel: ByteString, message: ByteString)

  datatype Command =
    | Cache(cache: CacheCommand)
    | Channel(pubsub: ChannelCommand)
    | Ping(echo: Option<ByteString>)

  datatype CommandError =
    | UnrecognizedCommand
    | NotEnoughParts
    | TooManyParts
    | Syntax
    | BadNumber
    | UnexpectedFrame
}

/** Lifting frames into commands, and lowering logged writes back into frames. */
module CommandCodec {
  import opened Wrappers
  import opened Bytes
  import Decimal
  import opened Frames
  import opened Commands

  type Lifted = Result<Command, CommandError>

  // Verbs and options, in the case the code writes or matches them.
  const GET: ByteString := [103, 101, 116]
  const SET: ByteString := [115, 101, 116]
  const DEL: ByteString := [100, 101, 108]
  const PING: ByteString := [112, 105, 110, 103]
  const EXISTS: ByteString := [101, 120, 105, 115, 116, 115]
  const EXPIRE: ByteString := [101, 120, 112, 105, 114, 101]
  const EXPIREAT: ByteString := [101, 120, 112, 105, 114, 101, 97, 116]
  const PEXPIREAT: ByteString := [112, 101, 120, 112, 105, 114, 101, 97, 116]
  const TTL: ByteString := [116, 116, 108]
  const PERSIST: ByteString := [112, 101, 114, 115, 105, 115, 116]
  const SUBSCRIBE: ByteString := [115, 117, 98, 115, 99, 114, 105, 98, 101]
  const UNSUBSCRIBE: ByteString := [117, 110, 115, 117, 98, 115, 99, 114, 105, 98, 101]
  const PUBLISH: ByteString := [112, 117, 98, 108, 105, 115, 104]
  const EX: ByteString := [101, 120]
  const PX: ByteString := [112, 120]
  const EXAT: ByteString := [101, 120, 97, 116]
  const PXAT: ByteString := [112, 120, 97, 116]

  const LOG_SET: ByteString := [83, 69, 84]
  const LOG_PXAT: ByteString := [80, 88, 65, 84]
  const LOG_DEL: ByteString := [68, 69, 76]
  const LOG_PEXPIREAT: ByteString := [80, 69, 88, 80, 73, 82, 69, 65, 84]
  const LOG_PERSIST: ByteString := [80, 69, 82, 83, 73, 83, 84]

  function SaturatingAdd(a: Millis, b: Millis): Millis {
    if a + b <= U64_MAX then a + b else U64_MAX
  }

  /** `Milliseconds::from(Seconds)`. */
  function SecondsToMillis(s: Millis): Millis {
    if s * 1000 <= U64_MAX then s * 1000 else U64_MAX
  }

  /** The next frame, which must be a bulk string. */
  function NextBulk(args: seq<Frame>): Result<ByteString, CommandError> {
    if args == [] then Err(NotEnoughParts)
    else if args[0].BulkString? then Ok(args[0].payload)
    else Err(UnexpectedFrame)
  }

  /** Exactly one bulk string. */
  function OneKey(args: seq<Frame>): Result<ByteString, CommandError> {
    match NextBulk(args)
    case Err(e) => Err(e)
    case Ok(key) => if |args| > 1 then Err(TooManyParts) else Ok(key)
  }

  function NextNumber(args: seq<Frame>): Result<Millis, CommandError> {
    match NextBulk(args)
    case Err(e) => Err(e)
    case Ok(bytes) =>
      match Decimal.ParseUnsigned(bytes, U64_MAX)
      case None => Err(BadNumber)
      case Some(n) => Ok(n)
  }

  /** Every remaining frame, each of which must be a bulk string. */
  function AllBulk(args: seq<Frame>): Result<seq<ByteString>, CommandError> {
    if args == [] then Ok([])
    else if !args[0].BulkString? then Err(UnexpectedFrame)
    else
      match AllBulk(args[1..])
      case Err(e) => Err(e)
      case Ok(rest) => Ok([args[0].payload] + rest)
  }

  /** The channel-collecting loop of `SUBSCRIBE` and `UNSUBSCRIBE`. */
  method CollectChannels(args: seq<Frame>) returns (r: Result<seq<ByteString>, CommandError>)
    ensures r == AllBulk(args)
    ensures r.Ok? <==> forall i :: 0 <= i < |args| ==> args[i].BulkString?
    ensures r.Ok? ==> |r.value| == |args| && forall i :: 0 <= i < |args| ==> args[i] == BulkString(r.value[i])
  {
    var ids: seq<ByteString> := [];
    assert args[0..] == args && forall rest: seq<ByteString> :: ids + rest == rest;
    for i := 0 to |args|
      invariant |ids| == i && forall j :: 0 <= j < i ==> args[j] == BulkString(ids[j])
      invariant AllBulk(args) == match AllBulk(args[i..]) case Err(e) => Err(e) case Ok(rest) => Ok(ids + rest)
    {
      assert args[i..][1..] == args[i + 1..];
      if !args[i].BulkString? {
        return Err(UnexpectedFrame);
      }
      ghost var tail := AllBulk(args[i + 1..]);
      if tail.Ok? {
        assert ids + ([args[i].payload] + tail.value) == ids + [args[i].payload] + tail.value;
      }
      ids := ids + [args[i].payload];
    }
    assert ids + [] == ids;
    r := Ok(ids);
  }

  /** The deadline a `SET` option asks for; the relative forms read the clock here. */
  function SetDeadline(option: ByteString, amount: Millis, now: Millis): Millis {
    if option == EX then SaturatingAdd(now, SecondsToMillis(amount))
    else if option == PX then SaturatingAdd(now, amount)
    else if option == EXAT then SecondsToMillis(amount)
    else amount
  }

  /** `SET key value [EX s | PX ms | EXAT unix-s | PXAT unix-ms]`. */
  function LiftSet(args: seq<Frame>, now: Millis): Lifted {
    match NextBulk(args)
    case Err(e) => Err(e)
    case Ok(key) =>
      match NextBulk(args[1..])
      case Err(e) => Err(e)
      case Ok(value) =>
        if |args| == 2 then Ok(Cache(Write(Set(key, value, None))))
        else if !args[2].BulkString? then Err(UnexpectedFrame)
        else
          var option := Lower(args[2].payload);
          if option !in [EX, PX, EXAT, PXAT] then Err(Syntax)
          else
            match NextNumber(args[3..])
            case Err(e) => Err(e)
            case Ok(amount) =>
              if |args| > 4 then Err(TooManyParts)
              else Ok(Cache(Write(Set(key, value, Some(SetDeadline(option, amount, now))))))
  }

  /** `EXPIRE`, `EXPIREAT` and `PEXPIREAT`: a key and a number, nothing more. */
  function LiftExpire(verb: ByteString, args: seq<Frame>, now: Millis): Lifted {
    match NextBulk(args)
    case Err(e) => Err(e)
    case Ok(key) =>
      match NextNumber(args[1..])
      case Err(e) => Err(e)
      case Ok(n) =>
        if |args| > 2 then Err(TooManyParts)
        else
          Ok(Cache(Write(ExpireAt(key,
            if verb == EXPIRE then SaturatingAdd(now, SecondsToMillis(n))
            else if verb == EXPIREAT then SecondsToMillis(n)
            else n))))
  }

  function LiftOneKey(verb: ByteString, args: seq<Frame>): Lifted {
    match OneKey(args)
    case Err(e) => Err(e)
    case Ok(key) =>
      Ok(Cache(
        if verb == GET then Read(Get(key))
        else if verb == EXISTS then Read(Exists(key))
        else if verb == TTL then Read(Ttl(key))
        else if verb == DEL then Write(Delete(key))
        else Write(Persist(key))))
  }

  function LiftChannels(verb: ByteString, args: seq<Frame>): Lifted {
    match AllBulk(args)
    case Err(e) => Err(e)
    case Ok(ids) =>
      if verb == UNSUBSCRIBE then Ok(Channel(Unsubscribe(ids)))
      else if ids == [] then Err(NotEnoughParts)
      else Ok(Channel(Subscribe(ids)))
  }

  function LiftPublish(args: seq<Frame>): Lifted {
    if |args| < 2 then Err(NotEnoughParts)
    else if !args[0].BulkString? || !args[1].BulkString? then Err(UnexpectedFrame)
    else if |args| > 2 then Err(TooManyParts)
    else Ok(Channel(Publish(args[0].payload, args[1].payload)))
  }

  /** `Command::try_from(Frame)`, with the clock reading passed in. */
  function FromFrame(f: Frame, now: Millis): Lifted {
    if !f.Array? then Err(UnexpectedFrame)
    else if f.elems == [] then Err(NotEnoughParts)
    else if !f.elems[0].BulkString? then Err(UnexpectedFrame)
    else
      var verb := Lower(f.elems[0].payload);
      var args := f.elems[1..];
      if verb == SET then LiftSet(args, now)
      else if verb in [GET, DEL, EXISTS, TTL, PERSIST] then LiftOneKey(verb, args)
      else if verb in [EXPIRE, EXPIREAT, PEXPIREAT] then LiftExpire(verb, args, now)
      else if verb == PING then
        if args == [] then Ok(Ping(None))
        else (match OneKey(args) case Err(e) => Err(e) case Ok(m) => Ok(Ping(Some(m))))
      else if verb in [SUBSCRIBE, UNSUBSCRIBE] then LiftChannels(verb, args)
      else if verb == PUBLISH then LiftPublish(args)
      else Err(UnrecognizedCommand)
  }

  /** `Frame::from(WriteCommand)`: the form the log stores, in the millisecond verbs. */
  function ToFrame(w: WriteCommand): Frame {
    match w
    case Set(key, value, None) => Array([BulkString(LOG_SET), BulkString(key), BulkString(value)])
    case Set(key, value, Some(at)) =>
      Array([BulkString(LOG_SET), BulkString(key), BulkString(value), BulkString(LOG_PXAT),
        BulkString(Decimal.Print(at))])
    case Delete(key) => Array([BulkString(LOG_DEL), BulkString(key)])
    case ExpireAt(key, at) => Array([BulkString(LOG_PEXPIREAT), BulkString(key), BulkString(Decimal.Print(at))])
    case Persist(key) => Array([BulkString(LOG_PERSIST), BulkString(key)])
  }

  /** Key and value fit in memory, as every command the server holds does. */
  predicate Storable(w: WriteCommand) {
    |w.key| <= U64_MAX && (w.Set? ==> |w.value| <= U64_MAX)
  }

  lemma LogVerbsLower()
    ensures Lower(LOG_SET) == SET && Lower(LOG_PXAT) == PXAT && Lower(LOG_DEL) == DEL
    ensures Lower(LOG_PEXPIREAT) == PEXPIREAT && Lower(LOG_PERSIST) == PERSIST
  {
  }

  lemma LogSetLifts(key: ByteString, value: ByteString, at: Millis, now: Millis)
    ensures LiftSet([BulkString(key), BulkString(value), BulkString(LOG_PXAT), BulkString(Decimal.Print(at))], now)
            == Ok(Cache(Write(Set(key, value, Some(at)))))
  {
    hide Lower, Decimal.ParseUnsigned, Decimal.Print;
    LogVerbsLower();
    Decimal.ParseAfterPrint(at, U64_MAX);
    var args := [BulkString(key), BulkString(value), BulkString(LOG_PXAT), BulkString(Decimal.Print(at))];
    assert args[1..][0] == args[1] && args[3..] == [args[3]];
  }

  lemma LogExpireLifts(key: ByteString, at: Millis, now: Millis)
    ensures LiftExpire(PEXPIREAT, [BulkString(key), BulkString(Decimal.Print(at))], now)
            == Ok(Cache(Write(ExpireAt(key, at))))
  {
    hide Decimal.ParseUnsigned, Decimal.Print;
    Decimal.ParseAfterPrint(at, U64_MAX);
    var args := [BulkString(key), BulkString(Decimal.Print(at))];
    assert args[1..] == [args[1]];
  }

  /** A logged write lifts back to itself, at whatever clock reading it is replayed. */
  lemma LogFormRoundTrips(w: WriteCommand, now: Millis)
    ensures FromFrame(ToFrame(w), now) == Ok(Cache(Write(w)))
  {
    LogVerbsLower();
    var args := ToFrame(w).elems[1..];
    match w
    case Set(key, value, Some(at)) =>
      hide Lower, LiftSet, Decimal.Print;
      assert args == [BulkString(key), BulkString(value), BulkString(LOG_PXAT), BulkString(Decimal.Print(at))];
      LogSetLifts(key, value, at, now);
    case Set(key, value, None) =>
      hide Lower;
      assert args == [BulkString(key), BulkString(value)];
    case Delete(_) =>
      hide Lower;
    case ExpireAt(key, at) =>
      hide Lower, LiftExpire, Decimal.Print;
      assert args == [BulkString(key), BulkString(Decimal.Print(at))];
      LogExpireLifts(key, at, now);
    case Persist(_) =>
      hide Lower;
  }

  /** Every storable write encodes to a frame that parses back. */
  lemma LogFormSized(w: WriteCommand)
    requires Storable(w)
    ensures Sized(ToFrame(w))
  {
    match w
    case Set(_, _, Some(at)) => Decimal.PrintLength(at);
    case Set(_, _, None) =>
    case Delete(_) =>
    case ExpireAt(_, at) => Decimal.PrintLength(at);
    case Persist(_) =>
  }

  /**
   * Whatever form a client used, relative or absolute, seconds or milliseconds, the write that is
   * logged for it replays as the very write that was applied, at any later clock reading.
   */
  lemma AcceptedWritesReplayUnchanged(f: Frame, now: Millis, later: Millis)
    requires FromFrame(f, now).Ok? && FromFrame(f, now).value.Cache? && FromFrame(f, now).value.cache.Write?
    ensures FromFrame(ToFrame(FromFrame(f, now).value.cache.write), later) == FromFrame(f, now)
  {
    hide FromFrame, ToFrame;
    LogFormRoundTrips(FromFrame(f, now).value.cache.write, later);
  }
}
