/** The append-only log: its bytes, its writer, and what replay reads back from them. */
module LogCodec {
  import opened Wrappers
  import opened Bytes
  import opened Sequences
  import opened Frames
  import FrameTheory
  import opened Commands
  import opened CommandCodec
  import opened CacheSpec
  import opened Recovery

  function EncodeWrite(w: WriteCommand): ByteString {
    Encode(ToFrame(w))
  }

  function EncodeLog(ws: seq<WriteCommand>): ByteString {
    if ws == [] then [] else EncodeWrite(ws[0]) + EncodeLog(ws[1..])
  }

  predicate AllStorable(ws: seq<WriteCommand>) {
    forall i :: 0 <= i < |ws| ==> Storable(ws[i])
  }

  lemma {:induction false} EncodeLogConcat(a: seq<WriteCommand>, b: seq<WriteCommand>)
    ensures EncodeLog(a + b) == EncodeLog(a) + EncodeLog(b)
  {
    hide EncodeWrite;
    if a == [] {
      assert a + b == b;
    } else {
      assert (a + b)[0] == a[0] && (a + b)[1..] == a[1..] + b;
      EncodeLogConcat(a[1..], b);
      Associative(EncodeWrite(a[0]), EncodeLog(a[1..]), EncodeLog(b));
    }
  }

  lemma EncodeLogNext(ws: seq<WriteCommand>, w: WriteCommand)
    ensures EncodeLog(ws + [w]) == EncodeLog(ws) + EncodeWrite(w)
  {
    hide EncodeWrite;
    EncodeLogConcat(ws, [w]);
    assert EncodeLog([w]) == EncodeWrite(w) + EncodeLog([w][1..]);
    assert EncodeLog([w][1..]) == [];
  }

  // ---- Replay ----

  datatype LogEnd = TornOrEmpty | BadFrame(frame: FrameError) | BadCommand(command: CommandError)

  /** What replay executes, and how it stops. */
  datatype LogRead = LogRead(events: seq<Event>, end: LogEnd)

  function AsEvent(c: CacheCommand, now: Millis): Event {
    match c
    case Read(r) => Looked(r.key, now)
    case Write(w) => Wrote(w, now)
  }

  /**
   * The replay of `b`, where frame number `n` is lifted at clock reading `2n` and executed at reading
   * `2n + 1`. Pub/sub commands and pings are skipped; an unreadable frame or command is fatal; an
   * incomplete frame is the torn tail.
   */
  function ReadLog(b: ByteString, clock: nat -> Millis, n: nat): LogRead
    decreases |b|
  {
    match ParseOne(b)
    case Failed(Incomplete) => LogRead([], TornOrEmpty)
    case Failed(e) => LogRead([], BadFrame(e))
    case Parsed(f, rest) =>
      match FromFrame(f, clock(2 * n))
      case Err(e) => LogRead([], BadCommand(e))
      case Ok(Cache(c)) =>
        var more := ReadLog(rest, clock, n + 1);
        LogRead([AsEvent(c, clock(2 * n + 1))] + more.events, more.end)
      case Ok(_) => ReadLog(rest, clock, n + 1)
  }

  /** The events that replaying exactly the writes `ws` amounts to. */
  function Replayed(ws: seq<WriteCommand>, clock: nat -> Millis, n: nat): (es: seq<Event>)
    ensures |es| == |ws|
    ensures forall i :: 0 <= i < |ws| ==> es[i] == Wrote(ws[i], clock(2 * (n + i) + 1))
  {
    seq(|ws|, i requires 0 <= i < |ws| => Wrote(ws[i], clock(2 * (n + i) + 1)))
  }

  lemma {:induction false} LogOfWrites(es: seq<Event>, ws: seq<WriteCommand>)
    requires |es| == |ws| && forall i :: 0 <= i < |ws| ==> es[i].Wrote? && es[i].cmd == ws[i]
    ensures Log(es) == ws
  {
    if ws != [] {
      LogOfWrites(es[..|es| - 1], ws[..|ws| - 1]);
      SplitLast([], ws);
    }
  }

  /** How many of the writes are encoded whole in the first `k` bytes. */
  function Whole(ws: seq<WriteCommand>, k: nat): nat {
    if ws == [] || k < |EncodeWrite(ws[0])| then 0 else 1 + Whole(ws[1..], k - |EncodeWrite(ws[0])|)
  }

  /** `Whole` is the largest count of leading writes whose encodings fit. */
  lemma {:induction false} WholeFits(ws: seq<WriteCommand>, k: nat)
    ensures Whole(ws, k) <= |ws| && |EncodeLog(ws[..Whole(ws, k)])| <= k
    ensures Whole(ws, k) < |ws| ==> k < |EncodeLog(ws[..Whole(ws, k) + 1])|
  {
    hide EncodeWrite;
    if ws != [] && k >= |EncodeWrite(ws[0])| {
      var n := Whole(ws[1..], k - |EncodeWrite(ws[0])|);
      WholeFits(ws[1..], k - |EncodeWrite(ws[0])|);
      assert ws[..n + 1][1..] == ws[1..][..n];
      if n + 1 < |ws| {
        assert ws[..n + 2][1..] == ws[1..][..n + 1];
      }
    } else if ws != [] {
      assert ws[..1][0] == ws[0] && ws[..1][1..] == [];
    }
  }

  /** A write and what follows it: replay reads back that write, whatever the clock says. */
  lemma ReadOneWrite(w: WriteCommand, rest: ByteString, clock: nat -> Millis, n: nat)
    requires Storable(w)
    ensures var more := ReadLog(rest, clock, n + 1);
            ReadLog(EncodeWrite(w) + rest, clock, n) ==
            LogRead([Wrote(w, clock(2 * n + 1))] + more.events, more.end)
  {
    hide ParseOne, FromFrame, ToFrame, Encode;
    LogFormSized(w);
    FrameTheory.RoundTrip(ToFrame(w), rest);
    LogFormRoundTrips(w, clock(2 * n));
  }

  lemma ReadCutWrite(w: WriteCommand, k: nat, clock: nat -> Millis, n: nat)
    requires Storable(w) && k < |EncodeWrite(w)|
    ensures ReadLog(EncodeWrite(w)[..k], clock, n) == LogRead([], TornOrEmpty)
  {
    hide ParseOne, FromFrame, ToFrame, Encode;
    LogFormSized(w);
    FrameTheory.StrictPrefixIncomplete(ToFrame(w), k);
  }

  lemma ReadNothing(clock: nat -> Millis, n: nat)
    ensures ReadLog([], clock, n) == LogRead([], TornOrEmpty)
  {
  }

  /**
   * Torn tails: any byte prefix of a log replays, without error, exactly the writes whose encodings
   * are whole in it, and which writes those are does not depend on the clock.
   */
  lemma {:induction false} TornTailReplays(ws: seq<WriteCommand>, k: nat, clock: nat -> Millis, n: nat)
    requires AllStorable(ws) && k <= |EncodeLog(ws)|
    ensures Whole(ws, k) <= |ws|
    ensures ReadLog(EncodeLog(ws)[..k], clock, n) == LogRead(Replayed(ws[..Whole(ws, k)], clock, n), TornOrEmpty)
  {
    hide EncodeWrite, ReadLog, Storable;
    WholeFits(ws, k);
    if ws == [] {
      ReadNothing(clock, n);
      assert EncodeLog(ws)[..k] == [];
    } else {
      var first, rest := EncodeWrite(ws[0]), EncodeLog(ws[1..]);
      FrameTheory.CutInTwo(first, rest, k);
      if k < |first| {
        ReadCutWrite(ws[0], k, clock, n);
      } else {
        ReadOneWrite(ws[0], rest[..k - |first|], clock, n);
        TornTailReplays(ws[1..], k - |first|, clock, n + 1);
        ReplayedSplits(ws[..Whole(ws, k)], clock, n);
        assert ws[..Whole(ws, k)][1..] == ws[1..][..Whole(ws, k) - 1];
      }
    }
  }

  lemma ReplayedSplits(ws: seq<WriteCommand>, clock: nat -> Millis, n: nat)
    requires ws != []
    ensures Replayed(ws, clock, n) == [Wrote(ws[0], clock(2 * n + 1))] + Replayed(ws[1..], clock, n + 1)
  {
  }

  /** A whole log followed by part of one more write: that write is either read back whole or not at all. */
  lemma CrashMidAppend(ws: seq<WriteCommand>, w: WriteCommand, k: nat, clock: nat -> Millis)
    requires AllStorable(ws) && Storable(w) && k <= |EncodeWrite(w)|
    ensures ReadLog(EncodeLog(ws) + EncodeWrite(w)[..k], clock, 0) ==
            LogRead(Replayed(if k < |EncodeWrite(w)| then ws else ws + [w], clock, 0), TornOrEmpty)
  {
    hide EncodeWrite, EncodeLog, ReadLog, Storable, Whole;
    var all, cut := ws + [w], |EncodeLog(ws)| + k;
    EncodeLogNext(ws, w);
    FrameTheory.CutInTwo(EncodeLog(ws), EncodeWrite(w), cut);
    TornTailReplays(all, cut, clock, 0);
    var n := Whole(all, cut);
    WholeFits(all, cut);
    EncodingGrows(all, n, |ws|);
    EncodingGrows(all, |ws|, n);
    assert all[..|ws|] == ws && all[..|ws| + 1] == all;
  }

  /** Longer logs have longer encodings, one write at a time. */
  lemma {:induction false} EncodingGrows(ws: seq<WriteCommand>, a: nat, b: nat)
    requires a <= |ws| && b <= |ws|
    ensures a < b ==> |EncodeLog(ws[..a + 1])| <= |EncodeLog(ws[..b])|
  {
    hide EncodeWrite;
    if a < b {
      assert ws[..b] == ws[..a + 1] + ws[a + 1..b];
      EncodeLogConcat(ws[..a + 1], ws[a + 1..b]);
    }
  }

  /** A log nothing was torn off replays in full. */
  lemma WholeLogReplays(ws: seq<WriteCommand>, clock: nat -> Millis)
    requires AllStorable(ws)
    ensures ReadLog(EncodeLog(ws), clock, 0) == LogRead(Replayed(ws, clock, 0), TornOrEmpty)
  {
    hide ReadLog, EncodeLog, Whole;
    var k := |EncodeLog(ws)|;
    TornTailReplays(ws, k, clock, 0);
    assert EncodeLog(ws)[..k] == EncodeLog(ws);
    WholeFits(ws, k);
    assert ws[..|ws|] == ws;
    EncodingGrows(ws, Whole(ws, k), |ws|);
  }

  /** Replay of whole entries followed by anything: the entries, then whatever the rest reads as. */
  lemma {:induction false} ReadWholeThen(ws: seq<WriteCommand>, x: ByteString, clock: nat -> Millis, n: nat)
    requires AllStorable(ws)
    ensures var more := ReadLog(x, clock, n + |ws|);
            ReadLog(EncodeLog(ws) + x, clock, n) == LogRead(Replayed(ws, clock, n) + more.events, more.end)
  {
    hide EncodeWrite, ReadLog, Storable;
    if ws == [] {
      assert EncodeLog(ws) + x == x;
      assert Replayed(ws, clock, n) + ReadLog(x, clock, n).events == ReadLog(x, clock, n).events;
    } else {
      Associative(EncodeWrite(ws[0]), EncodeLog(ws[1..]), x);
      ReadOneWrite(ws[0], EncodeLog(ws[1..]) + x, clock, n);
      ReadWholeThen(ws[1..], x, clock, n + 1);
      ReplayedSplits(ws, clock, n);
      Associative([Wrote(ws[0], clock(2 * n + 1))], Replayed(ws[1..], clock, n + 1), ReadLog(x, clock,
        n + |ws|).events);
    }
  }

  // ---- The bytes themselves, and logs that hold more than writes ----

  /** A bulk string on the wire. */
  function Blob(p: ByteString): ByteString {
    [36] + Decimal.Print(|p|) + [13, 10] + p + [13, 10]
  }

  /** `*n`, then the verb in upper case and the arguments, each a bulk string. */
  lemma LogBytes(w: WriteCommand)
    ensures EncodeWrite(w) ==
            match w
            case Set(k, v, None) => [42, 51, 13, 10] + Blob([83, 69, 84]) + Blob(k) + Blob(v)
            case Set(k, v, Some(at)) =>
              [42, 53, 13, 10] + Blob([83, 69, 84]) + Blob(k) + Blob(v) + Blob([80, 88, 65, 84]) +
              Blob(Decimal.Print(at))
            case Delete(k) => [42, 50, 13, 10] + Blob([68, 69, 76]) + Blob(k)
            case ExpireAt(k, at) =>
              [42, 51, 13, 10] + Blob([80, 69, 88, 80, 73, 82, 69, 65, 84]) + Blob(k) + Blob(Decimal.Print(at))
            case Persist(k) => [42, 50, 13, 10] + Blob([80, 69, 82, 83, 73, 83, 84]) + Blob(k)
  {
    hide EncodeWrite, Blob, Decimal.Print;
    match w
    case Set(k, v, None) => ThreeWords(w, LOG_SET, k, v);
    case Set(k, v, Some(at)) => FiveWords(w, LOG_SET, k, v, LOG_PXAT, Decimal.Print(at));
    case Delete(k) => TwoWords(w, LOG_DEL, k);
    case ExpireAt(k, at) => ThreeWords(w, LOG_PEXPIREAT, k, Decimal.Print(at));
    case Persist(k) => TwoWords(w, LOG_PERSIST, k);
  }

  lemma SmallCounts()
    ensures Decimal.Print(2) == [50] && Decimal.Print(3) == [51] && Decimal.Print(5) == [53]
  {
  }

  lemma TwoWords(w: WriteCommand, a: ByteString, b: ByteString)
    requires ToFrame(w) == Array([BulkString(a), BulkString(b)])
    ensures EncodeWrite(w) == [42, 50, 13, 10] + Blob(a) + Blob(b)
  {
    hide Decimal.Print, Encode, EncodeAll, Blob, ToFrame;
    var words := ToFrame(w).elems;
    var head: ByteString := [42, 50, 13, 10];
    SmallCounts();
    ArrayBytes(words);
    NoBlobs(head);
    MoreBlobs(head, words, 1);
    MoreBlobs(head, words, 2);
    assert words[..2] == words;
  }

  lemma ThreeWords(w: WriteCommand, a: ByteString, b: ByteString, c: ByteString)
    requires ToFrame(w) == Array([BulkString(a), BulkString(b), BulkString(c)])
    ensures EncodeWrite(w) == [42, 51, 13, 10] + Blob(a) + Blob(b) + Blob(c)
  {
    hide Decimal.Print, Encode, EncodeAll, Blob, ToFrame;
    var words := ToFrame(w).elems;
    var head: ByteString := [42, 51, 13, 10];
    SmallCounts();
    ArrayBytes(words);
    NoBlobs(head);
    MoreBlobs(head, words, 1);
    MoreBlobs(head, words, 2);
    MoreBlobs(head, words, 3);
    assert words[..3] == words;
  }

  lemma FiveWords(w: WriteCommand, a: ByteString, b: ByteString, c: ByteString, d: ByteString, e: ByteString)
    requires ToFrame(w) == Array([BulkString(a), BulkString(b), BulkString(c), BulkString(d), BulkString(e)])
    ensures EncodeWrite(w) == [42, 53, 13, 10] + Blob(a) + Blob(b) + Blob(c) + Blob(d) + Blob(e)
  {
    hide Decimal.Print, Encode, EncodeAll, Blob, ToFrame;
    var words := ToFrame(w).elems;
    var head: ByteString := [42, 53, 13, 10];
    SmallCounts();
    ArrayBytes(words);
    NoBlobs(head);
    MoreBlobs(head, words, 1);
    MoreBlobs(head, words, 2);
    MoreBlobs(head, words, 3);
    MoreBlobs(head, words, 4);
    MoreBlobs(head, words, 5);
    assert words[..5] == words;
  }

  lemma NoBlobs(head: ByteString)
    ensures head + EncodeAll([]) == head
  {
  }

  /** One word more of an array, on the wire. */
  lemma MoreBlobs(head: ByteString, words: seq<Frame>, i: nat)
    requires 0 < i <= |words| && words[i - 1].BulkString?
    ensures head + EncodeAll(words[..i]) == head + EncodeAll(words[..i - 1]) + Blob(words[i - 1].payload)
    ensures words[..0] == []
  {
    hide Encode, EncodeAll, Blob;
    EncodeAllNext(words, i - 1);
    BlobBytes(words[i - 1].payload);
    Associative(head, EncodeAll(words[..i - 1]), Blob(words[i - 1].payload));
  }

  lemma BlobBytes(p: ByteString)
    ensures Encode(BulkString(p)) == Blob(p)
  {
  }

  lemma ArrayBytes(elems: seq<Frame>)
    ensures Encode(Array(elems)) == [42] + Decimal.Print(|elems|) + [13, 10] + EncodeAll(elems)
  {
  }

  /** The events of a log of any commands: those for the cache, each lifted and executed at its own clock readings. */
  function Executed(fs: seq<Frame>, clock: nat -> Millis, n: nat): seq<Event> {
    if fs == [] then []
    else
      (match FromFrame(fs[0], clock(2 * n))
       case Ok(Cache(c)) => [AsEvent(c, clock(2 * n + 1))]
       case _ => []) + Executed(fs[1..], clock, n + 1)
  }

  predicate AllLift(fs: seq<Frame>, clock: nat -> Millis, n: nat) {
    forall i :: 0 <= i < |fs| ==> Sized(fs[i]) && FromFrame(fs[i], clock(2 * (n + i))).Ok?
  }

  /** Replay executes the cache commands of a log in order, reads included, and passes over everything else. */
  lemma {:induction false} ReadSkipsTheRest(fs: seq<Frame>, x: ByteString, clock: nat -> Millis, n: nat)
    requires AllLift(fs, clock, n)
    ensures var more := ReadLog(x, clock, n + |fs|);
            ReadLog(EncodeAll(fs) + x, clock, n) == LogRead(Executed(fs, clock, n) + more.events, more.end)
  {
    hide ParseOne, FromFrame, Encode, ReadLog, AsEvent;
    var more := ReadLog(x, clock, n + |fs|);
    if fs == [] {
      assert EncodeAll(fs) + x == x && [] + more.events == more.events;
    } else {
      assert Sized(fs[0]) && FromFrame(fs[0], clock(2 * (n + 0))).Ok?;
      assert forall i :: 0 <= i < |fs[1..]| ==> fs[1..][i] == fs[i + 1] && n + 1 + i == n + (i + 1);
      ReadSkipsTheRest(fs[1..], x, clock, n + 1);
      Associative(Encode(fs[0]), EncodeAll(fs[1..]), x);
      FrameTheory.RoundTrip(fs[0], EncodeAll(fs[1..]) + x);
      ReadLifted(Encode(fs[0]) + (EncodeAll(fs[1..]) + x), clock, n);
      var later := Executed(fs[1..], clock, n + 1);
      assert [] + later == later;
      var command := FromFrame(fs[0], clock(2 * n)).value;
      if command.Cache? {
        Associative([AsEvent(command.cache, clock(2 * n + 1))], later, more.events);
      }
    }
  }

  lemma ReadLifted(b: ByteString, clock: nat -> Millis, n: nat)
    requires ParseOne(b).Parsed? && FromFrame(ParseOne(b).frame, clock(2 * n)).Ok?
    ensures var more := ReadLog(ParseOne(b).rest, clock, n + 1);
            ReadLog(b, clock, n) ==
            match FromFrame(ParseOne(b).frame, clock(2 * n)).value
            case Cache(c) => LogRead([AsEvent(c, clock(2 * n + 1))] + more.events, more.end)
            case _ => more
  {
    hide ParseOne, FromFrame;
  }
}
