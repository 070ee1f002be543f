/** The streaming framer: however the bytes are cut into reads, the frames are the same. */
module Framer {
  import opened Wrappers
  import opened Bytes
  import opened Sequences
  import opened Crlf
  import opened Frames
  import FrameTheory

  // ---- Reference: the frames of a whole stream ----

  datatype Ending = NeedsMore(rest: ByteString) | Broken(error: FrameError)

  datatype Framing = Framing(frames: seq<Frame>, ending: Ending)

  function Behind(f: Frame, r: Framing): Framing {
    Framing([f] + r.frames, r.ending)
  }

  /** Take frames off the front of `b` until one is incomplete or malformed. */
  function FrameAll(b: ByteString): Framing
    decreases |b|
  {
    match ParseOne(b)
    case Failed(Incomplete) => Framing([], NeedsMore(b))
    case Failed(e) => Framing([], Broken(e))
    case Parsed(f, rest) => Behind(f, FrameAll(rest))
  }

  /** Framing can be resumed: finish what was left over with whatever arrives next. */
  lemma {:induction false} FrameAllResumes(b: ByteString, x: ByteString)
    ensures FrameAll(b + x) ==
            match FrameAll(b).ending
            case Broken(e) => FrameAll(b)
            case NeedsMore(rest) =>
              var more := FrameAll(rest + x);
              Framing(FrameAll(b).frames + more.frames, more.ending)
    decreases |b|
  {
    hide ParseOne;
    match ParseOne(b)
    case Failed(Incomplete) =>
      assert [] + FrameAll(b + x).frames == FrameAll(b + x).frames;
    case Failed(e) =>
      FrameTheory.ParseStable(b, x);
    case Parsed(f, rest) =>
      FrameTheory.ParseStable(b, x);
      FrameAllResumes(rest, x);
      if FrameAll(rest).ending.NeedsMore? {
        Associative([f], FrameAll(rest).frames, FrameAll(FrameAll(rest).ending.rest + x).frames);
      }
  }

  // ---- The session's read loop ----

  /** The most one read takes. */
  const READ_MAX: nat := 1024

  type Chunk = b: ByteString | |b| <= READ_MAX

  /** What one read brings. An empty read is end of file. */
  datatype Arrival = Bytes(bytes: Chunk) | Timeout

  /** What the loop hands on: a frame to the command layer, or an error reply to the client. */
  datatype Item = Got(frame: Frame) | Bad(error: FrameError)

  /** Everything the session emits from a buffer and the reads still to come. A hard error clears the buffer. */
  function Session(buf: ByteString, arrivals: seq<Arrival>): seq<Item>
    decreases |arrivals|, |buf|
  {
    match ParseOne(buf)
    case Parsed(f, rest) => [Got(f)] + Session(rest, arrivals)
    case Failed(Incomplete) =>
      if arrivals == [] then []
      else if arrivals[0].Timeout? then Session(buf, arrivals[1..])
      else if arrivals[0].bytes == [] then []
      else Session(buf + arrivals[0].bytes, arrivals[1..])
    case Failed(e) =>
      HardErrorNeedsBytes(buf);
      [Bad(e)] + Session([], arrivals)
  }

  function Stream(arrivals: seq<Arrival>): ByteString {
    if arrivals == [] then []
    else (if arrivals[0].Bytes? then arrivals[0].bytes else []) + Stream(arrivals[1..])
  }

  predicate NoEof(arrivals: seq<Arrival>) {
    forall i :: 0 <= i < |arrivals| && arrivals[i].Bytes? ==> arrivals[i].bytes != []
  }

  /** The items up to and including the first error. */
  function ToFirstError(items: seq<Item>): seq<Item> {
    if items == [] then []
    else if items[0].Bad? then [items[0]]
    else [items[0]] + ToFirstError(items[1..])
  }

  function AsItems(r: Framing): seq<Item>
    decreases |r.frames|
  {
    if r.frames == [] then (if r.ending.Broken? then [Bad(r.ending.error)] else [])
    else [Got(r.frames[0])] + AsItems(r.(frames := r.frames[1..]))
  }

  lemma FirstErrorNext(i: Item, items: seq<Item>)
    ensures ToFirstError([i] + items) == if i.Bad? then [i] else [i] + ToFirstError(items)
  {
    assert ([i] + items)[1..] == items;
  }

  lemma ItemsBehind(f: Frame, r: Framing)
    ensures AsItems(Behind(f, r)) == [Got(f)] + AsItems(r)
  {
    assert ([f] + r.frames)[1..] == r.frames;
  }

  /** From any buffer: the session emits the framing of the buffer followed by the rest of the stream. */
  lemma {:induction false} SessionFrames(buf: ByteString, arrivals: seq<Arrival>)
    requires NoEof(arrivals)
    ensures ToFirstError(Session(buf, arrivals)) == AsItems(FrameAll(buf + Stream(arrivals)))
    decreases |arrivals|, |buf|
  {
    hide ParseOne;
    match ParseOne(buf)
    case Parsed(f, rest) =>
      FrameTheory.ParseStable(buf, Stream(arrivals));
      SessionFrames(rest, arrivals);
      FirstErrorNext(Got(f), Session(rest, arrivals));
      ItemsBehind(f, FrameAll(rest + Stream(arrivals)));
    case Failed(Incomplete) =>
      if arrivals == [] {
        assert buf + Stream(arrivals) == buf;
      } else if arrivals[0].Timeout? {
        assert [] + Stream(arrivals[1..]) == Stream(arrivals[1..]);
        SessionFrames(buf, arrivals[1..]);
      } else {
        Associative(buf, arrivals[0].bytes, Stream(arrivals[1..]));
        SessionFrames(buf + arrivals[0].bytes, arrivals[1..]);
      }
    case Failed(e) =>
      FrameTheory.ParseStable(buf, Stream(arrivals));
      HardErrorNeedsBytes(buf);
      FirstErrorNext(Bad(e), Session([], arrivals));
  }

  lemma HardErrorNeedsBytes(b: ByteString)
    requires ParseOne(b).Failed? && ParseOne(b).error != Incomplete
    ensures b != []
  {
  }

  /**
   * Chunking independence: two ways of cutting a stream into reads, timeouts anywhere, give the
   * same frames in the same order, up to and including the first hard error.
   */
  lemma ChunkingIrrelevant(arrivals: seq<Arrival>, others: seq<Arrival>)
    requires NoEof(arrivals) && NoEof(others) && Stream(arrivals) == Stream(others)
    ensures ToFirstError(Session([], arrivals)) == ToFirstError(Session([], others))
    ensures ToFirstError(Session([], arrivals)) == AsItems(FrameAll(Stream(arrivals)))
  {
    hide Session, FrameAll;
    SessionFrames([], arrivals);
    SessionFrames([], others);
    assert [] + Stream(arrivals) == Stream(arrivals) && [] + Stream(others) == Stream(others);
  }

  // ---- Past the first error ----

  /**
   * The whole session, error included: the framing of the stream and, if the stream breaks, whatever the
   * session makes of the reads that come after the first `i`, the last of which is the one it broke in.
   */
  predicate Breaks(buf: ByteString, arrivals: seq<Arrival>, i: nat)
    requires i <= |arrivals|
  {
    var all := FrameAll(buf + Stream(arrivals));
    if all.ending.NeedsMore? then Session(buf, arrivals) == AsItems(all)
    else
      && FrameAll(buf + Stream(arrivals[..i])).ending.Broken?
      && (i > 0 ==> FrameAll(buf + Stream(arrivals[..i - 1])).ending.NeedsMore?)
      && Session(buf, arrivals) == AsItems(all) + Session([], arrivals[i..])
  }

  /** What the head of a buffer decides about the framing of everything behind it. */
  lemma FrameBehind(buf: ByteString, x: ByteString)
    requires ParseOne(buf) != Failed(Incomplete)
    ensures ParseOne(buf).Parsed? ==>
              FrameAll(buf + x) == Behind(ParseOne(buf).frame, FrameAll(ParseOne(buf).rest + x))
    ensures ParseOne(buf).Failed? ==> FrameAll(buf + x) == FrameAll(buf) == Framing([], Broken(ParseOne(buf).error))
  {
    hide ParseOne;
    FrameTheory.ParseStable(buf, x);
  }

  lemma NothingFramed(buf: ByteString)
    requires ParseOne(buf) == Failed(Incomplete)
    ensures FrameAll(buf) == Framing([], NeedsMore(buf)) && AsItems(FrameAll(buf)) == []
  {
  }

  lemma OneBad(e: FrameError)
    ensures AsItems(Framing([], Broken(e))) == [Bad(e)]
  {
  }

  /** Reading one arrival into the buffer leaves the bytes of buffer and stream where they were. */
  lemma StreamFrom(buf: ByteString, arrivals: seq<Arrival>, i: nat)
    requires arrivals != [] && i <= |arrivals|
    ensures var got := if arrivals[0].Bytes? then arrivals[0].bytes else [];
            i > 0 ==> buf + Stream(arrivals[..i]) == (buf + got) + Stream(arrivals[1..][..i - 1])
  {
    if i > 0 {
      assert arrivals[..i][1..] == arrivals[1..][..i - 1];
    }
  }

  lemma BreaksBehind(buf: ByteString, arrivals: seq<Arrival>, i: nat)
    requires ParseOne(buf).Parsed? && i <= |arrivals| && Breaks(ParseOne(buf).rest, arrivals, i)
    ensures Breaks(buf, arrivals, i)
  {
    hide ParseOne, AsItems, FrameAll, Stream;
    var f, rest := ParseOne(buf).frame, ParseOne(buf).rest;
    FrameBehind(buf, Stream(arrivals));
    FrameBehind(buf, Stream(arrivals[..i]));
    if i > 0 {
      FrameBehind(buf, Stream(arrivals[..i - 1]));
    }
    ItemsBehind(f, FrameAll(rest + Stream(arrivals)));
    Associative([Got(f)], AsItems(FrameAll(rest + Stream(arrivals))), Session([], arrivals[i..]));
  }

  lemma BreaksAfterRead(buf: ByteString, arrivals: seq<Arrival>, more: nat)
    requires ParseOne(buf) == Failed(Incomplete) && NoEof(arrivals) && more < |arrivals|
    requires Breaks(buf + if arrivals[0].Bytes? then arrivals[0].bytes else [], arrivals[1..], more)
    ensures Breaks(buf, arrivals, more + 1)
  {
    hide ParseOne, AsItems, FrameAll, Stream;
    assert buf + [] == buf;
    StreamFrom(buf, arrivals, |arrivals|);
    StreamFrom(buf, arrivals, more + 1);
    StreamFrom(buf, arrivals, more);
    assert arrivals[1..][more..] == arrivals[more + 1..];
    assert arrivals[..|arrivals|] == arrivals && arrivals[1..][..|arrivals| - 1] == arrivals[1..];
    NothingFramed(buf);
    if more == 0 {
      NoStream(arrivals);
    }
  }

  lemma NoStream(arrivals: seq<Arrival>)
    ensures Stream(arrivals[..0]) == []
  {
  }

  lemma {:induction false} SessionBreaks(buf: ByteString, arrivals: seq<Arrival>) returns (i: nat)
    requires NoEof(arrivals)
    ensures i <= |arrivals| && Breaks(buf, arrivals, i)
    decreases |arrivals|, |buf|
  {
    hide ParseOne, AsItems, FrameAll, Breaks, Stream;
    match ParseOne(buf)
    case Parsed(f, rest) =>
      i := SessionBreaks(rest, arrivals);
      BreaksBehind(buf, arrivals, i);
    case Failed(Incomplete) =>
      if arrivals == [] {
        i := 0;
        NothingToRead(buf);
      } else {
        var more := SessionBreaks(buf + if arrivals[0].Bytes? then arrivals[0].bytes else [], arrivals[1..]);
        i := more + 1;
        BreaksAfterRead(buf, arrivals, more);
      }
    case Failed(e) =>
      i := 0;
      BreaksHere(buf, arrivals);
  }

  lemma NothingToRead(buf: ByteString)
    requires ParseOne(buf) == Failed(Incomplete)
    ensures Breaks(buf, [], 0)
  {
    hide ParseOne;
    assert buf + Stream([]) == buf;
  }

  lemma BreaksHere(buf: ByteString, arrivals: seq<Arrival>)
    requires ParseOne(buf).Failed? && ParseOne(buf).error != Incomplete
    ensures Breaks(buf, arrivals, 0)
  {
    hide ParseOne, AsItems, FrameAll;
    FrameBehind(buf, Stream(arrivals));
    HardErrorNeedsBytes(buf);
    NoStream(arrivals);
    assert buf + [] == buf && arrivals[0..] == arrivals;
    OneBad(ParseOne(buf).error);
  }

  /** Once a prefix of a stream is broken, every longer one is, with the same frames and error. */
  lemma BrokenStays(b: ByteString, i: nat, j: nat)
    requires i <= j <= |b| && FrameAll(b[..i]).ending.Broken?
    ensures FrameAll(b[..j]) == FrameAll(b[..i])
  {
    hide FrameAll;
    assert b[..j] == b[..i] + b[i..j];
    FrameAllResumes(b[..i], b[i..j]);
  }

  lemma NoShorterBreak(b: ByteString)
    requires b != [] && FrameAll(b[..|b| - 1]).ending.NeedsMore?
    ensures forall i: nat :: i < |b| ==> FrameAll(b[..i]).ending.NeedsMore?
  {
    hide FrameAll;
    forall i: nat | i < |b|
      ensures FrameAll(b[..i]).ending.NeedsMore?
    {
      if FrameAll(b[..i]).ending.Broken? {
        BrokenStays(b, i, |b| - 1);
      }
    }
  }

  /** The length of the shortest prefix that already breaks. */
  function BreakPoint(b: ByteString): (n: nat)
    requires FrameAll(b).ending.Broken?
    ensures 0 < n <= |b| && FrameAll(b[..n]).ending.Broken?
    ensures forall i: nat :: i < n ==> FrameAll(b[..i]).ending.NeedsMore?
    decreases |b|
  {
    assert b[..|b|] == b;
    EmptyIsUnbroken();
    var front := b[..|b| - 1];
    if FrameAll(front).ending.Broken? then
      var n := BreakPoint(front);
      assert forall i: nat :: i <= n ==> front[..i] == b[..i];
      n
    else
      NoShorterBreak(b);
      |b|
  }

  lemma EmptyIsUnbroken()
    ensures FrameAll([]).ending.NeedsMore?
  {
  }

  /** Nothing that would read as a line lies behind the point at which the stream breaks. */
  predicate QuietBehindBreak(stream: ByteString)
    requires FrameAll(stream).ending.Broken?
  {
    FindCrlf(stream[BreakPoint(stream)..]).None?
  }

  /** Bytes holding no CRLF, however they arrive, make a session say nothing. */
  lemma {:induction false} NoLineNoItem(buf: ByteString, arrivals: seq<Arrival>)
    requires NoEof(arrivals) && FindCrlf(buf + Stream(arrivals)).None?
    ensures Session(buf, arrivals) == []
    decreases |arrivals|
  {
    hide FindCrlf;
    NoCrlfInPrefix(buf, Stream(arrivals));
    assert ParseOne(buf) == Failed(Incomplete);
    if arrivals != [] {
      StreamFrom(buf, arrivals, |arrivals|);
      assert arrivals[..|arrivals|] == arrivals && arrivals[1..][..|arrivals| - 1] == arrivals[1..];
      assert buf + [] == buf;
      NoLineNoItem(buf + if arrivals[0].Bytes? then arrivals[0].bytes else [], arrivals[1..]);
    }
  }

  lemma NoCrlfInPrefix(a: ByteString, b: ByteString)
    requires FindCrlf(a + b).None?
    ensures FindCrlf(a).None?
  {
    assert forall q: nat :: CrlfAt(a, q) ==> CrlfAt(a + b, q);
  }

  lemma {:induction false} StreamSplits(arrivals: seq<Arrival>, i: nat)
    requires i <= |arrivals|
    ensures Stream(arrivals) == Stream(arrivals[..i]) + Stream(arrivals[i..])
  {
    if i > 0 {
      StreamSplits(arrivals[1..], i - 1);
      assert arrivals[..i][1..] == arrivals[1..][..i - 1] && arrivals[1..][i - 1..] == arrivals[i..];
    } else {
      assert arrivals[..0] == [] && arrivals[0..] == arrivals;
    }
  }

  lemma DropFromFront(a: ByteString, b: ByteString, n: nat)
    requires n <= |a|
    ensures (a + b)[n..] == a[n..] + b
  {
  }

  /** With nothing line-like behind the break, a session is the framing of its stream and no more. */
  lemma QuietSession(arrivals: seq<Arrival>)
    requires NoEof(arrivals)
    requires FrameAll(Stream(arrivals)).ending.Broken? ==> QuietBehindBreak(Stream(arrivals))
    ensures Session([], arrivals) == AsItems(FrameAll(Stream(arrivals)))
  {
    hide Session, FrameAll, AsItems, Stream, FindCrlf;
    var stream := Stream(arrivals);
    assert [] + stream == stream;
    var i := SessionBreaks([], arrivals);
    if FrameAll(stream).ending.Broken? {
      var read, left := Stream(arrivals[..i]), Stream(arrivals[i..]);
      assert [] + read == read;
      StreamSplits(arrivals, i);
      var n := BreakPoint(stream);
      assert stream[..|read|] == read && |read| >= n;
      DropFromFront(read, left, n);
      NoCrlfInSuffix(read[n..], left);
      assert [] + left == left;
      NoLineNoItem([], arrivals[i..]);
    }
  }

  lemma NoCrlfInSuffix(a: ByteString, b: ByteString)
    requires FindCrlf(a + b).None?
    ensures FindCrlf(b).None?
  {
    assert forall q: nat :: CrlfAt(b, q) ==> CrlfAt(a + b, |a| + q);
  }

  // ---- Reads that break at a chosen byte ----

  /** The reads that bring the bytes one at a time. */
  function Ones(b: ByteString): (r: seq<Arrival>)
    ensures |r| == |b| && NoEof(r) && forall i :: 0 <= i < |b| ==> r[i] == Bytes([b[i]])
  {
    seq(|b|, i requires 0 <= i < |b| => Bytes([b[i]]))
  }

  lemma {:induction false} StreamOfOnes(b: ByteString)
    ensures Stream(Ones(b)) == b
  {
    if b != [] {
      StreamOfOnes(b[1..]);
      assert Ones(b)[1..] == Ones(b[1..]) && [b[0]] + b[1..] == b;
    }
  }

  lemma {:induction false} StreamConcat(x: seq<Arrival>, y: seq<Arrival>)
    ensures Stream(x + y) == Stream(x) + Stream(y)
  {
    if x == [] {
      assert x + y == y;
    } else {
      assert (x + y)[1..] == x[1..] + y;
      StreamConcat(x[1..], y);
    }
  }

  lemma StreamOfOne(b: Chunk)
    ensures Stream([Bytes(b)]) == b
  {
    assert [Bytes(b)][1..] == [];
  }

  lemma BrokenReadsStay(x: seq<Arrival>, i: nat, j: nat)
    requires i <= j <= |x| && FrameAll(Stream(x[..i])).ending.Broken?
    ensures FrameAll(Stream(x[..j])) == FrameAll(Stream(x[..i]))
  {
    hide FrameAll, Stream;
    assert x[..j][..i] == x[..i];
    StreamSplits(x[..j], i);
    FrameAllResumes(Stream(x[..i]), Stream(x[..j][i..]));
  }

  /** If the stream breaks in the last read of `front`, the session goes on with the reads after it. */
  lemma BreaksInFront(front: seq<Arrival>, rest: seq<Arrival>)
    requires front != [] && NoEof(front) && NoEof(rest)
    requires FrameAll(Stream(front)).ending.Broken? && FrameAll(Stream(front[..|front| - 1])).ending.NeedsMore?
    ensures Session([], front + rest) == AsItems(FrameAll(Stream(front))) + Session([], rest)
  {
    hide Session, FrameAll, AsItems, Stream;
    var all, n := front + rest, |front|;
    var i := SessionBreaks([], all);
    StreamConcat(front, rest);
    FrameAllResumes(Stream(front), Stream(rest));
    assert [] + Stream(all) == Stream(all) && [] + Stream(all[..i]) == Stream(all[..i]);
    assert all[..n] == front && all[n..] == rest && all[..n - 1] == front[..n - 1];
    if i < n {
      BrokenReadsStay(all, i, n - 1);
    } else if i > n {
      assert [] + Stream(all[..i - 1]) == Stream(all[..i - 1]);
      BrokenReadsStay(all, n, i - 1);
    }
  }

  /** A way of cutting `stream` into reads. */
  predicate Cuts(arrivals: seq<Arrival>, stream: ByteString) {
    NoEof(arrivals) && Stream(arrivals) == stream
  }

  /** The furthest the read in which `b` breaks can reach. */
  function Furthest(b: ByteString): (r: nat)
    requires FrameAll(b).ending.Broken?
    ensures BreakPoint(b) <= r <= |b| && r < BreakPoint(b) + READ_MAX
  {
    var r := BreakPoint(b) - 1 + READ_MAX;
    if r <= |b| then r else |b|
  }

  /** Single bytes before the `n`-th, then one read from that to `r`. */
  function OnesThen(b: ByteString, n: nat, r: nat): seq<Arrival>
    requires 0 < n <= r <= |b| && r < n + READ_MAX
  {
    Ones(b[..n - 1]) + [Bytes(b[n - 1..r])]
  }

  lemma OnesThenCuts(b: ByteString, n: nat, r: nat, rest: seq<Arrival>)
    requires 0 < n <= r <= |b| && r < n + READ_MAX && Cuts(rest, b[r..])
    ensures var front := OnesThen(b, n, r);
            && |front| == n && NoEof(front) && Stream(front) == b[..r] && Stream(front[..n - 1]) == b[..n - 1]
            && Cuts(front + rest, b)
  {
    hide Stream;
    var ones, last := Ones(b[..n - 1]), [Bytes(b[n - 1..r])];
    StreamOfOnes(b[..n - 1]);
    StreamOfOne(b[n - 1..r]);
    StreamConcat(ones, last);
    StreamConcat(ones + last, rest);
    assert b[..n - 1] + b[n - 1..r] == b[..r] && b[..r] + b[r..] == b;
    assert (ones + last)[..n - 1] == ones;
  }

  /** A cut in which the breaking read reaches exactly to `r`. */
  lemma BreakAtSays(b: ByteString, r: nat, rest: seq<Arrival>)
    requires FrameAll(b).ending.Broken? && BreakPoint(b) <= r <= Furthest(b) && Cuts(rest, b[r..])
    ensures Cuts(OnesThen(b, BreakPoint(b), r) + rest, b)
    ensures Session([], OnesThen(b, BreakPoint(b), r) + rest) == AsItems(FrameAll(b)) + Session([], rest)
  {
    hide Session, FrameAll, AsItems, Stream, Furthest, BreakPoint, OnesThen;
    var n := BreakPoint(b);
    OnesThenCuts(b, n, r, rest);
    assert b[..|b|] == b;
    BrokenStays(b, n, r);
    BrokenStays(b, n, |b|);
    BreaksInFront(OnesThen(b, n, r), rest);
  }

  // ---- Exactly when the cut does not matter ----

  /** What the session emits when the bytes come one at a time. */
  function Says(b: ByteString): seq<Item>
    decreases |b|
  {
    AsItems(FrameAll(b)) + if FrameAll(b).ending.Broken? then Says(b[BreakPoint(b)..]) else []
  }

  lemma {:induction false} OnesSay(b: ByteString)
    ensures Session([], Ones(b)) == Says(b)
    decreases |b|
  {
    hide Session, FrameAll, AsItems, Stream, BreakPoint;
    StreamOfOnes(b);
    if FrameAll(b).ending.Broken? {
      var n := BreakPoint(b);
      StreamOfOnes(b[n..]);
      OnesSay(b[n..]);
      BreakAtSays(b, n, Ones(b[n..]));
      assert b[n - 1..n] == [b[n - 1]];
      assert Ones(b) == OnesThen(b, n, n) + Ones(b[n..]);
    } else {
      assert [] + b == b;
      var i := SessionBreaks([], Ones(b));
      assert AsItems(FrameAll(b)) + [] == AsItems(FrameAll(b));
    }
  }

  /**
   * However far the read in which `b` breaks reaches, what follows it says the same, and goes on doing so
   * however that is cut.
   */
  predicate CutsAgree(b: ByteString)
    decreases |b|
  {
    FrameAll(b).ending.NeedsMore? ||
    forall r: nat :: BreakPoint(b) <= r <= Furthest(b) ==> CutsAgree(b[r..]) && Says(b[r..]) == Says(b[BreakPoint(b)..])
  }

  /** Where the read in which a stream breaks can end. */
  lemma BreakReadEnds(b: ByteString, x: seq<Arrival>, i: nat)
    requires Cuts(x, b) && i <= |x| && Breaks([], x, i) && FrameAll(b).ending.Broken?
    ensures var r := |Stream(x[..i])|;
            && BreakPoint(b) <= r <= Furthest(b) && Cuts(x[i..], b[r..])
            && Session([], x) == AsItems(FrameAll(b)) + Session([], x[i..])
  {
    hide Session, FrameAll, AsItems, Stream, BreakPoint;
    var r := |Stream(x[..i])|;
    assert [] + b == b && [] + Stream(x[..i]) == Stream(x[..i]);
    StreamSplits(x, i);
    assert b[..r] == Stream(x[..i]) && b[r..] == Stream(x[i..]);
    EmptyIsUnbroken();
    NoStream(x);
    StreamSplits(x, i - 1);
    StreamSplits(x[..i], i - 1);
    var q := |Stream(x[..i - 1])|;
    assert [] + Stream(x[..i - 1]) == Stream(x[..i - 1]) && b[..q] == Stream(x[..i - 1]);
    if BreakPoint(b) <= q {
      BrokenStays(b, BreakPoint(b), q);
    }
    assert x[..i][..i - 1] == x[..i - 1] && x[..i][i - 1..] == [x[i - 1]];
    StreamOfSingle(x[i - 1]);
  }

  lemma StreamOfSingle(a: Arrival)
    ensures |Stream([a])| <= READ_MAX
  {
    match a
    case Bytes(b) => StreamOfOne(b);
    case Timeout => assert [a][1..] == [] && Stream([a][1..]) == [];
  }

  lemma {:induction false} AgreeingCuts(b: ByteString, x: seq<Arrival>)
    requires CutsAgree(b) && Cuts(x, b)
    ensures Session([], x) == Says(b)
    decreases |b|
  {
    hide Session, FrameAll, AsItems, Stream, BreakPoint, Breaks, Furthest;
    var i := SessionBreaks([], x);
    if FrameAll(b).ending.Broken? {
      BreakReadEnds(b, x, i);
      AgreeingCuts(b[|Stream(x[..i])|..], x[i..]);
    } else {
      UnbrokenSession(b, x, i);
      assert AsItems(FrameAll(b)) + [] == AsItems(FrameAll(b));
    }
  }

  lemma UnbrokenSession(b: ByteString, x: seq<Arrival>, i: nat)
    requires Cuts(x, b) && i <= |x| && Breaks([], x, i) && FrameAll(b).ending.NeedsMore?
    ensures Session([], x) == AsItems(FrameAll(b))
  {
    hide Session, FrameAll, AsItems, Stream;
    assert [] + b == b;
  }

  lemma {:induction false} DifferingCuts(b: ByteString) returns (x: seq<Arrival>, y: seq<Arrival>)
    requires !CutsAgree(b)
    ensures Cuts(x, b) && Cuts(y, b) && Session([], x) != Session([], y)
    decreases |b|
  {
    hide Session, FrameAll, AsItems, Stream, BreakPoint, Furthest, OnesThen;
    var r: nat :| BreakPoint(b) <= r <= Furthest(b) && !(CutsAgree(b[r..]) && Says(b[r..]) == Says(b[BreakPoint(b)..]));
    if CutsAgree(b[r..]) {
      StreamOfOnes(b);
      StreamOfOnes(b[r..]);
      OnesSay(b);
      OnesSay(b[r..]);
      BreakAtSays(b, r, Ones(b[r..]));
      x, y := OnesThen(b, BreakPoint(b), r) + Ones(b[r..]), Ones(b);
      SameFront(AsItems(FrameAll(b)), Says(b[r..]), Says(b[BreakPoint(b)..]));
    } else {
      var x', y' := DifferingCuts(b[r..]);
      BreakAtSays(b, r, x');
      BreakAtSays(b, r, y');
      x, y := OnesThen(b, BreakPoint(b), r) + x', OnesThen(b, BreakPoint(b), r) + y';
      SameFront(AsItems(FrameAll(b)), Session([], x'), Session([], y'));
    }
  }

  lemma SameFront(a: seq<Item>, b: seq<Item>, c: seq<Item>)
    ensures a + b == a + c <==> b == c
  {
    if a + b == a + c {
      assert b == (a + b)[|a|..] == (a + c)[|a|..] == c;
    }
  }

  /**
   * When chunking matters: all ways of cutting a stream into reads make the session emit the same full list
   * of items if and only if what is said behind each break does not depend on how far the read it happens in
   * reaches.
   */
  lemma CutsAgreeIff(stream: ByteString)
    ensures (forall x: seq<Arrival>, y: seq<Arrival> :: Cuts(x, stream) && Cuts(y, stream) ==>
              Session([], x) == Session([], y))
            <==> CutsAgree(stream)
  {
    hide Session, CutsAgree, Cuts;
    if CutsAgree(stream) {
      forall x: seq<Arrival>, y: seq<Arrival> | Cuts(x, stream) && Cuts(y, stream)
        ensures Session([], x) == Session([], y)
      {
        AgreeingCuts(stream, x);
        AgreeingCuts(stream, y);
      }
    } else {
      var x, y := DifferingCuts(stream);
    }
  }

  lemma ParseNothing()
    ensures ParseOne([]) == Failed(Incomplete)
  {
  }

  /** A CRLF at the front of an empty buffer is an empty line, and is answered. */
  lemma EmptyLineIsAnswered(b: ByteString)
    requires CrlfAt(b, 0)
    ensures Says(b) != []
  {
    FindIsUnique(b, 0);
    assert ParseOne(b) == Failed(Malformed);
    OneBad(Malformed);
  }

  lemma NothingSaysNothing()
    ensures Says([]) == []
  {
    ParseNothing();
    NothingFramed([]);
  }

  /**
   * The condition in the plain case that one read can take all that lies behind the break: the cuts agree
   * just when there is no CRLF in it.
   */
  lemma CutsAgreeIffQuiet(stream: ByteString)
    requires FrameAll(stream).ending.Broken? && |stream| < BreakPoint(stream) + READ_MAX
    ensures CutsAgree(stream) <==> QuietBehindBreak(stream)
  {
    hide Session, FrameAll, AsItems, FindCrlf, BreakPoint, Says, QuietBehindBreak;
    if QuietBehindBreak(stream) {
      QuietCutsAgree(stream);
    } else {
      var r := NoisySuffix(stream);
      NothingSaysNothing();
      assert Furthest(stream) == |stream| && stream[|stream|..] == [];
      assert Says(stream[r..]) != Says(stream[|stream|..]);
    }
  }

  /** Where a CRLF stands behind the break, a session starting there says something. */
  lemma NoisySuffix(stream: ByteString) returns (r: nat)
    requires FrameAll(stream).ending.Broken? && !QuietBehindBreak(stream)
    ensures BreakPoint(stream) <= r <= |stream| && Says(stream[r..]) != []
  {
    hide FrameAll, BreakPoint, Says, FindCrlf;
    var n := BreakPoint(stream);
    r := n + FindCrlf(stream[n..]).value;
    assert CrlfAt(stream[r..], 0) by { assert CrlfAt(stream[n..], r - n); }
    EmptyLineIsAnswered(stream[r..]);
  }

  /** With nothing line-like behind the break the cuts agree, however long the stream is. */
  lemma QuietCutsAgree(stream: ByteString)
    requires FrameAll(stream).ending.Broken? && QuietBehindBreak(stream)
    ensures CutsAgree(stream)
  {
    hide Session, FrameAll, AsItems, FindCrlf, BreakPoint, CutsAgree;
    forall x: seq<Arrival>, y: seq<Arrival> | Cuts(x, stream) && Cuts(y, stream)
      ensures Session([], x) == Session([], y)
    {
      QuietSession(x);
      QuietSession(y);
    }
    CutsAgreeIff(stream);
  }

  /**
   * What a cut can cost: behind any stream that ends in a hard error, a good frame that the breaking read
   * takes in too is thrown away with the buffer, and read separately it is delivered.
   */
  lemma FrameBehindAnError(stream: ByteString, f: Frame)
    requires FrameAll(stream).ending.Broken? && Sized(f)
    requires |stream| - BreakPoint(stream) + 1 + |Encode(f)| <= READ_MAX
    ensures var n, all := BreakPoint(stream), stream + Encode(f);
            var x, y := OnesThen(all, n, |all|), OnesThen(all, n, |stream|) + [Bytes(Encode(f))];
            && Cuts(x, all) && Cuts(y, all)
            && Session([], x) == AsItems(FrameAll(stream))
            && Session([], y) == AsItems(FrameAll(stream)) + [Got(f)]
  {
    hide FrameAll, AsItems, ParseOne, Encode, BreakPoint, Session, Stream, OnesThen;
    var n, good := BreakPoint(stream), Encode(f);
    var all := stream + good;
    OneGoodFrame(f);
    StreamOfOne(good);
    StreamOfNone();
    assert all[..|stream|] == stream && all[|stream|..] == good && all[..|all|] == all && all[|all|..] == [];
    assert all[..n - 1] == stream[..n - 1];
    OnesThenCuts(all, n, |stream|, [Bytes(good)]);
    OnesThenCuts(all, n, |all|, []);
    FrameAllResumes(stream, good);
    BreaksInFront(OnesThen(all, n, |stream|), [Bytes(good)]);
    BreaksInFront(OnesThen(all, n, |all|), []);
    assert OnesThen(all, n, |all|) + [] == OnesThen(all, n, |all|);
    assert AsItems(FrameAll(stream)) + [] == AsItems(FrameAll(stream));
  }

  lemma StreamOfNone()
    ensures Stream([]) == []
  {
  }

  lemma OneGoodFrame(f: Frame)
    requires Sized(f) && |Encode(f)| <= READ_MAX
    ensures Encode(f) != [] && Session([], [Bytes(Encode(f))]) == [Got(f)] && Session([], []) == []
  {
    hide ParseOne, Encode;
    var good := Encode(f);
    FrameTheory.RoundTrip(f, []);
    ParseNothing();
    assert good + [] == good && [] + good == good;
    assert [Bytes(good)][1..] == [];
    assert Session(good, []) == [Got(f)] + Session([], []);
  }

  // ---- The reader object ----

  datatype Outcome = Frame(frame: Frames.Frame) | Eof | TimedOut

  /** What the socket hands to the buffered reader at a time: some bytes, none at its end, or a timeout. */
  datatype Delivery = Delivered(bytes: ByteString) | Stalled

  /** The reads a session gets of what the socket delivers: at most `READ_MAX` bytes each, the rest kept back. */
  function Reads(pending: ByteString, deliveries: seq<Delivery>): seq<Arrival>
    decreases |deliveries|, |pending|
  {
    if pending != [] then
      var n := if |pending| <= READ_MAX then |pending| else READ_MAX;
      [Bytes(pending[..n])] + Reads(pending[n..], deliveries)
    else if deliveries == [] then []
    else if deliveries[0].Stalled? then [Timeout] + Reads([], deliveries[1..])
    else if deliveries[0].bytes == [] then [Bytes([])] + Reads([], deliveries[1..])
    else Reads(deliveries[0].bytes, deliveries[1..])
  }

  function AsDeliveries(arrivals: seq<Arrival>): seq<Delivery> {
    seq(|arrivals|, i requires 0 <= i < |arrivals| =>
      if arrivals[i].Timeout? then Stalled else Delivered(arrivals[i].bytes))
  }

  /** Every list of reads within the limit is one a socket can cause. */
  lemma {:induction false} EveryCutCanHappen(arrivals: seq<Arrival>)
    ensures Reads([], AsDeliveries(arrivals)) == arrivals
  {
    if arrivals != [] {
      var first, rest := arrivals[0], arrivals[1..];
      EveryCutCanHappen(rest);
      var ds := AsDeliveries(arrivals);
      assert ds[1..] == AsDeliveries(rest) && arrivals == [first] + rest;
      ReadsNext(ds);
      match first
      case Timeout =>
      case Bytes(b) =>
        if b != [] {
          assert b[..|b|] == b && b[|b|..] == [];
          ReadsPending(b, AsDeliveries(rest));
        }
    }
  }

  lemma ReadsPending(pending: ByteString, deliveries: seq<Delivery>)
    requires pending != []
    ensures var n := if |pending| <= READ_MAX then |pending| else READ_MAX;
            var r := Reads(pending, deliveries);
            r != [] && r[0] == Bytes(pending[..n]) && r[1..] == Reads(pending[n..], deliveries)
  {
  }

  lemma ReadsNext(deliveries: seq<Delivery>)
    requires deliveries != []
    ensures var d, r := deliveries[0], Reads([], deliveries); var later := deliveries[1..];
            if d.Delivered? && d.bytes != [] then r == Reads(d.bytes, later)
            else r != [] && r[0] == (if d.Stalled? then Timeout else Bytes([])) && r[1..] == Reads([], later)
  {
  }

  function Delivers(deliveries: seq<Delivery>): ByteString {
    if deliveries == [] then []
    else (if deliveries[0].Delivered? then deliveries[0].bytes else []) + Delivers(deliveries[1..])
  }

  /** However the deliveries are cut up for reading, every byte is read once and in order. */
  lemma {:induction false} ReadsKeepEveryByte(pending: ByteString, deliveries: seq<Delivery>)
    ensures Stream(Reads(pending, deliveries)) == pending + Delivers(deliveries)
    decreases |deliveries|, |pending|
  {
    if pending != [] {
      var n := if |pending| <= READ_MAX then |pending| else READ_MAX;
      ReadsPending(pending, deliveries);
      ReadsKeepEveryByte(pending[n..], deliveries);
      assert pending == pending[..n] + pending[n..];
      Associative(pending[..n], pending[n..], Delivers(deliveries));
    } else if deliveries != [] {
      ReadsNext(deliveries);
      ReadsKeepEveryByte(if deliveries[0].Delivered? then deliveries[0].bytes else [], deliveries[1..]);
      assert [] + Delivers(deliveries) == Delivers(deliveries);
      assert [] + Delivers(deliveries[1..]) == Delivers(deliveries[1..]);
    }
  }

  /** `after` is what is left of `before`, and a timeout is taken just when it is what stopped the reading, last. */
  predicate StopsAtTimeout(before: seq<Arrival>, after: seq<Arrival>, timedOut: bool) {
    && |after| <= |before| && after == before[|before| - |after|..]
    && (timedOut ==> |after| < |before|)
    && forall i :: 0 <= i < |before| - |after| ==>
         (before[i].Timeout? <==> timedOut && i == |before| - |after| - 1)
  }

  /**
   * `SessionReader` and the part of `ReadHalf` that loops over it. `pending` is what the buffered reader holds,
   * `errors` what the session replied with.
   */
  class SessionReader {
    var buf: ByteString
    var pending: ByteString
    var deliveries: seq<Delivery>
    var errors: seq<FrameError>

    constructor (deliveries: seq<Delivery>)
      ensures buf == [] && pending == [] && this.deliveries == deliveries && errors == []
    {
      buf, pending, this.deliveries, errors := [], [], deliveries, [];
    }

    /** The reads still to come. */
    function Arrivals(): seq<Arrival>
      reads this
    {
      Reads(pending, deliveries)
    }

    /** One read of at most 1 KiB appended to the buffer, from the socket only if nothing is held back. */
    method Read() returns (r: Option<nat>)
      modifies this`buf, this`pending, this`deliveries
      ensures r.Some? ==> r.value <= 1024
      ensures old(pending) != [] ==>
                r == Some(if |old(pending)| <= 1024 then |old(pending)| else 1024) && deliveries == old(deliveries)
      ensures old(Arrivals()) == [] ==> r == Some(0) && buf == old(buf) && Arrivals() == []
      ensures old(Arrivals()) != [] ==> Arrivals() == old(Arrivals())[1..]
      ensures old(Arrivals()) != [] && old(Arrivals())[0].Timeout? ==> r == None && buf == old(buf)
      ensures old(Arrivals()) != [] && old(Arrivals())[0].Bytes? ==>
                r == Some(|old(Arrivals())[0].bytes|) && buf == old(buf) + old(Arrivals())[0].bytes
      ensures r.Some? && r.value > 0 ==>
                |deliveries| < |old(deliveries)| || (deliveries == old(deliveries) && |pending| < |old(pending)|)
    {
      if pending == [] {
        if deliveries == [] {
          return Some(0);
        }
        ReadsNext(deliveries);
        var delivery := deliveries[0];
        deliveries := deliveries[1..];
        if delivery.Stalled? {
          return None;
        }
        pending := delivery.bytes;
      }
      var n := if |pending| <= READ_MAX then |pending| else READ_MAX;
      if pending != [] {
        ReadsPending(pending, deliveries);
      }
      buf := buf + pending[..n];
      pending := pending[n..];
      r := Some(n);
    }

    /** One frame off the front: a success drains exactly the bytes consumed, a hard error clears everything. */
    method ParseNext() returns (r: Result<Frames.Frame, FrameError>)
      modifies this`buf
      ensures r == match ParseOne(old(buf)) case Parsed(f, _) => Ok(f) case Failed(e) => Err(e)
      ensures r.Ok? ==> buf == ParseOne(old(buf)).rest && |buf| < |old(buf)| && old(buf)[|old(buf)| - |buf|..] == buf
      ensures r == Err(Incomplete) ==> buf == old(buf)
      ensures r.Err? && r.error != Incomplete ==> buf == [] && old(buf) != []
    {
      hide ParseOne;
      var one := ParseFrame(buf);
      match one
      case Parsed(frame, rest) =>
        FrameTheory.ParseConsumes(buf);
        var consumed := |buf| - |rest|;
        buf := buf[consumed..];
        r := Ok(frame);
      case Failed(e) =>
        if e != Incomplete {
          HardErrorNeedsBytes(buf);
          buf := [];
        }
        r := Err(e);
    }

    /**
     * `read_frame`: parse, read more when incomplete, answer a malformed frame and carry on. What it
     * replies and returns is the next stretch of the session. The first timeout sends it back to its caller.
     */
    method ReadFrame() returns (r: Outcome)
      modifies this
      ensures old(errors) <= errors
      ensures old(Session(buf, Arrivals())) ==
              Bads(errors[|old(errors)|..]) +
              match r
              case Frame(f) => [Got(f)] + Session(buf, Arrivals())
              case TimedOut => Session(buf, Arrivals())
              case Eof => []
      ensures StopsAtTimeout(old(Arrivals()), Arrivals(), r.TimedOut?)
    {
      hide ParseOne, Reads, Session, StopsAtTimeout, Bads;
      ghost var start := Session(buf, Arrivals());
      ghost var all, taken := Arrivals(), 0;
      NoBads(start);
      assert errors[|old(errors)|..] == [];
      while true
        invariant old(errors) <= errors
        invariant start == Bads(errors[|old(errors)|..]) + Session(buf, Arrivals())
        invariant taken <= |all| && Arrivals() == all[taken..]
        invariant forall i :: 0 <= i < taken ==> all[i].Bytes?
        decreases |deliveries|, |pending|, |buf|
      {
        ghost var before := errors[|old(errors)|..];
        SessionUnfolds(buf, Arrivals());
        var next := ParseNext();
        match next
        case Ok(frame) =>
          Stops(all, taken, false);
          return Frame(frame);
        case Err(e) =>
          if e == Incomplete {
            var got := Read();
            if got.None? {
              Stops(all, taken + 1, true);
              return TimedOut;
            }
            taken := if taken < |all| then taken + 1 else taken;
            if got == Some(0) {
              Stops(all, taken, false);
              return Eof;
            }
          } else {
            errors := errors + [e];
            assert errors[|old(errors)|..] == before + [e];
            BadsNext(before, e, Session(buf, Arrivals()));
          }
      }
    }
  }

  lemma NoBads(items: seq<Item>)
    ensures Bads([]) + items == items
  {
  }

  /** What a session does next. */
  lemma SessionUnfolds(buf: ByteString, arrivals: seq<Arrival>)
    ensures var one := ParseOne(buf);
            && (one.Parsed? ==> Session(buf, arrivals) == [Got(one.frame)] + Session(one.rest, arrivals))
            && (one.Failed? && one.error != Incomplete ==>
                  Session(buf, arrivals) == [Bad(one.error)] + Session([], arrivals))
            && (one == Failed(Incomplete) ==>
                  Session(buf, arrivals) ==
                  if arrivals == [] then []
                  else if arrivals[0].Timeout? then Session(buf, arrivals[1..])
                  else if arrivals[0].bytes == [] then []
                  else Session(buf + arrivals[0].bytes, arrivals[1..]))
  {
    hide ParseOne;
  }

  lemma Stops(all: seq<Arrival>, taken: nat, timedOut: bool)
    requires taken <= |all| && (timedOut ==> taken > 0 && all[taken - 1].Timeout?)
    requires forall i :: 0 <= i < (if timedOut then taken - 1 else taken) ==> all[i].Bytes?
    ensures StopsAtTimeout(all, all[taken..], timedOut)
  {
  }

  function Bads(es: seq<FrameError>): seq<Item> {
    seq(|es|, i requires 0 <= i < |es| => Bad(es[i]))
  }

  lemma BadsNext(es: seq<FrameError>, e: FrameError, items: seq<Item>)
    ensures Bads(es) + ([Bad(e)] + items) == Bads(es + [e]) + items
  {
    assert Bads(es + [e]) == Bads(es) + [Bad(e)];
    Associative(Bads(es), [Bad(e)], items);
  }
}
