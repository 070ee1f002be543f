/**
 * Replay forgives a torn entry at the end of the log but does not cut it off, and the writer appends. This
 * is what the start-up after that makes of the torn entry and of everything appended behind it, for every
 * byte the tear can fall on.
 */
module TornTails {
  import opened Wrappers
  import opened Bytes
  import opened Sequences
  import Decimal
  import opened Crlf
  import opened Frames
  import FrameTheory
  import opened Commands
  import opened CommandCodec
  import opened Recovery
  import opened LogCodec

  // ---- Where an entry can be torn ----

  /** Element number and how many of its bytes are there. */
  datatype Place = Place(elem: nat, offset: nat)

  /** Which element byte `d` of an encoded list falls in. */
  function Locate(gs: seq<Frame>, d: nat): Place {
    if gs == [] || d < |Encode(gs[0])| then Place(0, d)
    else
      var rest := Locate(gs[1..], d - |Encode(gs[0])|);
      Place(rest.elem + 1, rest.offset)
  }

  lemma {:induction false} Located(gs: seq<Frame>, d: nat)
    requires d < |EncodeAll(gs)|
    ensures var p := Locate(gs, d);
            && p.elem < |gs| && p.offset < |Encode(gs[p.elem])|
            && EncodeAll(gs)[..d] == EncodeAll(gs[..p.elem]) + Encode(gs[p.elem])[..p.offset]
  {
    hide Encode;
    var first, rest := Encode(gs[0]), EncodeAll(gs[1..]);
    FrameTheory.CutInTwo(first, rest, d);
    if d < |first| {
      assert EncodeAll(gs[..0]) == [] && [] + first[..d] == first[..d];
    } else {
      Located(gs[1..], d - |first|);
      var p := Locate(gs[1..], d - |first|);
      assert gs[..p.elem + 1][0] == gs[0] && gs[..p.elem + 1][1..] == gs[1..][..p.elem];
      Associative(first, EncodeAll(gs[1..][..p.elem]), Encode(gs[1..][p.elem])[..p.offset]);
    }
  }

  /**
   * In the entry's own header line, just before one of its elements, in an element's header line, or with
   * `have` of an element's payload and terminator there.
   */
  datatype Tear = InHeader | AtElement(elem: nat) | InElementHeader(elem: nat) | InPayload(elem: nat, have: nat)

  /** The arguments of a logged write, verb first. */
  function Args(w: WriteCommand): seq<Frame> {
    ToFrame(w).elems
  }

  function PayloadOf(f: Frame): ByteString {
    if f.BulkString? then f.payload else []
  }

  function TearAt(torn: WriteCommand, k: nat): Tear {
    var args := Args(torn);
    if k < |Head(STAR, |args|)| then InHeader
    else
      var p := Locate(args, k - |Head(STAR, |args|)|);
      if p.offset == 0 || p.elem >= |args| then AtElement(p.elem)
      else
        var head := |Head(DOLLAR, |PayloadOf(args[p.elem])|)|;
        if p.offset < head then InElementHeader(p.elem) else InPayload(p.elem, p.offset - head)
  }

  lemma ArgsAreBulk(w: WriteCommand)
    requires Storable(w)
    ensures forall g :: g in Args(w) ==> g.BulkString? && Sized(g)
    ensures 2 <= |Args(w)| <= U64_MAX
  {
    LogFormSized(w);
  }

  // ---- Reading over the seam ----

  lemma StarIsNoDigit(s: ByteString)
    requires STAR in s
    ensures Decimal.ParseUnsigned(s, U64_MAX).None?
  {
    var i :| 0 <= i < |s| && s[i] == STAR;
    var body := if s[0] == PLUS then s[1..] else s;
    assert body[|body| - (|s| - i)] == STAR;
  }

  /** Part of a header line runs on into the next entry's header, and the two make no number. */
  lemma JoinedHeaders(sigil: Byte, len: nat, j: nat, f: Frame, s: ByteString)
    requires sigil != CR && 0 < j < |Head(sigil, len)| && f.Array?
    ensures ParseHead(Head(sigil, len)[..j] + (Encode(f) + s)) == HeadErr(InvalidLength)
  {
    hide Decimal.Print;
    var cut, digits := Head(sigil, len)[..j], Decimal.Print(|f.elems|);
    var line := cut + ([STAR] + digits);
    var b := cut + (Encode(f) + s);
    assert b == line + CRLF + (EncodeAll(f.elems) + s);
    FrameTheory.HeadLine(sigil, len);
    var own := [sigil] + Decimal.Print(len);
    forall q: nat | q < |line|
      ensures !CrlfAt(b, q)
    {
      if q < j - 1 {
        assert b[q] == own[q];
      } else if q == j - 1 {
        assert b[q + 1] == STAR;
      } else if q > j {
        assert b[q] == digits[q - j - 1];
      }
    }
    FindIsUnique(b, |line|);
    assert b[..|line|] == line;
    assert line[1..][j - 1] == STAR;
    StarIsNoDigit(line[1..]);
  }

  /** Whole elements, then whatever the rest reads as. */
  lemma {:induction false} ElemsThen(gs: seq<Frame>, s: ByteString, m: nat)
    requires forall g :: g in gs ==> Sized(g)
    ensures ParseElems(EncodeAll(gs) + s, |gs| + m) == Prepend(gs, ParseElems(s, m))
  {
    hide ParseOne, Encode;
    var r := ParseElems(s, m);
    if gs == [] {
      assert EncodeAll(gs) + s == s;
      assert r.ParsedAll? ==> [] + r.frames == r.frames;
    } else {
      Associative(Encode(gs[0]), EncodeAll(gs[1..]), s);
      FrameTheory.RoundTrip(gs[0], EncodeAll(gs[1..]) + s);
      ElemsThen(gs[1..], s, m);
      assert r.ParsedAll? ==> [gs[0]] + (gs[1..] + r.frames) == gs + r.frames;
    }
  }

  /** What the parser makes of an entry torn after `i` whole elements, with `s` following. */
  lemma TornAfter(args: seq<Frame>, i: nat, s: ByteString)
    requires i <= |args| <= U64_MAX && forall g :: g in args ==> Sized(g)
    ensures ParseOne(Head(STAR, |args|) + (EncodeAll(args[..i]) + s)) ==
            AsArray(Prepend(args[..i], ParseElems(s, |args| - i)))
  {
    hide ParseElems, Head, ParseHead, EncodeAll;
    FrameTheory.HeadRoundTrip(STAR, |args|, EncodeAll(args[..i]) + s);
    ElemsThen(args[..i], s, |args| - i);
  }

  function AsFrames(ws: seq<WriteCommand>): (r: seq<Frame>)
    ensures |r| == |ws| && forall i :: 0 <= i < |ws| ==> r[i] == ToFrame(ws[i])
  {
    seq(|ws|, i requires 0 <= i < |ws| => ToFrame(ws[i]))
  }

  lemma {:induction false} LogIsFrames(ws: seq<WriteCommand>)
    ensures EncodeLog(ws) == EncodeAll(AsFrames(ws))
  {
    hide Encode, ToFrame;
    if ws != [] {
      LogIsFrames(ws[1..]);
      assert AsFrames(ws)[1..] == AsFrames(ws[1..]);
    }
  }

  lemma FramesSized(ws: seq<WriteCommand>)
    requires AllStorable(ws)
    ensures forall g :: g in AsFrames(ws) ==> Sized(g)
  {
    hide ToFrame, Storable, Sized;
    forall i | 0 <= i < |ws|
      ensures Sized(AsFrames(ws)[i])
    {
      LogFormSized(ws[i]);
    }
  }

  /** Later entries are taken for the elements still owed: all of them, if there are not enough. */
  lemma LaterEntriesAreElements(more: seq<WriteCommand>, m: nat)
    requires AllStorable(more) && m > 0
    ensures |more| < m ==> ParseElems(EncodeLog(more), m) == FailedAll(Incomplete)
    ensures |more| >= m ==> ParseElems(EncodeLog(more), m) == ParsedAll(AsFrames(more[..m]), EncodeLog(more[m..]))
  {
    hide EncodeLog, EncodeAll, ParseElems, ToFrame, Storable, Sized;
    if |more| < m {
      LogIsFrames(more);
      FramesSized(more);
      assert EncodeAll(AsFrames(more)) + [] == EncodeAll(AsFrames(more));
      ElemsThen(AsFrames(more), [], m - |more|);
      NoElements(m - |more|);
    } else {
      EncodeLogConcat(more[..m], more[m..]);
      assert more[..m] + more[m..] == more;
      LogIsFrames(more[..m]);
      FramesSized(more[..m]);
      ElemsThen(AsFrames(more[..m]), EncodeLog(more[m..]), 0);
      NoneOwed(EncodeLog(more[m..]));
      assert AsFrames(more[..m]) + [] == AsFrames(more[..m]);
    }
  }

  lemma NoneOwed(s: ByteString)
    ensures ParseElems(s, 0) == ParsedAll([], s)
  {
  }

  lemma NoElements(m: nat)
    requires m > 0
    ensures ParseElems([], m) == FailedAll(Incomplete)
  {
  }

  /** An entry some of whose arguments are entries is no command. */
  lemma EntryAsArgument(torn: WriteCommand, i: nat, fs: seq<Frame>, now: Millis)
    requires i < |Args(torn)| == i + |fs| && forall f :: f in fs ==> f.Array?
    ensures FromFrame(Array(Args(torn)[..i] + fs), now) == Err(UnexpectedFrame)
  {
    hide Lower, Decimal.Print, Decimal.ParseUnsigned;
    LogVerbsLower();
    var elems := Args(torn)[..i] + fs;
    assert fs[0] in fs;
    assert elems[i] == fs[0];
    var args := elems[1..];
    if i > 0 {
      assert args[i - 1] == fs[0];
      assert forall j :: 0 <= j < i - 1 ==> args[j] == Args(torn)[j + 1];
      if torn.Set? && i == 2 {
        assert args[1..][0] == fs[0];
      } else if torn.Set? && i == 4 {
        assert args[3..][0] == fs[0];
      } else if torn.Set? && i == 3 {
        assert fs[1] in fs;
      } else if torn.ExpireAt? && i == 2 {
        assert args[1..][0] == fs[0];
      }
    }
  }

  // ---- The fate of every tear ----

  /** The bytes of the torn entry up to the tear, element by element. */
  lemma TornBytes(torn: WriteCommand, k: nat)
    requires Storable(torn) && k < |EncodeWrite(torn)|
    ensures var args := Args(torn); var head := Head(STAR, |args|);
            if k < |head| then EncodeWrite(torn)[..k] == head[..k]
            else
              var p := Locate(args, k - |head|);
              && p.elem < |args| && p.offset < |Encode(args[p.elem])|
              && EncodeWrite(torn)[..k] == head + (EncodeAll(args[..p.elem]) + Encode(args[p.elem])[..p.offset])
  {
    hide Encode, Head;
    var args := Args(torn);
    var head := Head(STAR, |args|);
    EntryBytes(torn);
    FrameTheory.CutInTwo(head, EncodeAll(args), k);
    if k >= |head| {
      Located(args, k - |head|);
    }
  }

  lemma EntryBytes(w: WriteCommand)
    ensures ToFrame(w).Array? && EncodeWrite(w) == Head(STAR, |Args(w)|) + EncodeAll(Args(w))
  {
  }

  /** The parser at the seam, when the tear falls in a header line, before an element, or in a payload. */
  lemma SeamInHeader(torn: WriteCommand, k: nat, next: WriteCommand, s: ByteString)
    requires Storable(torn) && 0 < k < |EncodeWrite(torn)| && TearAt(torn, k).InHeader?
    ensures ParseOne(EncodeWrite(torn)[..k] + (EncodeWrite(next) + s)) == Failed(InvalidLength)
  {
    hide Encode, Head, ParseHead;
    TornBytes(torn, k);
    EntryBytes(next);
    JoinedHeaders(STAR, |Args(torn)|, k, ToFrame(next), s);
  }

  lemma Regroup(a: ByteString, b: ByteString, c: ByteString, d: ByteString)
    ensures (a + (b + c)) + d == a + (b + (c + d))
  {
  }

  /** With the tear after the header: what follows is read as the elements still owed. */
  lemma SeamInElements(torn: WriteCommand, k: nat, s: ByteString)
    requires Storable(torn) && k < |EncodeWrite(torn)| && !TearAt(torn, k).InHeader?
    ensures var args := Args(torn); var p := Locate(args, k - |Head(STAR, |args|)|);
            && p.elem < |args| && p.offset < |Encode(args[p.elem])|
            && ParseOne(EncodeWrite(torn)[..k] + s) ==
               AsArray(Prepend(args[..p.elem], ParseElems(Encode(args[p.elem])[..p.offset] + s, |args| - p.elem)))
  {
    hide Encode, EncodeAll, Head, ParseOne, ParseElems, EncodeWrite, Args, Locate, Storable, Sized;
    var args := Args(torn);
    var head := Head(STAR, |args|);
    var p := Locate(args, k - |head|);
    ArgsAreBulk(torn);
    TornBytes(torn, k);
    var part := Encode(args[p.elem])[..p.offset];
    Regroup(head, EncodeAll(args[..p.elem]), part, s);
    TornAfter(args, p.elem, part + s);
  }

  /** The bytes the parser takes for the torn payload and its terminator. */
  function Spliced(payload: ByteString, have: nat, s: ByteString): ByteString {
    if have <= |payload + CRLF| then (payload + CRLF)[..have] + s else s
  }

  lemma BulkBytes(payload: ByteString)
    ensures Encode(BulkString(payload)) == Head(DOLLAR, |payload|) + (payload + CRLF)
  {
    hide Head;
    Associative(Head(DOLLAR, |payload|), payload, CRLF);
  }

  /** What the parser makes of a bulk string's header. */
  lemma ParseBulkHead(len: nat, s: ByteString)
    requires len <= U64_MAX
    ensures ParseOne(Head(DOLLAR, len) + s) == ParseBulk(s, len)
  {
    hide Head, ParseBulk, ParseHead;
    FrameTheory.HeadRoundTrip(DOLLAR, len, s);
  }

  /** An element torn in its payload is completed with whatever bytes come next. */
  lemma ElementOverSeam(payload: ByteString, offset: nat, s: ByteString)
    requires |payload| <= U64_MAX && |Head(DOLLAR, |payload|)| <= offset < |Encode(BulkString(payload))|
    ensures ParseOne(Encode(BulkString(payload))[..offset] + s) ==
            ParseBulk(Spliced(payload, offset - |Head(DOLLAR, |payload|)|, s), |payload|)
  {
    hide Head, ParseBulk, Encode, ParseOne;
    var head, body := Head(DOLLAR, |payload|), payload + CRLF;
    var have := offset - |head|;
    BulkBytes(payload);
    FrameTheory.CutInTwo(head, body, offset);
    Associative(head, body[..have], s);
    ParseBulkHead(|payload|, body[..have] + s);
  }

  lemma ElementHeadOverSeam(payload: ByteString, offset: nat, next: WriteCommand, s: ByteString)
    requires 0 < offset < |Head(DOLLAR, |payload|)|
    ensures ParseOne(Encode(BulkString(payload))[..offset] + (EncodeWrite(next) + s)) == Failed(InvalidLength)
  {
    hide Head, ParseHead, Encode;
    EntryBytes(next);
    BulkBytes(payload);
    FrameTheory.CutInTwo(Head(DOLLAR, |payload|), payload + CRLF, offset);
    JoinedHeaders(DOLLAR, |payload|, offset, ToFrame(next), s);
  }

  /** The torn element can be completed: its length is reached, and a CRLF happens to stand right there. */
  predicate Splices(torn: WriteCommand, k: nat, more: seq<WriteCommand>) {
    match TearAt(torn, k)
    case InPayload(i, have) =>
      i < |Args(torn)| &&
      (var payload := PayloadOf(Args(torn)[i]);
       var bytes := Spliced(payload, have, EncodeLog(more));
       |payload| + 2 <= |bytes| && bytes[|payload|..|payload| + 2] == CRLF)
    case _ => false
  }

  /** How the start-up ends, for every tear that is not spliced over. */
  function SeamEnd(torn: WriteCommand, k: nat, more: seq<WriteCommand>): LogEnd {
    match TearAt(torn, k)
    case InHeader => BadFrame(InvalidLength)
    case InElementHeader(_) => BadFrame(InvalidLength)
    case AtElement(i) =>
      if i + |more| < |Args(torn)| then TornOrEmpty else BadCommand(UnexpectedFrame)
    case InPayload(i, have) =>
      if i < |Args(torn)| &&
         |Spliced(PayloadOf(Args(torn)[i]), have, EncodeLog(more))| < |PayloadOf(Args(torn)[i])| + 2
      then TornOrEmpty else BadFrame(MissingTerminator)
  }

  /** Reading `x` executes nothing and ends as `end`. */
  predicate ReadsAs(x: ByteString, clock: nat -> Millis, n: nat, end: LogEnd) {
    ReadLog(x, clock, n) == LogRead([], end)
  }

  lemma FailedReads(x: ByteString, clock: nat -> Millis, n: nat)
    requires ParseOne(x).Failed?
    ensures ReadsAs(x, clock, n, if ParseOne(x).error == Incomplete then TornOrEmpty else BadFrame(ParseOne(x).error))
  {
    hide ParseOne;
  }

  lemma BadCommandReads(x: ByteString, e: CommandError, clock: nat -> Millis, n: nat)
    requires ParseOne(x).Parsed? && FromFrame(ParseOne(x).frame, clock(2 * n)) == Err(e)
    ensures ReadsAs(x, clock, n, BadCommand(e))
  {
    hide ParseOne, FromFrame;
  }

  lemma FirstElementFails(s: ByteString, m: nat)
    requires m > 0 && ParseOne(s).Failed?
    ensures ParseElems(s, m) == FailedAll(ParseOne(s).error)
  {
    hide ParseOne;
  }

  lemma FirstElementParses(s: ByteString, m: nat)
    requires m > 0 && ParseOne(s).Parsed?
    ensures ParseElems(s, m) == Prepend([ParseOne(s).frame], ParseElems(ParseOne(s).rest, m - 1))
  {
    hide ParseOne;
  }

  lemma FateBeforeElement(torn: WriteCommand, k: nat, more: seq<WriteCommand>, clock: nat -> Millis, n: nat)
    requires Storable(torn) && AllStorable(more) && k < |EncodeWrite(torn)| && TearAt(torn, k).AtElement?
    ensures ReadsAs(EncodeWrite(torn)[..k] + EncodeLog(more), clock, n, SeamEnd(torn, k, more))
  {
    hide Encode, EncodeAll, Head, ParseOne, ParseElems, EncodeWrite, EncodeLog, FromFrame, ToFrame, Locate,
      ReadsAs, Storable;
    SeamInElements(torn, k, EncodeLog(more));
    var args := Args(torn);
    var p := Locate(args, k - |Head(STAR, |args|)|);
    var owed := |args| - p.elem;
    assert Encode(args[p.elem])[..0] + EncodeLog(more) == EncodeLog(more);
    LaterEntriesAreElements(more, owed);
    var x := EncodeWrite(torn)[..k] + EncodeLog(more);
    if |more| < owed {
      FailedReads(x, clock, n);
    } else {
      EntriesAreArrays(more[..owed]);
      EntryAsArgument(torn, p.elem, AsFrames(more[..owed]), clock(2 * n));
      BadCommandReads(x, UnexpectedFrame, clock, n);
    }
  }

  lemma EntriesAreArrays(ws: seq<WriteCommand>)
    ensures forall f :: f in AsFrames(ws) ==> f.Array?
  {
  }

  lemma FateInElementHeader(torn: WriteCommand, k: nat, more: seq<WriteCommand>, clock: nat -> Millis, n: nat)
    requires Storable(torn) && more != [] && k < |EncodeWrite(torn)| && TearAt(torn, k).InElementHeader?
    ensures ReadsAs(EncodeWrite(torn)[..k] + EncodeLog(more), clock, n, SeamEnd(torn, k, more))
  {
    hide Encode, EncodeAll, Head, ParseOne, ParseElems, EncodeWrite, FromFrame, ToFrame, Locate, ReadsAs, Storable;
    SeamInElements(torn, k, EncodeLog(more));
    var args := Args(torn);
    ArgsAreBulk(torn);
    var p := Locate(args, k - |Head(STAR, |args|)|);
    assert args[p.elem] in args;
    assert args[p.elem] == BulkString(args[p.elem].payload);
    ElementHeadOverSeam(args[p.elem].payload, p.offset, more[0], EncodeLog(more[1..]));
    FirstElementFails(Encode(args[p.elem])[..p.offset] + EncodeLog(more), |args| - p.elem);
    FailedReads(EncodeWrite(torn)[..k] + EncodeLog(more), clock, n);
  }

  /** The tear in a payload: what the parser makes of the element it falls in. */
  lemma SeamInPayload(torn: WriteCommand, k: nat, s: ByteString)
    requires Storable(torn) && k < |EncodeWrite(torn)| && TearAt(torn, k).InPayload?
    ensures var args, tear := Args(torn), TearAt(torn, k);
            && tear.elem < |args| && args[tear.elem].BulkString? && tear.have < |args[tear.elem].payload| + 2
            && (var payload := args[tear.elem].payload;
                var one := ParseBulk(Spliced(payload, tear.have, s), |payload|);
                ParseOne(EncodeWrite(torn)[..k] + s) ==
                match one
                case Failed(e) => Failed(e)
                case Parsed(g, left) =>
                  AsArray(Prepend(args[..tear.elem] + [g], ParseElems(left, |args| - tear.elem - 1))))
  {
    hide EncodeAll, Head, ParseOne, ParseElems, EncodeWrite, ToFrame, Locate, Storable, ParseBulk, Spliced;
    SeamInElements(torn, k, s);
    var args := Args(torn);
    ArgsAreBulk(torn);
    var p := Locate(args, k - |Head(STAR, |args|)|);
    assert args[p.elem] in args;
    assert args[p.elem] == BulkString(args[p.elem].payload);
    ElementOverSeam(args[p.elem].payload, p.offset, s);
    var b := Encode(args[p.elem])[..p.offset] + s;
    if ParseOne(b).Failed? {
      FirstElementFails(b, |args| - p.elem);
    } else {
      FirstElementParses(b, |args| - p.elem);
      PrependTwice(args[..p.elem], ParseOne(b).frame, ParseElems(ParseOne(b).rest, |args| - p.elem - 1));
    }
  }

  lemma FateInPayload(torn: WriteCommand, k: nat, more: seq<WriteCommand>, clock: nat -> Millis, n: nat)
    requires Storable(torn) && k < |EncodeWrite(torn)| && TearAt(torn, k).InPayload? && !Splices(torn, k, more)
    ensures ReadsAs(EncodeWrite(torn)[..k] + EncodeLog(more), clock, n, SeamEnd(torn, k, more))
  {
    hide Encode, EncodeAll, Head, ParseOne, ParseElems, EncodeWrite, EncodeLog, FromFrame, ToFrame, Locate,
      ReadsAs, Storable, Spliced, TearAt;
    SeamInPayload(torn, k, EncodeLog(more));
    FailedReads(EncodeWrite(torn)[..k] + EncodeLog(more), clock, n);
  }

  lemma FateInHeader(torn: WriteCommand, k: nat, more: seq<WriteCommand>, clock: nat -> Millis, n: nat)
    requires Storable(torn) && more != [] && 0 < k < |EncodeWrite(torn)| && TearAt(torn, k).InHeader?
    ensures ReadsAs(EncodeWrite(torn)[..k] + EncodeLog(more), clock, n, SeamEnd(torn, k, more))
  {
    hide ParseOne, EncodeWrite, FromFrame, ToFrame, ReadsAs, Storable, TearAt;
    SeamInHeader(torn, k, more[0], EncodeLog(more[1..]));
    FailedReads(EncodeWrite(torn)[..k] + EncodeLog(more), clock, n);
  }

  // ---- Tears that are spliced over ----

  /** A splice takes in at least the first byte of the next entry. */
  lemma SpliceTakesAStar(payload: ByteString, have: nat, s: ByteString)
    requires have < |payload| + 2 && s != [] && s[0] == STAR
    requires |payload| + 2 <= |Spliced(payload, have, s)| && Spliced(payload, have, s)[|payload|..|payload| + 2] == CRLF
    ensures STAR in Spliced(payload, have, s)[..|payload|]
  {
    var bytes := Spliced(payload, have, s);
    assert bytes[have] == STAR;
    assert bytes[|payload|..|payload| + 2][0] == bytes[|payload|] &&
      bytes[|payload|..|payload| + 2][1] == bytes[|payload| + 1];
    assert bytes[..|payload|][have] == STAR;
  }

  predicate SameKind(a: WriteCommand, b: WriteCommand) {
    (a.Set? <==> b.Set?) && (a.Delete? <==> b.Delete?) && (a.Persist? <==> b.Persist?)
  }

  type Refill = Result<WriteCommand, CommandError>

  /** A SET with a deadline whose last two arguments are `option` and `amount`. */
  function SetWith(key: ByteString, value: ByteString, option: Frame, amount: Frame, now: Millis): Refill {
    if !option.BulkString? then Err(UnexpectedFrame)
    else if Lower(option.payload) !in [EX, PX, EXAT, PXAT] then Err(Syntax)
    else
      match NextNumber([amount])
      case Err(e) => Err(e)
      case Ok(n) => Ok(Set(key, value, Some(SetDeadline(Lower(option.payload), n, now))))
  }

  /**
   * What comes of an entry whose argument `i` has become `got`, with `gs` taken for the arguments after it: a
   * write of the same kind with other arguments, or an error. `now` is the clock at which it is read.
   */
  function Refilled(torn: WriteCommand, i: nat, got: ByteString, gs: seq<Frame>, now: Millis): (r: Refill)
    requires i < |Args(torn)| == i + 1 + |gs|
    ensures r.Ok? ==> i > 0 && SameKind(r.value, torn)
    ensures r.Ok? ==> r.value.key == got || (r.value.Set? && r.value.value == got)
  {
    if i == 0 then Err(UnrecognizedCommand)
    else
      match torn
      case Set(key, _, None) =>
        if i == 2 then Ok(Set(key, got, None))
        else if gs[0].BulkString? then Ok(Set(got, gs[0].payload, None))
        else Err(UnexpectedFrame)
      case Set(key, _, Some(_)) =>
        if i == 1 then
          if gs[0].BulkString? then SetWith(got, gs[0].payload, gs[1], gs[2], now) else Err(UnexpectedFrame)
        else if i == 2 then SetWith(key, got, gs[0], gs[1], now)
        else if i == 3 then Err(Syntax)
        else Err(BadNumber)
      case ExpireAt(_, _) =>
        if i == 2 then Err(BadNumber)
        else (match NextNumber(gs) case Err(e) => Err(e) case Ok(n) => Ok(ExpireAt(got, n)))
      case Delete(_) => Ok(Delete(got))
      case Persist(_) => Ok(Persist(got))
  }

  function AsLifted(r: Refill): Lifted {
    match r case Err(e) => Err(e) case Ok(w) => Ok(Cache(Write(w)))
  }

  /** The frame of an entry spliced in argument `i`. */
  function RefilledFrame(torn: WriteCommand, i: nat, got: ByteString, gs: seq<Frame>): Frame
    requires i < |Args(torn)|
  {
    Array(Args(torn)[..i] + [BulkString(got)] + gs)
  }

  lemma StarredWords(got: ByteString)
    requires STAR in got
    ensures STAR in Lower(got)
    ensures Lower(got) !in [GET, SET, DEL, PING, EXISTS, EXPIRE, EXPIREAT, PEXPIREAT, TTL, PERSIST, SUBSCRIBE,
                            UNSUBSCRIBE, PUBLISH, EX, PX, EXAT, PXAT]
  {
    var i :| 0 <= i < |got| && got[i] == STAR;
    assert Lower(got)[i] == STAR;
  }

  lemma VerbRefilled(torn: WriteCommand, got: ByteString, gs: seq<Frame>, now: Millis)
    requires 1 + |gs| == |Args(torn)| && STAR in got
    ensures FromFrame(RefilledFrame(torn, 0, got, gs), now) == Err(UnrecognizedCommand)
  {
    hide Lower;
    StarredWords(got);
    assert RefilledFrame(torn, 0, got, gs).elems[0] == BulkString(got);
  }

  lemma SetRefilled(key: ByteString, value: ByteString, option: Frame, amount: Frame, now: Millis)
    ensures LiftSet([BulkString(key), BulkString(value), option, amount], now) ==
            AsLifted(SetWith(key, value, option, amount, now))
  {
    hide Lower, Decimal.ParseUnsigned;
    var args := [BulkString(key), BulkString(value), option, amount];
    assert args[1..][0] == BulkString(value) && args[2] == option && args[3..] == [amount];
  }

  /** Lifting a spliced entry gives what the table above says. */
  lemma RefilledLifts(torn: WriteCommand, i: nat, got: ByteString, gs: seq<Frame>, now: Millis)
    requires i < |Args(torn)| == i + 1 + |gs| && STAR in got
    ensures FromFrame(RefilledFrame(torn, i, got, gs), now) == AsLifted(Refilled(torn, i, got, gs, now))
  {
    if i == 0 {
      VerbRefilled(torn, got, gs, now);
    } else {
      LogVerbsLower();
      if torn.Set? && torn.expiresAt.Some? {
        TimedSetRefilled(torn, i, got, gs, now);
      } else if torn.Set? {
        PlainSetRefilled(torn, i, got, gs, now);
      } else if torn.ExpireAt? {
        ExpireRefilled(torn, i, got, gs, now);
      } else {
        hide Lower;
        assert RefilledFrame(torn, i, got, gs).elems[1..] == [BulkString(got)];
      }
    }
  }

  lemma PlainSetRefilled(torn: WriteCommand, i: nat, got: ByteString, gs: seq<Frame>, now: Millis)
    requires torn.Set? && torn.expiresAt.None? && 0 < i < |Args(torn)| == i + 1 + |gs|
    ensures FromFrame(RefilledFrame(torn, i, got, gs), now) == AsLifted(Refilled(torn, i, got, gs, now))
  {
    LogVerbsLower();
    hide Lower;
    var args := RefilledFrame(torn, i, got, gs).elems[1..];
    if i == 1 {
      assert args == [BulkString(got), gs[0]] && args[1..] == [gs[0]];
    } else {
      assert args == [BulkString(torn.key), BulkString(got)];
    }
  }

  lemma TimedSetRefilled(torn: WriteCommand, i: nat, got: ByteString, gs: seq<Frame>, now: Millis)
    requires torn.Set? && torn.expiresAt.Some? && 0 < i < |Args(torn)| == i + 1 + |gs| && STAR in got
    ensures FromFrame(RefilledFrame(torn, i, got, gs), now) == AsLifted(Refilled(torn, i, got, gs, now))
  {
    LogVerbsLower();
    StarredWords(got);
    StarIsNoDigit(got);
    hide Lower, Decimal.ParseUnsigned, Decimal.Print;
    var args := RefilledFrame(torn, i, got, gs).elems[1..];
    if i == 1 && !gs[0].BulkString? {
      assert args == [BulkString(got), gs[0], gs[1], gs[2]] && args[1..][0] == gs[0];
    } else if i == 1 {
      assert args == [BulkString(got), gs[0], gs[1], gs[2]];
      SetRefilled(got, gs[0].payload, gs[1], gs[2], now);
    } else if i == 2 {
      assert args == [BulkString(torn.key), BulkString(got), gs[0], gs[1]];
      SetRefilled(torn.key, got, gs[0], gs[1], now);
    } else if i == 3 {
      assert args == [BulkString(torn.key), BulkString(torn.value), BulkString(got), gs[0]];
      SetRefilled(torn.key, torn.value, BulkString(got), gs[0], now);
    } else {
      assert args == [BulkString(torn.key), BulkString(torn.value), BulkString(LOG_PXAT), BulkString(got)];
      SetRefilled(torn.key, torn.value, BulkString(LOG_PXAT), BulkString(got), now);
    }
  }

  lemma ExpireRefilled(torn: WriteCommand, i: nat, got: ByteString, gs: seq<Frame>, now: Millis)
    requires torn.ExpireAt? && 0 < i < |Args(torn)| == i + 1 + |gs| && STAR in got
    ensures FromFrame(RefilledFrame(torn, i, got, gs), now) == AsLifted(Refilled(torn, i, got, gs, now))
  {
    LogVerbsLower();
    StarIsNoDigit(got);
    hide Lower, Decimal.ParseUnsigned, Decimal.Print;
    var args := RefilledFrame(torn, i, got, gs).elems[1..];
    assert Args(torn)[..i][1..] == Args(torn)[1..i];
    if i == 1 {
      assert gs == [gs[0]];
      assert args == [BulkString(got)] + gs && args[1..] == gs;
    } else {
      assert args == [BulkString(torn.key), BulkString(got)] && args[1..] == [BulkString(got)];
    }
  }

  /** Reading a spliced entry, given what the parser makes of the arguments owed after it. */
  function ReadRefilled(torn: WriteCommand, i: nat, got: ByteString, owed: ParseMany,
                        clock: nat -> Millis, n: nat): LogRead
    requires i < |Args(torn)| && (owed.ParsedAll? ==> |Args(torn)| == i + 1 + |owed.frames|)
  {
    match owed
    case FailedAll(e) => LogRead([], if e == Incomplete then TornOrEmpty else BadFrame(e))
    case ParsedAll(gs, left) =>
      match Refilled(torn, i, got, gs, clock(2 * n))
      case Err(e) => LogRead([], BadCommand(e))
      case Ok(w) =>
        var later := ReadLog(left, clock, n + 1);
        LogRead([Wrote(w, clock(2 * n + 1))] + later.events, later.end)
  }

  /** What the start-up makes of everything from the tear on. */
  function BeyondTear(torn: WriteCommand, k: nat, more: seq<WriteCommand>, clock: nat -> Millis, n: nat): LogRead {
    if Splices(torn, k, more) then
      var tear := TearAt(torn, k);
      var payload := PayloadOf(Args(torn)[tear.elem]);
      var bytes := Spliced(payload, tear.have, EncodeLog(more));
      var owed := ParseElems(bytes[|payload| + 2..], |Args(torn)| - tear.elem - 1);
      ReadRefilled(torn, tear.elem, bytes[..|payload|], owed, clock, n)
    else LogRead([], SeamEnd(torn, k, more))
  }

  lemma ReadCommand(x: ByteString, w: WriteCommand, clock: nat -> Millis, n: nat)
    requires ParseOne(x).Parsed? && FromFrame(ParseOne(x).frame, clock(2 * n)) == Ok(Cache(Write(w)))
    ensures var later := ReadLog(ParseOne(x).rest, clock, n + 1);
            ReadLog(x, clock, n) == LogRead([Wrote(w, clock(2 * n + 1))] + later.events, later.end)
  {
    hide ParseOne, FromFrame;
  }

  lemma ReadArray(x: ByteString, torn: WriteCommand, i: nat, got: ByteString, owed: ParseMany,
                  clock: nat -> Millis, n: nat)
    requires i < |Args(torn)| && (owed.ParsedAll? ==> |Args(torn)| == i + 1 + |owed.frames|) && STAR in got
    requires ParseOne(x) == AsArray(Prepend(Args(torn)[..i] + [BulkString(got)], owed))
    ensures ReadLog(x, clock, n) == ReadRefilled(torn, i, got, owed, clock, n)
  {
    hide ParseOne, FromFrame, ReadLog, Args, Refilled;
    match owed
    case FailedAll(e) =>
      FailedReads(x, clock, n);
    case ParsedAll(gs, left) =>
      RefilledLifts(torn, i, got, gs, clock(2 * n));
      match Refilled(torn, i, got, gs, clock(2 * n)) {
        case Err(e) => BadCommandReads(x, e, clock, n);
        case Ok(w) => ReadCommand(x, w, clock, n);
      }
  }

  lemma FateOverSplice(torn: WriteCommand, k: nat, more: seq<WriteCommand>, clock: nat -> Millis, n: nat)
    requires Storable(torn) && more != [] && k < |EncodeWrite(torn)| && Splices(torn, k, more)
    ensures ReadLog(EncodeWrite(torn)[..k] + EncodeLog(more), clock, n) == BeyondTear(torn, k, more, clock, n)
  {
    hide Encode, EncodeAll, Head, ParseOne, ParseElems, EncodeWrite, EncodeLog, ReadLog, FromFrame, Storable, Spliced,
      TearAt, Args, ReadRefilled;
    var tear := TearAt(torn, k);
    SeamInPayload(torn, k, EncodeLog(more));
    LogStartsWithStar(more);
    var payload := PayloadOf(Args(torn)[tear.elem]);
    var bytes := Spliced(payload, tear.have, EncodeLog(more));
    SpliceTakesAStar(payload, tear.have, EncodeLog(more));
    var owed := ParseElems(bytes[|payload| + 2..], |Args(torn)| - tear.elem - 1);
    ReadArray(EncodeWrite(torn)[..k] + EncodeLog(more), torn, tear.elem, bytes[..|payload|], owed, clock, n);
  }

  lemma LogStartsWithStar(more: seq<WriteCommand>)
    requires more != []
    ensures EncodeLog(more) != [] && EncodeLog(more)[0] == STAR
  {
    hide EncodeWrite;
    StartsWithStar(more[0]);
  }

  lemma FateUnspliced(torn: WriteCommand, k: nat, more: seq<WriteCommand>, clock: nat -> Millis, n: nat)
    requires Storable(torn) && AllStorable(more) && more != []
    requires 0 < k < |EncodeWrite(torn)| && !Splices(torn, k, more)
    ensures ReadsAs(EncodeWrite(torn)[..k] + EncodeLog(more), clock, n, SeamEnd(torn, k, more))
  {
    hide ReadLog, EncodeLog, EncodeWrite, Storable, TearAt, SeamEnd, Splices, ReadsAs;
    match TearAt(torn, k)
    case InHeader => FateInHeader(torn, k, more, clock, n);
    case AtElement(_) => FateBeforeElement(torn, k, more, clock, n);
    case InElementHeader(_) => FateInElementHeader(torn, k, more, clock, n);
    case InPayload(_, _) => FateInPayload(torn, k, more, clock, n);
  }

  lemma FateBeyond(torn: WriteCommand, k: nat, more: seq<WriteCommand>, clock: nat -> Millis, n: nat)
    requires Storable(torn) && AllStorable(more) && more != [] && 0 < k < |EncodeWrite(torn)|
    ensures ReadLog(EncodeWrite(torn)[..k] + EncodeLog(more), clock, n) == BeyondTear(torn, k, more, clock, n)
  {
    hide ReadLog, EncodeLog, EncodeWrite, Storable, TearAt, SeamEnd, Splices, ReadRefilled;
    if Splices(torn, k, more) {
      FateOverSplice(torn, k, more, clock, n);
    } else {
      FateUnspliced(torn, k, more, clock, n);
    }
  }

  /**
   * The fate of a log in which entries `more` were appended behind a torn one, for every byte the tear can
   * fall on. A tear in a header line is fatal. Before an element it is silent until as many entries have been
   * appended as elements were owed, and fatal from then on. In a payload it is silent until the payload's
   * length has been appended. From then on it is fatal too, unless a CRLF happens to stand right there: then
   * the payload is taken to be filled up from the later entries, the arguments owed after it are read from
   * the middle of one of them, and `ReadRefilled` says what is executed or how it fails. In every other case
   * nothing from the tear on is executed, whatever was acknowledged since.
   */
  lemma TornTailFate(ws: seq<WriteCommand>, torn: WriteCommand, k: nat, more: seq<WriteCommand>, clock: nat -> Millis)
    requires AllStorable(ws) && Storable(torn) && AllStorable(more) && more != [] && 0 < k < |EncodeWrite(torn)|
    ensures var beyond := BeyondTear(torn, k, more, clock, |ws|);
            ReadLog(EncodeLog(ws) + (EncodeWrite(torn)[..k] + EncodeLog(more)), clock, 0) ==
            LogRead(Replayed(ws, clock, 0) + beyond.events, beyond.end)
  {
    hide ReadLog, EncodeLog, EncodeWrite, Storable, BeyondTear, Replayed;
    FateBeyond(torn, k, more, clock, |ws|);
    ReadWholeThen(ws, EncodeWrite(torn)[..k] + EncodeLog(more), clock, 0);
  }

  lemma {:induction false} LocateIn(gs: seq<Frame>, i: nat, offset: nat)
    requires i < |gs| && offset < |Encode(gs[i])|
    ensures Locate(gs, |EncodeAll(gs[..i])| + offset) == Place(i, offset)
    ensures |EncodeAll(gs[..i])| + offset < |EncodeAll(gs)|
  {
    hide Encode;
    if i == 0 {
      assert EncodeAll(gs[..0]) == [];
    } else {
      assert gs[..i][0] == gs[0] && gs[..i][1..] == gs[1..][..i - 1];
      LocateIn(gs[1..], i - 1, offset);
    }
  }

  /** Every byte of every payload is a place a tear can fall. */
  lemma TearInPayload(torn: WriteCommand, i: nat, have: nat) returns (k: nat)
    requires Storable(torn) && i < |Args(torn)| && have < |PayloadOf(Args(torn)[i])| + 2
    ensures 0 < k < |EncodeWrite(torn)| && TearAt(torn, k) == InPayload(i, have)
  {
    hide EncodeAll, Locate, Args, Storable, Decimal.Print;
    var args := Args(torn);
    ArgsAreBulk(torn);
    assert args[i] in args;
    var payload := PayloadOf(args[i]);
    assert Encode(args[i]) == Head(DOLLAR, |payload|) + payload + CRLF;
    var offset := |Head(DOLLAR, |payload|)| + have;
    LocateIn(args, i, offset);
    EntryBytes(torn);
    k := |Head(STAR, |args|)| + (|EncodeAll(args[..i])| + offset);
  }

  lemma EndsInCrlf(w: WriteCommand)
    requires Storable(w)
    ensures var b := EncodeWrite(w); |b| >= 2 && b[|b| - 2..] == CRLF
  {
    hide Encode, Head, Storable;
    var args := Args(w);
    ArgsAreBulk(w);
    EntryBytes(w);
    var last := args[|args| - 1];
    assert last in args;
    EncodeAllNext(args, |args| - 1);
    assert args[..|args|] == args;
    BulkEndsInCrlf(last);
  }

  lemma BulkEndsInCrlf(f: Frame)
    requires f.BulkString?
    ensures var b := Encode(f); |b| >= 2 && b[|b| - 2..] == CRLF
  {
  }

  lemma ReplayedNext(ws: seq<WriteCommand>, w: WriteCommand, clock: nat -> Millis)
    ensures Replayed(ws + [w], clock, 0) == Replayed(ws, clock, 0) + [Wrote(w, clock(2 * |ws| + 1))]
  {
  }

  lemma SetArgs(key: ByteString, value: ByteString)
    ensures |Args(Set(key, value, None))| == 3 && PayloadOf(Args(Set(key, value, None))[2]) == value
  {
  }

  /**
   * The worst of it: for every write that may be appended next there is a torn SET behind which the start-up
   * succeeds, reports nothing, loses the appended write, and sets the key to a value nobody wrote.
   */
  lemma SpliceCanForgeAValue(ws: seq<WriteCommand>, key: ByteString, begun: ByteString, next: WriteCommand,
    clock: nat -> Millis)
    returns (torn: WriteCommand, k: nat, forged: ByteString)
    requires AllStorable(ws) && Storable(next) && |key| <= U64_MAX && |begun| + |EncodeWrite(next)| <= U64_MAX
    ensures Storable(torn) && 0 < k < |EncodeWrite(torn)| && torn != Set(key, forged, None) && begun < forged
    ensures ReadLog(EncodeLog(ws) + (EncodeWrite(torn)[..k] + EncodeLog([next])), clock, 0) ==
            LogRead(Replayed(ws + [Set(key, forged, None)], clock, 0), TornOrEmpty)
  {
    hide EncodeWrite, ReadLog, TearAt, Args;
    var appended := EncodeWrite(next);
    EndsInCrlf(next);
    StartsWithStar(next);
    var lost: ByteString := seq(|appended| - 2, i requires 0 <= i < |appended| - 2 => 0);
    var value := begun + lost;
    torn := Set(key, value, None);
    SetArgs(key, value);
    k := TearInPayload(torn, 2, |begun|);
    OneEntry(next);
    var bytes := Spliced(value, |begun|, appended);
    assert bytes == begun + appended;
    forged := begun + appended[..|appended| - 2];
    assert bytes[..|value|] == forged && bytes[|value|..|value| + 2] == CRLF && bytes[|value| + 2..] == [];
    assert forged[|begun|] == STAR && value[|begun|] == 0;
    TornTailFate(ws, torn, k, [next], clock);
    NoneOwed([]);
    ReadNothing(clock, |ws| + 1);
    ReplayedNext(ws, Set(key, forged, None), clock);
  }

  lemma OneEntry(w: WriteCommand)
    ensures EncodeLog([w]) == EncodeWrite(w)
  {
    hide EncodeWrite;
    assert EncodeLog([w][1..]) == [];
  }

  lemma StartsWithStar(w: WriteCommand)
    ensures |EncodeWrite(w)| > 2 && EncodeWrite(w)[0] == STAR
  {
    hide EncodeAll, Decimal.Print;
    EntryBytes(w);
  }
}
