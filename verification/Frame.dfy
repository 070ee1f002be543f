/** RESP frames: the two shapes a client sends, their encoder and their streaming parser. */
module Frames {
  import opened Wrappers
  import opened Bytes
  import Decimal
  import opened Crlf
  import opened Writer

  datatype Frame =
    | Array(elems: seq<Frame>)
    | BulkString(payload: ByteString)

  datatype FrameError = MissingTerminator | UnknownSigil | InvalidLength | Incomplete | Malformed

  /**
   * Every length inside the frame fits a `usize`. Rust vectors cannot be longer, so this holds
   * of every frame the server can build.
   */
  predicate Sized(f: Frame)
    decreases f
  {
    match f
    case Array(elems) => |elems| <= U64_MAX && forall e :: e in elems ==> Sized(e)
    case BulkString(payload) => |payload| <= U64_MAX
  }

  /** Sigil, decimal length, terminator. */
  function Head(sigil: Byte, len: nat): ByteString {
    [sigil] + Decimal.Print(len) + CRLF
  }

  /** The bytes `write_to` produces. */
  function Encode(f: Frame): ByteString
    decreases f, 1
  {
    match f
    case Array(elems) => Head(STAR, |elems|) + EncodeAll(elems)
    case BulkString(payload) => Head(DOLLAR, |payload|) + payload + CRLF
  }

  function EncodeAll(fs: seq<Frame>): ByteString
    decreases fs, 0
  {
    if fs == [] then [] else Encode(fs[0]) + EncodeAll(fs[1..])
  }

  datatype HeadResult = HeadOk(sigil: Byte, len: nat, rest: ByteString) | HeadErr(error: FrameError)

  /** The header line: split it off, demand a sigil and a length, then read the length. */
  function ParseHead(b: ByteString): (r: HeadResult)
    ensures r.HeadOk? ==> |r.rest| + 4 <= |b| && r.len <= U64_MAX
  {
    match SplitCrlf(b)
    case NoSplit => HeadErr(Incomplete)
    case Split(line, rest) =>
      if line == [] || line[1..] == [] then HeadErr(Malformed)
      else
        match Decimal.ParseUnsigned(line[1..], U64_MAX)
        case None => HeadErr(InvalidLength)
        case Some(len) => HeadOk(line[0], len, rest)
  }

  datatype Parse = Parsed(frame: Frame, rest: ByteString) | Failed(error: FrameError)

  datatype ParseMany = ParsedAll(frames: seq<Frame>, rest: ByteString) | FailedAll(error: FrameError)

  /** One frame off the front of `b`. The length is read before the sigil is looked at. */
  function ParseOne(b: ByteString): (r: Parse)
    ensures r.Parsed? ==> |r.rest| < |b|
    decreases |b|, 0
  {
    match ParseHead(b)
    case HeadErr(e) => Failed(e)
    case HeadOk(sigil, len, rest) =>
      if sigil == STAR then
        AsArray(ParseElems(rest, len))
      else if sigil == DOLLAR then ParseBulk(rest, len)
      else Failed(UnknownSigil)
  }

  function Prepend(fs: seq<Frame>, r: ParseMany): ParseMany {
    match r
    case FailedAll(e) => r
    case ParsedAll(more, left) => ParsedAll(fs + more, left)
  }

  function AsArray(r: ParseMany): Parse {
    match r
    case FailedAll(e) => Failed(e)
    case ParsedAll(fs, left) => Parsed(Array(fs), left)
  }

  /** `n` consecutive frames, stopping at the first that fails. */
  function ParseElems(b: ByteString, n: nat): (r: ParseMany)
    ensures r.ParsedAll? ==> |r.rest| <= |b| && |r.frames| == n
    decreases |b|, 1
  {
    if n == 0 then ParsedAll([], b)
    else
      match ParseOne(b)
      case Failed(e) => FailedAll(e)
      case Parsed(f, rest) => Prepend([f], ParseElems(rest, n - 1))
  }

  /** A payload of exactly `len` bytes and its terminator. */
  function ParseBulk(b: ByteString, len: nat): (r: Parse)
    ensures r.Parsed? ==> |r.rest| <= |b|
  {
    if |b| < len + 2 then Failed(Incomplete)
    else if b[len..len + 2] != CRLF then Failed(MissingTerminator)
    else Parsed(BulkString(b[..len]), b[len + 2..])
  }

  // ---- The loops of the source, proved against the functions above ----

  lemma PrependTwice(fs: seq<Frame>, f: Frame, r: ParseMany)
    ensures Prepend(fs, Prepend([f], r)) == Prepend(fs + [f], r)
  {
    if r.ParsedAll? {
      assert fs + ([f] + r.frames) == fs + [f] + r.frames;
    }
  }

  method ParseArray(b: ByteString, len: nat) returns (r: Parse)
    ensures r == AsArray(ParseElems(b, len))
    decreases |b|, 1
  {
    var frames: seq<Frame> := [];
    var buf := b;
    assert Prepend([], ParseElems(b, len)) == ParseElems(b, len);
    for i := 0 to len
      invariant |buf| <= |b|
      invariant ParseElems(b, len) == Prepend(frames, ParseElems(buf, len - i))
    {
      var one := ParseFrame(buf);
      if one.Failed? {
        return one;
      }
      PrependTwice(frames, one.frame, ParseElems(one.rest, len - i - 1));
      frames := frames + [one.frame];
      buf := one.rest;
    }
    assert frames + [] == frames;
    r := Parsed(Array(frames), buf);
  }

  method ParseFrame(b: ByteString) returns (r: Parse)
    ensures r == ParseOne(b)
    decreases |b|, 0
  {
    match ParseHead(b)
    case HeadErr(e) => r := Failed(e);
    case HeadOk(sigil, len, rest) =>
      if sigil == STAR {
        r := ParseArray(rest, len);
      } else if sigil == DOLLAR {
        r := ParseBulk(rest, len);
      } else {
        r := Failed(UnknownSigil);
      }
  }

  lemma {:induction false} EncodeAllAppends(fs: seq<Frame>, gs: seq<Frame>)
    ensures EncodeAll(fs + gs) == EncodeAll(fs) + EncodeAll(gs)
  {
    hide Encode;
    if fs == [] {
      assert fs + gs == gs;
    } else {
      assert (fs + gs)[0] == fs[0] && (fs + gs)[1..] == fs[1..] + gs;
      EncodeAllAppends(fs[1..], gs);
      var first, rest, more := Encode(fs[0]), EncodeAll(fs[1..]), EncodeAll(gs);
      assert first + (rest + more) == (first + rest) + more;
    }
  }

  lemma EncodeAllNext(fs: seq<Frame>, i: nat)
    requires i < |fs|
    ensures EncodeAll(fs[..i + 1]) == EncodeAll(fs[..i]) + Encode(fs[i])
  {
    assert fs[..i + 1] == fs[..i] + [fs[i]];
    EncodeAllAppends(fs[..i], [fs[i]]);
    assert EncodeAll([fs[i]]) == Encode(fs[i]) + EncodeAll([]);
  }

  /**
   * What writing `bytes` to a buffered file guarantees: they are appended after what was there, and
   * on the way the file only ever shows prefixes of the outcome.
   */
  twostate predicate Appended(w: BufferedFile, bytes: ByteString)
    reads w
  {
    && w.Contents() == old(w.Contents()) + bytes && old(w.file) <= w.file
    && Between(old(w.trail), w.trail, old(w.file), old(w.Contents()) + bytes)
  }

  /** `Frame::write_to`: append the frame's encoding piece by piece. */
  method WriteTo(f: Frame, w: BufferedFile)
    modifies w
    ensures Appended(w, Encode(f))
    decreases f, 1
  {
    match f
    case Array(elems) =>
      WriteHead(STAR, |elems|, w);
      WriteElems(elems, w);
    case BulkString(payload) =>
      WriteHead(DOLLAR, |payload|, w);
      w.WriteAll(payload);
      w.WriteAll(CRLF);
  }

  method WriteHead(sigil: Byte, len: nat, w: BufferedFile)
    modifies w
    ensures Appended(w, Head(sigil, len))
  {
    w.WriteAll([sigil] + Decimal.Print(len));
    w.WriteAll(CRLF);
  }

  /** The element loop of `write_to`. */
  method WriteElems(elems: seq<Frame>, w: BufferedFile)
    modifies w
    ensures Appended(w, EncodeAll(elems))
    decreases elems, 0
  {
    for i := 0 to |elems|
      invariant Appended(w, EncodeAll(elems[..i]))
    {
      WriteTo(elems[i], w);
      EncodeAllNext(elems, i);
    }
    assert elems[..|elems|] == elems;
  }
}
