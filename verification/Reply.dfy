/** Server replies, their serializer, and a reference decoder for the stream a client sees. */
module Replies {
  import opened Wrappers
  import opened Bytes
  import opened Sequences
  import Decimal
  import opened Crlf
  import CacheSpec

  /** A payload that can sit between a sigil and a terminator. */
  type SimpleInner = s: ByteString | CR !in s && LF !in s

  type I64 = n: int | -(I64_MAX as int) - 1 <= n <= I64_MAX

  datatype Reply =
    | SimpleString(inner: SimpleInner)
    | SimpleError(inner: SimpleInner)
    | Bulk(payload: ByteString)
    | NullBulk
    | Integer(n: I64)
    | Multi(elems: seq<Reply>)

  datatype SimpleInnerError = IncludesCarriageReturn | IncludesLineFeed

  const OK: SimpleInner := [79, 75]

  /** `SimpleInner::try_from`: carriage returns are reported first. */
  function TrySimple(value: ByteString): (r: Result<SimpleInner, SimpleInnerError>)
    ensures r.Ok? <==> CR !in value && LF !in value
    ensures r.Ok? ==> r.value == value
    ensures r == Err(IncludesCarriageReturn) <==> CR in value
  {
    if CR in value then Err(IncludesCarriageReturn)
    else if LF in value then Err(IncludesLineFeed)
    else Ok(value)
  }

  /** `SimpleInner::sanitized`: drop the two forbidden bytes, keep everything else in order. */
  function Sanitized(bytes: ByteString): (r: SimpleInner)
    ensures forall b :: b != CR && b != LF ==> multiset(r)[b] == multiset(bytes)[b]
    ensures CR !in bytes && LF !in bytes ==> r == bytes
  {
    if bytes == [] then []
    else
      assert bytes == [bytes[0]] + bytes[1..];
      if bytes[0] == CR || bytes[0] == LF then Sanitized(bytes[1..])
      else [bytes[0]] + Sanitized(bytes[1..])
  }

  /** `out` is `bytes` at the increasing positions `at`, and the positions left out held CR or LF. */
  predicate Picks(bytes: ByteString, out: ByteString, at: seq<nat>) {
    && |at| == |out|
    && (forall j :: 0 <= j < |at| ==> at[j] < |bytes| && out[j] == bytes[at[j]])
    && (forall i, j :: 0 <= i < j < |at| ==> at[i] < at[j])
    && (forall p: nat :: p < |bytes| ==> (p in at <==> bytes[p] != CR && bytes[p] != LF))
  }

  function Shifted(at: seq<nat>): (r: seq<nat>)
    ensures |r| == |at| && forall j :: 0 <= j < |at| ==> r[j] == at[j] + 1
    ensures 0 !in r
  {
    seq(|at|, j requires 0 <= j < |at| => at[j] + 1)
  }

  lemma ShiftedIn(at: seq<nat>, p: nat)
    ensures p + 1 in Shifted(at) <==> p in at
  {
    if p in at {
      var j :| 0 <= j < |at| && at[j] == p;
      assert Shifted(at)[j] == p + 1;
    }
  }

  lemma PicksSkip(b: Byte, bytes: ByteString, out: ByteString, at: seq<nat>)
    requires Picks(bytes, out, at) && (b == CR || b == LF)
    ensures Picks([b] + bytes, out, Shifted(at))
  {
    hide Shifted;
    forall p: nat | p < |[b] + bytes|
      ensures p in Shifted(at) <==> ([b] + bytes)[p] != CR && ([b] + bytes)[p] != LF
    {
      if p > 0 {
        ShiftedIn(at, p - 1);
      }
    }
  }

  lemma PicksTake(b: Byte, bytes: ByteString, out: ByteString, at: seq<nat>)
    requires Picks(bytes, out, at) && b != CR && b != LF
    ensures Picks([b] + bytes, [b] + out, [0] + Shifted(at))
  {
    hide Shifted;
    forall p: nat | p < |[b] + bytes|
      ensures p in [0] + Shifted(at) <==> ([b] + bytes)[p] != CR && ([b] + bytes)[p] != LF
    {
      if p > 0 {
        ShiftedIn(at, p - 1);
      }
    }
  }

  /** Sanitizing keeps exactly the bytes that are neither CR nor LF, in their order. */
  lemma {:induction false} SanitizedPicks(bytes: ByteString) returns (at: seq<nat>)
    ensures Picks(bytes, Sanitized(bytes), at)
  {
    if bytes == [] {
      at := [];
    } else {
      hide Picks, Shifted;
      var b, rest := bytes[0], bytes[1..];
      var more := SanitizedPicks(rest);
      assert bytes == [b] + rest;
      if b == CR || b == LF {
        PicksSkip(b, rest, Sanitized(rest), more);
        at := Shifted(more);
      } else {
        PicksTake(b, rest, Sanitized(rest), more);
        at := [0] + Shifted(more);
      }
    }
  }

  const NULL_BULK: ByteString := [DOLLAR, MINUS, 49, CR, LF]

  function Line(sigil: Byte, text: ByteString): ByteString {
    [sigil] + text + CRLF
  }

  /** The bytes of one reply. */
  function ToBytes(r: Reply): ByteString
    decreases r, 1
  {
    match r
    case SimpleString(inner) => Line(PLUS, inner)
    case SimpleError(inner) => Line(MINUS, inner)
    case Bulk(payload) => Line(DOLLAR, Decimal.Print(|payload|)) + (payload + CRLF)
    case NullBulk => NULL_BULK
    case Integer(n) => Line(COLON, Decimal.PrintSigned(n))
    case Multi(elems) => Line(STAR, Decimal.Print(|elems|)) + AllBytes(elems)
  }

  /** Several replies back to back, with no enclosing header. */
  function AllBytes(rs: seq<Reply>): ByteString
    decreases rs, 0
  {
    if rs == [] then [] else ToBytes(rs[0]) + AllBytes(rs[1..])
  }

  // ---- The serializer's loops ----

  lemma {:induction false} AllBytesAppend(a: seq<Reply>, b: seq<Reply>)
    ensures AllBytes(a + b) == AllBytes(a) + AllBytes(b)
  {
    hide ToBytes;
    if a == [] {
      assert a + b == b;
    } else {
      assert (a + b)[0] == a[0] && (a + b)[1..] == a[1..] + b;
      AllBytesAppend(a[1..], b);
      Associative(ToBytes(a[0]), AllBytes(a[1..]), AllBytes(b));
    }
  }

  lemma AllBytesNext(rs: seq<Reply>, i: nat)
    requires i < |rs|
    ensures AllBytes(rs[..i + 1]) == AllBytes(rs[..i]) + ToBytes(rs[i])
  {
    hide ToBytes;
    assert rs[..i + 1] == rs[..i] + [rs[i]];
    AllBytesAppend(rs[..i], [rs[i]]);
    assert AllBytes([rs[i]]) == ToBytes(rs[i]) + AllBytes([rs[i]][1..]);
    assert AllBytes([rs[i]][1..]) == [];
  }

  /** `Reply::to_bytes`: extend a buffer piece by piece. */
  method Serialize(r: Reply) returns (b: ByteString)
    ensures b == ToBytes(r)
    decreases r, 1
  {
    hide Line;
    b := [];
    match r
    case SimpleString(inner) =>
      b := PushLine(b, PLUS, inner);
    case SimpleError(inner) =>
      b := PushLine(b, MINUS, inner);
    case Bulk(payload) =>
      b := PushLine(b, DOLLAR, Decimal.Print(|payload|));
      b := b + payload;
      b := b + CRLF;
    case NullBulk =>
      b := b + NULL_BULK;
    case Integer(n) =>
      b := PushLine(b, COLON, Decimal.PrintSigned(n));
    case Multi(elems) =>
      b := PushLine(b, STAR, Decimal.Print(|elems|));
      var body := SerializeAll(elems);
      b := b + body;
  }

  /** Sigil, text, terminator, pushed in turn. */
  method PushLine(b: ByteString, sigil: Byte, text: ByteString) returns (b': ByteString)
    ensures b' == b + Line(sigil, text)
  {
    b' := b + [sigil];
    b' := b' + text;
    b' := b' + CRLF;
  }

  /** The array loop, and `Replies::to_bytes`. */
  method SerializeAll(rs: seq<Reply>) returns (b: ByteString)
    ensures b == AllBytes(rs)
    decreases rs, 0
  {
    b := [];
    for i := 0 to |rs|
      invariant b == AllBytes(rs[..i])
    {
      var one := Serialize(rs[i]);
      b := b + one;
      AllBytesNext(rs, i);
    }
    assert rs[..|rs|] == rs;
  }

  // ---- Reference decoder (RESP2) ----

  datatype Decoded = Decoded(reply: Reply, rest: ByteString) | Undecodable

  datatype DecodedMany = DecodedMany(replies: seq<Reply>, rest: ByteString) | UndecodableMany

  function DecodeBulk(len: int, b: ByteString): (r: Decoded)
    ensures r.Decoded? ==> |r.rest| <= |b|
  {
    if len == -1 then Decoded(NullBulk, b)
    else if len < 0 || |b| < len + 2 || b[len] != CR || b[len + 1] != LF then Undecodable
    else Decoded(Bulk(b[..len]), b[len + 2..])
  }

  /** One reply off the front, by its first byte. */
  function Decode(b: ByteString): (r: Decoded)
    ensures r.Decoded? ==> |r.rest| < |b|
    decreases |b|, 0
  {
    match SplitCrlf(b)
    case NoSplit => Undecodable
    case Split(line, rest) =>
      if line == [] then Undecodable
      else
        var sigil, text := line[0], line[1..];
        if sigil == PLUS then (if LF in text || CR in text then Undecodable else Decoded(SimpleString(text), rest))
        else if sigil == MINUS then (if LF in text || CR in text then Undecodable else Decoded(SimpleError(text), rest))
        else
          match Decimal.ParseSigned(text)
          case None => Undecodable
          case Some(n) =>
            if sigil == COLON then
              if -(I64_MAX as int) - 1 <= n <= I64_MAX then Decoded(Integer(n), rest) else Undecodable
            else if sigil == DOLLAR then DecodeBulk(n, rest)
            else if sigil == STAR && n >= 0 then
              match DecodeElems(rest, n)
              case UndecodableMany => Undecodable
              case DecodedMany(rs, left) => Decoded(Multi(rs), left)
            else Undecodable
  }

  function DecodeElems(b: ByteString, n: nat): (r: DecodedMany)
    ensures r.DecodedMany? ==> |r.rest| <= |b|
    decreases |b|, 1
  {
    if n == 0 then DecodedMany([], b)
    else
      match Decode(b)
      case Undecodable => UndecodableMany
      case Decoded(r, rest) =>
        match DecodeElems(rest, n - 1)
        case UndecodableMany => UndecodableMany
        case DecodedMany(rs, left) => DecodedMany([r] + rs, left)
  }

  /** A whole stream of replies. */
  function DecodeStream(b: ByteString): Option<seq<Reply>>
    decreases |b|
  {
    if b == [] then Some([])
    else
      match Decode(b)
      case Undecodable => None
      case Decoded(r, rest) =>
        match DecodeStream(rest)
        case None => None
        case Some(rs) => Some([r] + rs)
  }

  /** A line of sigil and text is split off exactly, provided the text holds no CR. */
  lemma LineSplits(sigil: Byte, text: ByteString, rest: ByteString)
    requires sigil != CR && CR !in text
    ensures SplitCrlf(Line(sigil, text) + rest) == Split([sigil] + text, rest)
    ensures ([sigil] + text)[0] == sigil && ([sigil] + text)[1..] == text
  {
    SplitLine([sigil] + text, rest);
  }

  lemma PrintParses(n: nat)
    ensures CR !in Decimal.Print(n) && Decimal.ParseSigned(Decimal.Print(n)) == Some(n)
  {
    Decimal.ParseAfterPrintSigned(n);
  }

  /** Every reply decodes to itself and leaves what follows it untouched, nulls and nesting included. */
  lemma {:induction false} ReplyRoundTrip(r: Reply, s: ByteString)
    ensures Decode(ToBytes(r) + s) == Decoded(r, s)
    decreases r, 1
  {
    hide SplitCrlf, Line, Decimal.Print, Decimal.ParseSigned, Decimal.PrintSigned, DecodeElems;
    match r
    case SimpleString(inner) =>
      LineSplits(PLUS, inner, s);
    case SimpleError(inner) =>
      LineSplits(MINUS, inner, s);
    case Integer(n) =>
      LineSplits(COLON, Decimal.PrintSigned(n), s);
      Decimal.ParseAfterPrintSigned(n);
    case NullBulk =>
      NullRoundTrip(s);
    case Bulk(payload) =>
      BulkReplyRoundTrip(payload, s);
    case Multi(elems) =>
      var text := Decimal.Print(|elems|);
      Associative(Line(STAR, text), AllBytes(elems), s);
      PrintParses(|elems|);
      LineSplits(STAR, text, AllBytes(elems) + s);
      ElemsRoundTrip(elems, s);
  }

  lemma NullRoundTrip(s: ByteString)
    ensures Decode(NULL_BULK + s) == Decoded(NullBulk, s)
  {
    var text: ByteString := [MINUS, 49];
    assert NULL_BULK + s == Line(DOLLAR, text) + s;
    LineSplits(DOLLAR, text, s);
    assert text[1..] == [49] && [49][..0] == [];
    assert Decimal.Value([49]) == 1;
    assert Decimal.ParseSigned(text) == Some(-1);
  }

  lemma BulkReplyRoundTrip(payload: ByteString, s: ByteString)
    ensures Decode(ToBytes(Bulk(payload)) + s) == Decoded(Bulk(payload), s)
  {
    hide SplitCrlf, Line, Decimal.Print, Decimal.ParseSigned;
    var n, text := |payload|, Decimal.Print(|payload|);
    var rest := payload + CRLF + s;
    Associative(Line(DOLLAR, text), payload + CRLF, s);
    PrintParses(n);
    LineSplits(DOLLAR, text, rest);
    assert rest[..n] == payload && rest[n + 2..] == s && rest[n] == CR && rest[n + 1] == LF;
  }

  lemma {:induction false} ElemsRoundTrip(rs: seq<Reply>, s: ByteString)
    ensures DecodeElems(AllBytes(rs) + s, |rs|) == DecodedMany(rs, s)
    decreases rs, 0
  {
    hide Decode, ToBytes;
    if rs == [] {
      assert AllBytes(rs) + s == s;
    } else {
      Associative(ToBytes(rs[0]), AllBytes(rs[1..]), s);
      ReplyRoundTrip(rs[0], AllBytes(rs[1..]) + s);
      ElemsRoundTrip(rs[1..], s);
      assert [rs[0]] + rs[1..] == rs;
    }
  }

  /** A client reading the reply stream recovers exactly the replies that were sent. */
  lemma {:induction false} StreamDecodes(rs: seq<Reply>)
    ensures DecodeStream(AllBytes(rs)) == Some(rs)
    decreases rs
  {
    hide Decode, ToBytes;
    if rs != [] {
      ReplyRoundTrip(rs[0], AllBytes(rs[1..]));
      StreamDecodes(rs[1..]);
      assert [rs[0]] + rs[1..] == rs;
    }
  }

  /**
   * Validation is what the wire needs: a client reads `value` back from a simple string line if and only
   * if it validates, which is just when sanitizing would leave it alone.
   */
  lemma SimpleIffDecodable(value: ByteString)
    ensures TrySimple(value).Ok? <==>
            var d := Decode(Line(PLUS, value));
            d.Decoded? && d.reply.SimpleString? && d.reply.inner == value && d.rest == []
    ensures TrySimple(value).Ok? <==> Sanitized(value) == value
  {
    hide Decode, Sanitized;
    if TrySimple(value).Ok? {
      ReplyRoundTrip(SimpleString(value), []);
      assert ToBytes(SimpleString(value)) + [] == Line(PLUS, value);
    }
  }

  /** Different reply streams never share their bytes. */
  lemma RepliesUniquelyDecodable(a: seq<Reply>, b: seq<Reply>)
    ensures AllBytes(a) == AllBytes(b) <==> a == b
  {
    hide DecodeStream, AllBytes;
    StreamDecodes(a);
    StreamDecodes(b);
  }

  // ---- What each cache outcome answers ----

  function Narrow(n: nat): I64 {
    if n <= I64_MAX then n else I64_MAX
  }

  /** `Reply::from(CommandOutcome)` for the outcomes the cache produces. */
  function ReplyTo(o: CacheSpec.Outcome): Reply
    requires o.Count? ==> -(I64_MAX as int) - 1 <= o.n <= I64_MAX
  {
    match o
    case Value(Some(v)) => Bulk(v)
    case Value(None) => NullBulk
    case Done => SimpleString(OK)
    case Flag(yes) => Integer(if yes then 1 else 0)
    case TimeLeft(KeyNotFound) => Integer(-2)
    case TimeLeft(TtlNotFound) => Integer(-1)
    case TimeLeft(Remaining(s)) => Integer(Narrow(s))
    case Count(n) => Integer(n)
  }

  /** On the wire, TTL tells its three cases apart and its seconds apart, up to the saturation point. */
  lemma TtlReplyUnambiguous(x: CacheSpec.TtlOutcome, y: CacheSpec.TtlOutcome)
    ensures ToBytes(ReplyTo(CacheSpec.TimeLeft(x))) == ToBytes(ReplyTo(CacheSpec.TimeLeft(y))) <==>
            x == y || (x.Remaining? && y.Remaining? && x.seconds >= I64_MAX && y.seconds >= I64_MAX)
  {
    hide ToBytes, Decode;
    ReplyRoundTrip(ReplyTo(CacheSpec.TimeLeft(x)), []);
    ReplyRoundTrip(ReplyTo(CacheSpec.TimeLeft(y)), []);
  }
}
