/** What the frame codec promises: stability, round trip, self-delimitation and bounded work. */
module FrameTheory {
  import opened Wrappers
  import opened Bytes
  import Decimal
  import opened Crlf
  import opened Frames

  // ---- Stability: more input never changes a decision already taken ----

  function Extend(r: Parse, x: ByteString): Parse {
    match r
    case Failed(e) => r
    case Parsed(f, rest) => Parsed(f, rest + x)
  }

  function ExtendAll(r: ParseMany, x: ByteString): ParseMany {
    match r
    case FailedAll(e) => r
    case ParsedAll(fs, rest) => ParsedAll(fs, rest + x)
  }

  lemma HeadStable(b: ByteString, x: ByteString)
    requires ParseHead(b) != HeadErr(Incomplete)
    ensures ParseHead(b + x) == match ParseHead(b)
                                case HeadErr(e) => HeadErr(e)
                                case HeadOk(sigil, len, rest) => HeadOk(sigil, len, rest + x)
  {
    SplitExtends(b, x);
  }

  lemma BulkStable(b: ByteString, len: nat, x: ByteString)
    requires ParseBulk(b, len) != Failed(Incomplete)
    ensures ParseBulk(b + x, len) == Extend(ParseBulk(b, len), x)
  {
    assert (b + x)[..len] == b[..len];
    assert (b + x)[len..len + 2] == b[len..len + 2];
    assert (b + x)[len + 2..] == b[len + 2..] + x;
  }

  /** Success and hard failure are both final, through arbitrary array nesting. */
  lemma {:induction false} ParseStable(b: ByteString, x: ByteString)
    requires ParseOne(b) != Failed(Incomplete)
    ensures ParseOne(b + x) == Extend(ParseOne(b), x)
    decreases |b|, 0
  {
    HeadStable(b, x);
    match ParseHead(b)
    case HeadErr(e) =>
    case HeadOk(sigil, len, rest) =>
      if sigil == STAR {
        ElemsStable(rest, len, x);
      } else if sigil == DOLLAR {
        BulkStable(rest, len, x);
      }
  }

  lemma {:induction false} ElemsStable(b: ByteString, n: nat, x: ByteString)
    requires ParseElems(b, n) != FailedAll(Incomplete)
    ensures ParseElems(b + x, n) == ExtendAll(ParseElems(b, n), x)
    decreases |b|, 1
  {
    hide ParseOne, Encode;
    if n > 0 {
      ParseStable(b, x);
      match ParseOne(b)
      case Failed(e) =>
      case Parsed(f, rest) =>
        assert ParseElems(b, n) == Prepend([f], ParseElems(rest, n - 1));
        ElemsStable(rest, n - 1, x);
        assert ParseElems(b + x, n) == Prepend([f], ParseElems(rest + x, n - 1));
    }
  }

  // ---- Incomplete means undecided: some continuation is a hard error, and so not a frame ----

  predicate HardError(r: Parse) {
    r.Failed? && r.error != Incomplete
  }

  /** With no CRLF yet, the line can still turn out not to be a header. */
  lemma HeadUndecided(b: ByteString)
    requires ParseHead(b) == HeadErr(Incomplete)
    ensures HardError(ParseOne(b + ([120] + CRLF)))
  {
    var line: ByteString := b + [120];
    var all := b + ([120] + CRLF);
    assert all == line + CRLF;
    forall q: nat | q < |line|
      ensures !CrlfAt(all, q)
    {
      assert !CrlfAt(b, q);
    }
    FindIsUnique(all, |line|);
    assert all[..|line|] == line;
    if b != [] {
      assert line[1..][|line[1..]| - 1] == 120;
      NotANumber(line[1..]);
    }
  }

  lemma NotANumber(s: ByteString)
    requires s != [] && s[|s| - 1] == 120
    ensures Decimal.ParseUnsigned(s, U64_MAX).None?
  {
    var body := if s[0] == PLUS then s[1..] else s;
    assert body != [] && body[|body| - 1] == 120;
  }

  lemma BulkUndecided(b: ByteString, len: nat) returns (x: ByteString)
    requires ParseBulk(b, len) == Failed(Incomplete)
    ensures ParseBulk(b + x, len) == Failed(MissingTerminator)
  {
    x := seq(len + 2, i requires 0 <= i < len + 2 => 120);
    assert (b + x)[len..len + 2][1] == (b + x)[len + 1] == 120;
  }

  lemma {:induction false} IncompleteIsUndecided(b: ByteString) returns (x: ByteString)
    requires ParseOne(b) == Failed(Incomplete)
    ensures HardError(ParseOne(b + x))
    decreases |b|, 0
  {
    match ParseHead(b)
    case HeadErr(e) =>
      x := [120] + CRLF;
      HeadUndecided(b);
    case HeadOk(sigil, len, rest) =>
      if sigil == STAR {
        x := ElemsUndecided(rest, len);
      } else {
        x := BulkUndecided(rest, len);
      }
      HeadStable(b, x);
  }

  lemma {:induction false} ElemsUndecided(b: ByteString, n: nat) returns (x: ByteString)
    requires ParseElems(b, n) == FailedAll(Incomplete)
    ensures ParseElems(b + x, n).FailedAll? && ParseElems(b + x, n).error != Incomplete
    decreases |b|, 1
  {
    hide ParseOne, Encode;
    match ParseOne(b)
    case Failed(e) =>
      x := IncompleteIsUndecided(b);
    case Parsed(f, rest) =>
      x := ElemsUndecided(rest, n - 1);
      ParseStable(b, x);
  }

  /**
   * What incomplete means: the parser decides, with a frame or with a hard error, if and only if nothing
   * that could still arrive would change its verdict.
   */
  lemma DecidedIff(b: ByteString)
    ensures ParseOne(b) != Failed(Incomplete) <==> forall x: ByteString :: ParseOne(b + x) == Extend(ParseOne(b), x)
  {
    hide ParseOne;
    if ParseOne(b) == Failed(Incomplete) {
      var x := IncompleteIsUndecided(b);
      assert ParseOne(b + x) != Extend(ParseOne(b), x);
    } else {
      forall x: ByteString
        ensures ParseOne(b + x) == Extend(ParseOne(b), x)
      {
        ParseStable(b, x);
      }
    }
  }

  // ---- Every verdict, byte for byte ----

  /** Without a CRLF there is no verdict yet. */
  lemma NoLineNoVerdict(b: ByteString)
    requires forall p: nat :: !CrlfAt(b, p)
    ensures ParseOne(b) == Failed(Incomplete)
  {
  }

  /**
   * What a first line decides, with `*` and `$` as the bytes they are: the error it is, or a payload and its
   * terminator to come, or so many elements to come.
   */
  lemma LineVerdict(line: ByteString, rest: ByteString)
    requires forall p: nat :: p < |line| ==> !CrlfAt(line + [13, 10] + rest, p)
    ensures var r := ParseOne(line + [13, 10] + rest);
            if |line| < 2 then r == Failed(Malformed)
            else if Decimal.ParseUnsigned(line[1..], U64_MAX).None? then r == Failed(InvalidLength)
            else
              var n := Decimal.ParseUnsigned(line[1..], U64_MAX).value;
              if line[0] == 42 then
                match ParseElems(rest, n)
                case FailedAll(e) => r == Failed(e)
                case ParsedAll(fs, left) => r == Parsed(Array(fs), left)
              else if line[0] != 36 then r == Failed(UnknownSigil)
              else if |rest| < n + 2 then r == Failed(Incomplete)
              else if rest[n] != 13 || rest[n + 1] != 10 then r == Failed(MissingTerminator)
              else r == Parsed(BulkString(rest[..n]), rest[n + 2..])
  {
    hide ParseElems, ParseBulk, ParseHead, Decimal.ParseUnsigned, SplitCrlf, CrlfAt;
    var b := line + [13, 10] + rest;
    FirstLine(line, rest);
    HeadVerdict(b, line, rest);
    if ParseHead(b).HeadOk? {
      BulkVerdict(rest, ParseHead(b).len);
    }
  }

  lemma HeadVerdict(b: ByteString, line: ByteString, rest: ByteString)
    requires SplitCrlf(b) == Split(line, rest)
    ensures ParseHead(b) ==
            if |line| < 2 then HeadErr(Malformed)
            else if Decimal.ParseUnsigned(line[1..], U64_MAX).None? then HeadErr(InvalidLength)
            else HeadOk(line[0], Decimal.ParseUnsigned(line[1..], U64_MAX).value, rest)
  {
    hide SplitCrlf, Decimal.ParseUnsigned;
  }

  lemma FirstLine(line: ByteString, rest: ByteString)
    requires forall p: nat :: p < |line| ==> !CrlfAt(line + [13, 10] + rest, p)
    ensures SplitCrlf(line + [13, 10] + rest) == Split(line, rest)
  {
    var b := line + [13, 10] + rest;
    FindIsUnique(b, |line|);
    assert b[..|line|] == line && b[|line| + 2..] == rest;
  }

  lemma BulkVerdict(b: ByteString, n: nat)
    ensures ParseBulk(b, n) ==
            if |b| < n + 2 then Failed(Incomplete)
            else if b[n] != 13 || b[n + 1] != 10 then Failed(MissingTerminator)
            else Parsed(BulkString(b[..n]), b[n + 2..])
  {
    if |b| >= n + 2 {
      assert b[n..n + 2] == [b[n], b[n + 1]];
    }
  }

  // ---- Round trip ----

  lemma HeadLine(sigil: Byte, len: nat)
    requires sigil != CR
    ensures CR !in [sigil] + Decimal.Print(len)
  {
  }

  lemma HeadRoundTrip(sigil: Byte, len: nat, rest: ByteString)
    requires sigil != CR && len <= U64_MAX
    ensures ParseHead(Head(sigil, len) + rest) == HeadOk(sigil, len, rest)
  {
    var line := [sigil] + Decimal.Print(len);
    HeadLine(sigil, len);
    SplitLine(line, rest);
    assert line[1..] == Decimal.Print(len);
    Decimal.ParseAfterPrint(len, U64_MAX);
  }

  lemma BulkRoundTrip(payload: ByteString, s: ByteString)
    ensures ParseBulk(payload + CRLF + s, |payload|) == Parsed(BulkString(payload), s)
  {
    var b := payload + CRLF + s;
    var n := |payload|;
    assert b[n..n + 2] == CRLF && b[..n] == payload && b[n + 2..] == s;
  }

  /** Parsing undoes writing, whatever follows and whatever bytes the payloads hold. */
  lemma {:induction false} RoundTrip(f: Frame, s: ByteString)
    requires Sized(f)
    ensures ParseOne(Encode(f) + s) == Parsed(f, s)
    decreases f, 1
  {
    match f
    case Array(elems) =>
      assert Encode(f) + s == Head(STAR, |elems|) + (EncodeAll(elems) + s);
      HeadRoundTrip(STAR, |elems|, EncodeAll(elems) + s);
      ElemsRoundTrip(elems, s);
    case BulkString(payload) =>
      assert Encode(f) + s == Head(DOLLAR, |payload|) + (payload + CRLF + s);
      HeadRoundTrip(DOLLAR, |payload|, payload + CRLF + s);
      BulkRoundTrip(payload, s);
  }

  lemma {:induction false} ElemsRoundTrip(fs: seq<Frame>, s: ByteString)
    requires forall f :: f in fs ==> Sized(f)
    ensures ParseElems(EncodeAll(fs) + s, |fs|) == ParsedAll(fs, s)
    decreases fs, 0
  {
    hide ParseOne, Encode;
    if fs == [] {
      assert EncodeAll(fs) + s == s;
    } else {
      assert EncodeAll(fs) + s == Encode(fs[0]) + (EncodeAll(fs[1..]) + s);
      RoundTrip(fs[0], EncodeAll(fs[1..]) + s);
      ElemsRoundTrip(fs[1..], s);
      assert [fs[0]] + fs[1..] == fs;
    }
  }

  // ---- Self-delimitation: a cut encoding is never mistaken for anything ----

  lemma HeadCut(sigil: Byte, len: nat, k: nat)
    requires sigil != CR && k < |Head(sigil, len)|
    ensures ParseHead(Head(sigil, len)[..k]) == HeadErr(Incomplete)
  {
    HeadLine(sigil, len);
    SplitCutLine([sigil] + Decimal.Print(len), k);
  }

  lemma CutInTwo(a: ByteString, b: ByteString, k: nat)
    requires k <= |a + b|
    ensures k <= |a| ==> (a + b)[..k] == a[..k]
    ensures k >= |a| ==> (a + b)[..k] == a + b[..k - |a|]
  {
  }

  lemma BulkCut(payload: ByteString, k: nat)
    requires k < |payload + CRLF|
    ensures ParseBulk((payload + CRLF)[..k], |payload|) == Failed(Incomplete)
  {
  }

  /** Every strict prefix of an encoding asks for more input. */
  lemma {:induction false} StrictPrefixIncomplete(f: Frame, k: nat)
    requires Sized(f) && k < |Encode(f)|
    ensures ParseOne(Encode(f)[..k]) == Failed(Incomplete)
    decreases f, 1
  {
    var sigil, len, body :=
      if f.Array? then STAR else DOLLAR,
      if f.Array? then |f.elems| else |f.payload|,
      if f.Array? then EncodeAll(f.elems) else f.payload + CRLF;
    var head := Head(sigil, len);
    assert Encode(f) == head + body;
    CutInTwo(head, body, k);
    if k < |head| {
      HeadCut(sigil, len, k);
    } else {
      HeadRoundTrip(sigil, len, body[..k - |head|]);
      if f.Array? {
        ElemsCut(f.elems, k - |head|);
      } else {
        BulkCut(f.payload, k - |head|);
      }
    }
  }

  lemma {:induction false} ElemsCut(fs: seq<Frame>, k: nat)
    requires (forall f :: f in fs ==> Sized(f)) && k < |EncodeAll(fs)|
    ensures ParseElems(EncodeAll(fs)[..k], |fs|) == FailedAll(Incomplete)
    decreases fs, 0
  {
    hide ParseOne, Encode;
    var first, rest := Encode(fs[0]), EncodeAll(fs[1..]);
    CutInTwo(first, rest, k);
    if k < |first| {
      StrictPrefixIncomplete(fs[0], k);
    } else {
      RoundTrip(fs[0], rest[..k - |first|]);
      ElemsCut(fs[1..], k - |first|);
    }
  }

  // ---- Size and work are bounded by the bytes actually present ----

  lemma HeadConsumes(b: ByteString)
    requires ParseHead(b).HeadOk?
    ensures |Head(ParseHead(b).sigil, ParseHead(b).len)| + |ParseHead(b).rest| <= |b|
  {
    Decimal.ParsedIsNoShorter(SplitCrlf(b).before[1..], U64_MAX);
  }

  /** A success consumes at least the canonical encoding of what it returns, and leaves a suffix of its input. */
  lemma {:induction false} ParseConsumes(b: ByteString)
    requires ParseOne(b).Parsed?
    ensures var r := ParseOne(b);
            Sized(r.frame) && |Encode(r.frame)| + |r.rest| <= |b| && b[|b| - |r.rest|..] == r.rest
    decreases |b|, 0
  {
    HeadConsumes(b);
    var head := ParseHead(b);
    assert b[|b| - |head.rest|..] == head.rest;
    if head.sigil == STAR {
      ElemsConsume(head.rest, head.len);
    }
  }

  lemma {:induction false} ElemsConsume(b: ByteString, n: nat)
    requires ParseElems(b, n).ParsedAll?
    ensures var r := ParseElems(b, n);
            (forall f :: f in r.frames ==> Sized(f))
            && |EncodeAll(r.frames)| + |r.rest| <= |b| && b[|b| - |r.rest|..] == r.rest
    decreases |b|, 1
  {
    hide ParseOne, Encode;
    if n > 0 {
      var one := ParseOne(b);
      ParseConsumes(b);
      ElemsConsume(one.rest, n - 1);
      var fs := ParseElems(one.rest, n - 1).frames;
      assert ([one.frame] + fs)[1..] == fs;
    }
  }

  /** How many times `parse_one` is entered while parsing `b`, failing attempts included. */
  function Entries(b: ByteString): nat
    decreases |b|, 0
  {
    1 + match ParseHead(b)
        case HeadErr(_) => 0
        case HeadOk(sigil, len, rest) => if sigil == STAR then ElemEntries(rest, len) else 0
  }

  function ElemEntries(b: ByteString, n: nat): nat
    decreases |b|, 1
  {
    if n == 0 then 0
    else
      Entries(b) + match ParseOne(b)
                   case Failed(_) => 0
                   case Parsed(_, rest) => ElemEntries(rest, n - 1)
  }

  /**
   * Four bytes of header are spent per entry, so a header claiming any element count costs work
   * bounded by the bytes present, whether or not the parse succeeds.
   */
  lemma {:induction false} WorkBound(b: ByteString)
    ensures 4 * Entries(b) <= |b| + 4
    ensures ParseOne(b).Parsed? ==> 4 * Entries(b) + |ParseOne(b).rest| <= |b|
    decreases |b|, 0
  {
    match ParseHead(b)
    case HeadErr(_) =>
    case HeadOk(sigil, len, rest) =>
      if sigil == STAR {
        ElemsWorkBound(rest, len);
      }
  }

  lemma {:induction false} ElemsWorkBound(b: ByteString, n: nat)
    ensures 4 * ElemEntries(b, n) <= |b| + 4
    ensures ParseElems(b, n).ParsedAll? ==> 4 * ElemEntries(b, n) + |ParseElems(b, n).rest| <= |b|
    decreases |b|, 1
  {
    hide ParseOne, Encode;
    if n > 0 {
      WorkBound(b);
      if ParseOne(b).Parsed? {
        ElemsWorkBound(ParseOne(b).rest, n - 1);
      }
    }
  }
}
