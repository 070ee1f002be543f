/**
 * What the wire form of a command means, said without the decoder: verbs and options are literal bytes in any
 * letter case, deadlines are plain sums, and a malformed command is told apart by its first flaw.
 */
module Lifting {
  import opened Wrappers
  import opened Bytes
  import Decimal
  import opened Frames
  import opened Commands
  import opened CommandCodec

  /** `word`, which is in lower case, in any mixture of cases. */
  predicate Spells(s: ByteString, word: ByteString) {
    |s| == |word| && forall i :: 0 <= i < |s| ==> s[i] == word[i] || s[i] as int + 32 == word[i]
  }

  predicate LowerCase(word: ByteString) {
    forall i :: 0 <= i < |word| ==> 97 <= word[i] <= 122
  }

  lemma SpellsIsLower(s: ByteString, word: ByteString)
    requires LowerCase(word)
    ensures Spells(s, word) <==> Lower(s) == word
  {
    if Lower(s) == word {
      assert forall i :: 0 <= i < |s| ==> Lower(s)[i] == word[i];
    }
  }

  /** The deadline furthest away stands in for any beyond it. */
  function Capped(ms: nat): Millis {
    if ms <= 18446744073709551615 then ms else 18446744073709551615
  }

  function Number(text: ByteString): Option<nat> {
    Decimal.ParseUnsigned(text, U64_MAX)
  }

  // ---- Accepted commands ----

  /** The four options of SET: EX, PX, EXAT, PXAT. */
  predicate OptionMeans(option: ByteString, n: nat, now: Millis, at: Millis) {
    || (Spells(option, [101, 120]) && at == Capped(now + 1000 * n))
    || (Spells(option, [112, 120]) && at == Capped(now + n))
    || (Spells(option, [101, 120, 97, 116]) && at == Capped(1000 * n))
    || (Spells(option, [112, 120, 97, 116]) && at == n)
  }

  /** EXPIRE, EXPIREAT, PEXPIREAT. */
  predicate ExpiryMeans(verb: ByteString, n: nat, now: Millis, at: Millis) {
    || (Spells(verb, [101, 120, 112, 105, 114, 101]) && at == Capped(now + 1000 * n))
    || (Spells(verb, [101, 120, 112, 105, 114, 101, 97, 116]) && at == Capped(1000 * n))
    || (Spells(verb, [112, 101, 120, 112, 105, 114, 101, 97, 116]) && at == n)
  }

  /** The words of a command, verb first, mean `c` when read at clock reading `now`. */
  predicate Means(verb: ByteString, args: seq<ByteString>, now: Millis, c: Command) {
    match c
    case Cache(Read(Get(k))) => Spells(verb, [103, 101, 116]) && args == [k]
    case Cache(Read(Exists(k))) => Spells(verb, [101, 120, 105, 115, 116, 115]) && args == [k]
    case Cache(Read(Ttl(k))) => Spells(verb, [116, 116, 108]) && args == [k]
    case Cache(Write(Delete(k))) => Spells(verb, [100, 101, 108]) && args == [k]
    case Cache(Write(Persist(k))) => Spells(verb, [112, 101, 114, 115, 105, 115, 116]) && args == [k]
    case Cache(Write(Set(k, v, None))) => Spells(verb, [115, 101, 116]) && args == [k, v]
    case Cache(Write(Set(k, v, Some(at)))) =>
      && Spells(verb, [115, 101, 116]) && |args| == 4 && args[0] == k && args[1] == v
      && Number(args[3]).Some? && OptionMeans(args[2], Number(args[3]).value, now, at)
    case Cache(Write(ExpireAt(k, at))) =>
      && |args| == 2 && args[0] == k
      && Number(args[1]).Some? && ExpiryMeans(verb, Number(args[1]).value, now, at)
    case Ping(None) => Spells(verb, [112, 105, 110, 103]) && args == []
    case Ping(Some(m)) => Spells(verb, [112, 105, 110, 103]) && args == [m]
    case Channel(Subscribe(ids)) => Spells(verb, [115, 117, 98, 115, 99, 114, 105, 98, 101]) && args == ids && ids != []
    case Channel(Unsubscribe(ids)) => Spells(verb, [117, 110, 115, 117, 98, 115, 99, 114, 105, 98, 101]) && args == ids
    case Channel(Publish(c, m)) => Spells(verb, [112, 117, 98, 108, 105, 115, 104]) && args == [c, m]
  }

  /** `words` as an array of bulk strings. */
  function AsBulk(words: seq<ByteString>): (r: seq<Frame>)
    ensures |r| == |words| && forall i :: 0 <= i < |r| ==> r[i] == BulkString(words[i])
  {
    seq(|words|, i requires 0 <= i < |words| => BulkString(words[i]))
  }

  lemma AllBulkIff(args: seq<Frame>, words: seq<ByteString>)
    ensures AllBulk(args) == Ok(words) <==> args == AsBulk(words)
    decreases args
  {
    if args == [] {
      assert words == [] ==> AsBulk(words) == [];
    } else if args[0].BulkString? {
      if words != [] {
        AllBulkIff(args[1..], words[1..]);
        assert AsBulk(words)[1..] == AsBulk(words[1..]);
        assert args == [args[0]] + args[1..] && words == [words[0]] + words[1..];
        assert AsBulk(words) == [BulkString(words[0])] + AsBulk(words[1..]);
      }
    }
  }

  lemma OptionWords(option: ByteString)
    ensures Spells(option, [101, 120]) <==> Lower(option) == EX
    ensures Spells(option, [112, 120]) <==> Lower(option) == PX
    ensures Spells(option, [101, 120, 97, 116]) <==> Lower(option) == EXAT
    ensures Spells(option, [112, 120, 97, 116]) <==> Lower(option) == PXAT
  {
    hide Spells, Lower;
    SpellsIsLower(option, EX);
    SpellsIsLower(option, PX);
    SpellsIsLower(option, EXAT);
    SpellsIsLower(option, PXAT);
  }

  lemma VerbWords(verb: ByteString)
    ensures Spells(verb, [103, 101, 116]) <==> Lower(verb) == GET
    ensures Spells(verb, [115, 101, 116]) <==> Lower(verb) == SET
    ensures Spells(verb, [100, 101, 108]) <==> Lower(verb) == DEL
    ensures Spells(verb, [112, 105, 110, 103]) <==> Lower(verb) == PING
    ensures Spells(verb, [101, 120, 105, 115, 116, 115]) <==> Lower(verb) == EXISTS
    ensures Spells(verb, [101, 120, 112, 105, 114, 101]) <==> Lower(verb) == EXPIRE
    ensures Spells(verb, [101, 120, 112, 105, 114, 101, 97, 116]) <==> Lower(verb) == EXPIREAT
    ensures Spells(verb, [112, 101, 120, 112, 105, 114, 101, 97, 116]) <==> Lower(verb) == PEXPIREAT
    ensures Spells(verb, [116, 116, 108]) <==> Lower(verb) == TTL
    ensures Spells(verb, [112, 101, 114, 115, 105, 115, 116]) <==> Lower(verb) == PERSIST
    ensures Spells(verb, [115, 117, 98, 115, 99, 114, 105, 98, 101]) <==> Lower(verb) == SUBSCRIBE
    ensures Spells(verb, [117, 110, 115, 117, 98, 115, 99, 114, 105, 98, 101]) <==> Lower(verb) == UNSUBSCRIBE
    ensures Spells(verb, [112, 117, 98, 108, 105, 115, 104]) <==> Lower(verb) == PUBLISH
  {
    hide Spells, Lower;
    SpellsIsLower(verb, GET);
    SpellsIsLower(verb, SET);
    SpellsIsLower(verb, DEL);
    SpellsIsLower(verb, PING);
    SpellsIsLower(verb, EXISTS);
    SpellsIsLower(verb, EXPIRE);
    SpellsIsLower(verb, EXPIREAT);
    SpellsIsLower(verb, PEXPIREAT);
    SpellsIsLower(verb, TTL);
    SpellsIsLower(verb, PERSIST);
    SpellsIsLower(verb, SUBSCRIBE);
    SpellsIsLower(verb, UNSUBSCRIBE);
    SpellsIsLower(verb, PUBLISH);
  }

  /** Bulk-string arguments, lifted by the arm their verb selects. */
  lemma WordsLift(verb: ByteString, words: seq<ByteString>, now: Millis, c: Command)
    ensures FromFrame(Array([BulkString(verb)] + AsBulk(words)), now) == Ok(c) <==> Means(verb, words, now, c)
  {
    var f := Array([BulkString(verb)] + AsBulk(words));
    var args := AsBulk(words);
    assert f.elems[1..] == args;
    VerbWords(verb);
    hide Spells, Lower;
    var v := Lower(verb);
    if v == SET {
      SetLifts(verb, words, now, c);
    } else if v in [EXPIRE, EXPIREAT, PEXPIREAT] {
      ExpireLifts(verb, words, now, c);
    } else if v in [GET, DEL, EXISTS, TTL, PERSIST] {
      KeyLifts(verb, words, now, c);
    } else if v in [SUBSCRIBE, UNSUBSCRIBE] {
      ChannelsLift(verb, words, now, c);
    } else {
      OtherLifts(verb, words, now, c);
    }
  }

  lemma DeadlineIs(option: ByteString, n: Millis, now: Millis, at: Millis)
    ensures OptionMeans(option, n, now, at) <==>
            Lower(option) in [EX, PX, EXAT, PXAT] && at == SetDeadline(Lower(option), n, now)
  {
    OptionWords(option);
    hide Spells, Lower;
  }

  lemma ExpiryIs(verb: ByteString, n: Millis, now: Millis, at: Millis)
    ensures ExpiryMeans(verb, n, now, at) <==>
            || (Lower(verb) == EXPIRE && at == SaturatingAdd(now, SecondsToMillis(n)))
            || (Lower(verb) == EXPIREAT && at == SecondsToMillis(n))
            || (Lower(verb) == PEXPIREAT && at == n)
  {
    VerbWords(verb);
    hide Spells, Lower;
  }

  lemma SetLifts(verb: ByteString, words: seq<ByteString>, now: Millis, c: Command)
    requires Lower(verb) == SET
    ensures LiftSet(AsBulk(words), now) == Ok(c) <==> Means(verb, words, now, c)
  {
    VerbWords(verb);
    var args := AsBulk(words);
    if |words| == 2 {
      assert args[1..][0] == BulkString(words[1]) && words == [words[0], words[1]];
      hide Spells, Lower;
    } else if |words| >= 4 {
      assert args[1..][0] == BulkString(words[1]) && args[3..][0] == BulkString(words[3]);
      if c.Cache? && c.cache.Write? && c.cache.write.Set? && c.cache.write.expiresAt.Some? && Number(words[3]).Some? {
        DeadlineIs(words[2], Number(words[3]).value, now, c.cache.write.expiresAt.value);
      }
      hide Spells, Lower, SetDeadline, OptionMeans, Decimal.ParseUnsigned;
    } else if |words| == 3 {
      assert args[1..][0] == BulkString(words[1]) && args[3..] == [];
      hide Spells, Lower;
    } else {
      assert |words| == 1 ==> args[1..] == [];
      hide Spells, Lower;
    }
  }

  lemma ExpireLifts(verb: ByteString, words: seq<ByteString>, now: Millis, c: Command)
    requires Lower(verb) in [EXPIRE, EXPIREAT, PEXPIREAT]
    ensures LiftExpire(Lower(verb), AsBulk(words), now) == Ok(c) <==> Means(verb, words, now, c)
  {
    VerbWords(verb);
    var args := AsBulk(words);
    if |words| >= 2 {
      assert args[1..][0] == BulkString(words[1]);
      if c.Cache? && c.cache.Write? && c.cache.write.ExpireAt? && Number(words[1]).Some? {
        ExpiryIs(verb, Number(words[1]).value, now, c.cache.write.deadline);
      }
      hide Spells, Lower, ExpiryMeans, SaturatingAdd, SecondsToMillis, Decimal.ParseUnsigned;
    } else {
      assert |words| == 1 ==> args[1..] == [];
      hide Spells, Lower;
    }
  }

  lemma KeyLifts(verb: ByteString, words: seq<ByteString>, now: Millis, c: Command)
    requires Lower(verb) in [GET, DEL, EXISTS, TTL, PERSIST]
    ensures LiftOneKey(Lower(verb), AsBulk(words)) == Ok(c) <==> Means(verb, words, now, c)
  {
    VerbWords(verb);
    hide Spells, Lower, ExpiryMeans;
    ExpiryNeedsItsVerb(verb, c);
    if |words| == 1 {
      assert words == [words[0]];
    }
  }

  /** No other verb means an expiry. */
  lemma ExpiryNeedsItsVerb(verb: ByteString, c: Command)
    ensures Lower(verb) !in [EXPIRE, EXPIREAT, PEXPIREAT] ==>
              forall n: nat, now: Millis, at: Millis :: !ExpiryMeans(verb, n, now, at)
  {
    VerbWords(verb);
    hide Spells, Lower;
  }

  lemma ChannelsLift(verb: ByteString, words: seq<ByteString>, now: Millis, c: Command)
    requires Lower(verb) in [SUBSCRIBE, UNSUBSCRIBE]
    ensures LiftChannels(Lower(verb), AsBulk(words)) == Ok(c) <==> Means(verb, words, now, c)
  {
    VerbWords(verb);
    ExpiryNeedsItsVerb(verb, c);
    AllBulkIff(AsBulk(words), words);
    hide Spells, Lower, ExpiryMeans, AllBulk;
  }

  lemma OtherLifts(verb: ByteString, words: seq<ByteString>, now: Millis, c: Command)
    requires Lower(verb) !in [SET, EXPIRE, EXPIREAT, PEXPIREAT, GET, DEL, EXISTS, TTL, PERSIST, SUBSCRIBE, UNSUBSCRIBE]
    ensures FromFrame(Array([BulkString(verb)] + AsBulk(words)), now) == Ok(c) <==> Means(verb, words, now, c)
  {
    VerbWords(verb);
    ExpiryNeedsItsVerb(verb, c);
    hide Spells, Lower, ExpiryMeans;
    var args := AsBulk(words);
    assert ([BulkString(verb)] + args)[1..] == args;
    if |words| == 1 {
      assert words == [words[0]];
    } else if |words| == 2 {
      assert words == [words[0], words[1]];
    }
  }

  // ---- Rejected commands ----

  /** What an argument position asks for. */
  datatype Slot = Text | OptionWord | Amount

  predicate IsOption(word: ByteString) {
    Spells(word, [101, 120]) || Spells(word, [112, 120]) || Spells(word, [101, 120, 97, 116]) ||
    Spells(word, [112, 120, 97, 116])
  }

  function SlotFlaw(slot: Slot, word: ByteString): Option<CommandError> {
    match slot
    case Text => None
    case OptionWord => if IsOption(word) then None else Some(Syntax)
    case Amount => if Number(word).Some? then None else Some(BadNumber)
  }

  /** The first thing wrong with the arguments, reading from the left. */
  function FirstFlaw(slots: seq<Slot>, args: seq<Frame>): Option<CommandError> {
    if slots == [] then if args == [] then None else Some(TooManyParts)
    else if args == [] then Some(NotEnoughParts)
    else if args[0].Array? then Some(UnexpectedFrame)
    else
      match SlotFlaw(slots[0], args[0].payload)
      case Some(e) => Some(e)
      case None => FirstFlaw(slots[1..], args[1..])
  }

  predicate NoArrayIn(args: seq<Frame>) {
    forall i :: 0 <= i < |args| ==> args[i].BulkString?
  }

  /** What is wrong with a frame as a command, if anything: the shape, then the verb, then its arguments. */
  function Complaint(f: Frame): Option<CommandError> {
    if !f.Array? then Some(UnexpectedFrame)
    else if f.elems == [] then Some(NotEnoughParts)
    else if f.elems[0].Array? then Some(UnexpectedFrame)
    else ArgsComplaint(f.elems[0].payload, f.elems[1..])
  }

  function ArgsComplaint(verb: ByteString, args: seq<Frame>): Option<CommandError> {
    if Spells(verb, [115, 101, 116]) then
      FirstFlaw(if |args| <= 2 then [Text, Text] else [Text, Text, OptionWord, Amount], args)
    else if || Spells(verb, [103, 101, 116]) || Spells(verb, [100, 101, 108]) || Spells(verb, [116, 116, 108])
            || Spells(verb, [101, 120, 105, 115, 116, 115]) || Spells(verb, [112, 101, 114, 115, 105, 115, 116])
    then FirstFlaw([Text], args)
    else if || Spells(verb, [101, 120, 112, 105, 114, 101]) || Spells(verb, [101, 120, 112, 105, 114, 101, 97, 116])
            || Spells(verb, [112, 101, 120, 112, 105, 114, 101, 97, 116])
    then FirstFlaw([Text, Amount], args)
    else if Spells(verb, [112, 105, 110, 103]) then FirstFlaw(if args == [] then [] else [Text], args)
    else if Spells(verb, [115, 117, 98, 115, 99, 114, 105, 98, 101]) then
      if !NoArrayIn(args) then Some(UnexpectedFrame) else if args == [] then Some(NotEnoughParts) else None
    else if Spells(verb, [117, 110, 115, 117, 98, 115, 99, 114, 105, 98, 101]) then
      if !NoArrayIn(args) then Some(UnexpectedFrame) else None
    else if Spells(verb, [112, 117, 98, 108, 105, 115, 104]) then
      // PUBLISH counts to two before it looks at either.
      if |args| < 2 then Some(NotEnoughParts) else FirstFlaw([Text, Text], args)
    else Some(UnrecognizedCommand)
  }

  function Fault(r: Lifted): Option<CommandError> {
    match r case Err(e) => Some(e) case Ok(_) => None
  }

  lemma OneTextFlaw(args: seq<Frame>)
    ensures FirstFlaw([Text], args) == match OneKey(args) case Err(e) => Some(e) case Ok(_) => None
  {
    if args != [] && args[0].BulkString? {
      assert FirstFlaw([Text], args) == FirstFlaw([Text][1..], args[1..]);
    }
  }

  lemma {:induction false} AllBulkFails(args: seq<Frame>)
    ensures AllBulk(args).Err? <==> !NoArrayIn(args)
    ensures AllBulk(args).Err? ==> AllBulk(args).error == UnexpectedFrame
    ensures AllBulk(args).Ok? ==> (AllBulk(args).value == [] <==> args == [])
  {
    if args != [] {
      AllBulkFails(args[1..]);
      assert args == [args[0]] + args[1..];
      if args[0].BulkString? && NoArrayIn(args[1..]) {
        assert forall i :: 0 < i < |args| ==> args[i] == args[1..][i - 1];
      }
      if NoArrayIn(args) {
        assert forall i :: 0 <= i < |args[1..]| ==> args[1..][i] == args[i + 1];
      }
    }
  }

  lemma AmountFlaw(args: seq<Frame>)
    ensures FirstFlaw([Amount], args) ==
            match NextNumber(args)
            case Err(e) => Some(e)
            case Ok(_) => if |args| > 1 then Some(TooManyParts) else None
  {
    hide Decimal.ParseUnsigned;
    if args != [] && args[0].BulkString? {
      assert [Amount][1..] == [];
    }
  }

  /** One slot further. */
  lemma NextFlaw(slots: seq<Slot>, args: seq<Frame>)
    requires slots != [] && args != [] && args[0].BulkString? && SlotFlaw(slots[0], args[0].payload) == None
    ensures FirstFlaw(slots, args) == FirstFlaw(slots[1..], args[1..])
  {
    hide SlotFlaw;
  }

  lemma OptionFlaw(args: seq<Frame>)
    requires args != [] && args[0].BulkString?
    ensures FirstFlaw([OptionWord, Amount], args) ==
            if !IsOption(args[0].payload) then Some(Syntax) else FirstFlaw([Amount], args[1..])
  {
    hide IsOption;
    assert [OptionWord, Amount][1..] == [Amount];
  }

  lemma ShortSetFlaw(args: seq<Frame>, now: Millis)
    requires |args| <= 2
    ensures Fault(LiftSet(args, now)) == FirstFlaw([Text, Text], args)
  {
    hide Lower, Decimal.ParseUnsigned;
    assert [Text, Text][1..] == [Text];
    if args != [] && args[0].BulkString? {
      NextFlaw([Text, Text], args);
      OneTextFlaw(args[1..]);
    }
  }

  lemma LongSetFlaw(args: seq<Frame>, now: Millis)
    requires |args| > 2
    ensures Fault(LiftSet(args, now)) == FirstFlaw([Text, Text, OptionWord, Amount], args)
  {
    var slots := [Text, Text, OptionWord, Amount];
    assert slots[1..] == [Text, OptionWord, Amount] && slots[1..][1..] == [OptionWord, Amount];
    assert args[1..][0] == args[1] && args[1..][1..] == args[2..] && args[2..][1..] == args[3..];
    if args[0].BulkString? {
      NextFlaw(slots, args);
      if args[1].BulkString? {
        NextFlaw(slots[1..], args[1..]);
        if args[2].BulkString? {
          OptionFlaw(args[2..]);
          AmountFlaw(args[3..]);
          OptionWords(args[2].payload);
        }
      }
    }
    hide Lower, Spells, NextNumber, SetDeadline;
  }

  lemma ExpireFlaw(verb: ByteString, args: seq<Frame>, now: Millis)
    ensures Fault(LiftExpire(verb, args, now)) == FirstFlaw([Text, Amount], args)
  {
    hide NextNumber;
    assert [Text, Amount][1..] == [Amount];
    if args != [] && args[0].BulkString? {
      NextFlaw([Text, Amount], args);
      AmountFlaw(args[1..]);
    }
  }

  lemma PublishFlaw(args: seq<Frame>)
    requires |args| >= 2
    ensures Fault(LiftPublish(args)) == FirstFlaw([Text, Text], args)
  {
    assert [Text, Text][1..] == [Text];
    assert args[1..][0] == args[1] && |args[1..]| == |args| - 1;
    OneTextFlaw(args[1..]);
  }

  /** A frame is rejected exactly with the first thing that is wrong with it. */
  lemma RejectsIff(f: Frame, now: Millis)
    ensures Fault(FromFrame(f, now)) == Complaint(f)
  {
    if f.Array? && f.elems != [] && f.elems[0].BulkString? {
      var verb, args := f.elems[0].payload, f.elems[1..];
      VerbWords(verb);
      if |args| <= 2 {
        ShortSetFlaw(args, now);
      } else {
        LongSetFlaw(args, now);
      }
      ExpireFlaw(Lower(verb), args, now);
      OneTextFlaw(args);
      AllBulkFails(args);
      if |args| >= 2 {
        PublishFlaw(args);
      }
      NothingFlawless();
      hide Spells, Lower, LiftSet, LiftExpire, LiftPublish, OneKey, AllBulk, FirstFlaw;
    }
  }

  lemma NothingFlawless()
    ensures FirstFlaw([], []) == None
  {
  }

  // ---- Both together ----

  /** An array of bulk strings, the verb first. */
  predicate Wordy(f: Frame) {
    f.Array? && f.elems != [] && NoArrayIn(f.elems)
  }

  function Words(fs: seq<Frame>): (r: seq<ByteString>)
    requires NoArrayIn(fs)
    ensures AsBulk(r) == fs
  {
    seq(|fs|, i requires 0 <= i < |fs| => fs[i].payload)
  }

  lemma {:induction false} FlawlessArgs(slots: seq<Slot>, args: seq<Frame>)
    requires FirstFlaw(slots, args) == None
    ensures NoArrayIn(args)
  {
    if slots != [] {
      FlawlessArgs(slots[1..], args[1..]);
      assert forall i :: 0 < i < |args| ==> args[i] == args[1..][i - 1];
    }
  }

  lemma FlawlessIsWordy(f: Frame)
    requires Complaint(f) == None
    ensures Wordy(f)
  {
    hide Spells;
    var args := f.elems[1..];
    if FirstFlaw([Text], args) == None {
      FlawlessArgs([Text], args);
    } else if FirstFlaw([Text, Amount], args) == None {
      FlawlessArgs([Text, Amount], args);
    } else if FirstFlaw([Text, Text], args) == None {
      FlawlessArgs([Text, Text], args);
    } else if FirstFlaw([Text, Text, OptionWord, Amount], args) == None {
      FlawlessArgs([Text, Text, OptionWord, Amount], args);
    } else if FirstFlaw([], args) == None {
      FlawlessArgs([], args);
    }
    assert forall i :: 0 < i < |f.elems| ==> f.elems[i] == args[i - 1];
  }

  lemma WordyLifts(f: Frame, now: Millis, c: Command)
    requires Wordy(f)
    ensures FromFrame(f, now) == Ok(c) <==> Means(Words(f.elems)[0], Words(f.elems)[1..], now, c)
  {
    hide FromFrame, Means;
    var words := Words(f.elems);
    var verb, args := words[0], words[1..];
    assert f.elems == [BulkString(verb)] + AsBulk(args);
    WordsLift(verb, args, now, c);
    assert f == Array([BulkString(verb)] + AsBulk(args));
  }

  lemma UnwordyFails(f: Frame, now: Millis)
    requires !Wordy(f)
    ensures FromFrame(f, now).Err?
  {
    hide FromFrame, Complaint, Wordy;
    RejectsIff(f, now);
    if Complaint(f) == None {
      FlawlessIsWordy(f);
    }
  }

  /** A frame lifts to `c` if and only if it is an array of bulk strings that mean `c`. */
  lemma LiftsIff(f: Frame, now: Millis, c: Command)
    ensures FromFrame(f, now) == Ok(c) <==>
            Wordy(f) && Means(Words(f.elems)[0], Words(f.elems)[1..], now, c)
  {
    hide FromFrame, Means;
    if Wordy(f) {
      WordyLifts(f, now, c);
    } else {
      UnwordyFails(f, now);
    }
  }
}
