/** From the wire to the wire: what TTL answers about a deadline that SET EX has just put on a key. */
module TtlTheorem {
  import opened Wrappers
  import opened Bytes
  import Decimal
  import opened Frames
  import opened Commands
  import opened CommandCodec
  import opened CacheSpec

  /** `SET key value EX seconds`, in the case a client may well use. */
  function SetEx(key: ByteString, value: ByteString, seconds: Millis): Frame {
    Array([BulkString(LOG_SET), BulkString(key), BulkString(value), BulkString(EX), BulkString(Decimal.Print(seconds))])
  }

  lemma SetExLifts(key: ByteString, value: ByteString, seconds: Millis, now: Millis)
    ensures FromFrame(SetEx(key, value, seconds), now) ==
            Ok(Cache(Write(Set(key, value, Some(SaturatingAdd(now, SecondsToMillis(seconds)))))))
  {
    hide Decimal.ParseUnsigned, Decimal.Print;
    Decimal.ParseAfterPrint(seconds, U64_MAX);
    var args := SetEx(key, value, seconds).elems[1..];
    assert Lower(LOG_SET) == SET && Lower(EX) == EX;
    assert args[1..][0] == BulkString(value) && args[3..] == [BulkString(Decimal.Print(seconds))];
  }

  /** How far a deadline `seconds` from `now` would overshoot the largest one there is. */
  function Overshoot(seconds: Millis, now: Millis): nat {
    if now + 1000 * seconds > U64_MAX then now + 1000 * seconds - U64_MAX else 0
  }

  /**
   * A key set with EX reads back its full number of seconds if and only if the time passed at TTL's second
   * clock reading, plus what saturation cut off the deadline, is less than one second. With zero seconds it
   * never does.
   */
  lemma FreshTtlReadsBack(m: Store, key: ByteString, value: ByteString, seconds: Millis, now: Millis,
                          asked: Millis, again: Millis)
    requires now <= asked <= again
    ensures var lifted := FromFrame(SetEx(key, value, seconds), now);
            && lifted.Ok? && lifted.value.Cache? && lifted.value.cache.Write?
            && var after := ApplyAt(m, lifted.value.cache.write, now);
               ReadReply(after, Ttl(key), asked, again) == TimeLeft(Remaining(seconds)) <==>
               0 < seconds && again - now + Overshoot(seconds, now) < 1000
  {
    hide FromFrame, SetEx, SecondsRoundedUp;
    SetExLifts(key, value, seconds, now);
    var deadline := SaturatingAdd(now, SecondsToMillis(seconds));
    assert deadline == now + 1000 * seconds - Overshoot(seconds, now);
    CeilingIs(SaturatingSub(deadline, again), seconds);
  }

  lemma CeilingIs(ms: nat, s: nat)
    ensures SecondsRoundedUp(ms) == s <==> 1000 * s - 1000 < ms <= 1000 * s
  {
  }
}
