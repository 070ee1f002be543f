/** Decimal printing, and parsing as Rust's unsigned and signed `FromStr` do it. */
module Decimal {
  import opened Wrappers
  import opened Bytes
  import Sequences

  predicate AllDigits(s: ByteString) {
    forall i :: 0 <= i < |s| ==> ZERO <= s[i] <= NINE
  }

  /** The number a digit string denotes, leading zeros included. */
  function Value(s: ByteString): nat
    requires AllDigits(s)
  {
    if s == [] then 0 else 10 * Value(s[..|s| - 1]) + (s[|s| - 1] - ZERO)
  }

  /** Canonical decimal, no sign and no leading zeros. */
  function Print(n: nat): (s: ByteString)
    ensures s != [] && AllDigits(s)
  {
    if n < 10 then [ZERO + n] else Print(n / 10) + [ZERO + n % 10]
  }

  /**
   * `str::parse::<u64>` (and `usize`): an optional leading `+`, then at least one digit, then
   * nothing else, with overflow rejected. Non-UTF-8 input fails the same way as a bad digit.
   */
  function ParseUnsigned(s: ByteString, max: nat): (r: Option<nat>)
    ensures r.Some? ==> r.value <= max
  {
    var body := if s != [] && s[0] == PLUS then s[1..] else s;
    if body != [] && AllDigits(body) && Value(body) <= max then Some(Value(body)) else None
  }

  lemma {:induction false} PrintValue(n: nat)
    ensures Value(Print(n)) == n
  {
    if n >= 10 {
      PrintValue(n / 10);
      var s := Print(n);
      assert s[..|s| - 1] == Print(n / 10);
    }
  }

  /** Printing is inverted by parsing on everything the target width can hold. */
  lemma ParseAfterPrint(n: nat, max: nat)
    requires n <= max
    ensures ParseUnsigned(Print(n), max) == Some(n)
  {
    PrintValue(n);
    assert Print(n)[0] != PLUS;
  }

  /** No digit string is shorter than the canonical one for the number it denotes. */
  lemma {:induction false} PrintIsShortest(s: ByteString)
    requires s != [] && AllDigits(s)
    ensures |Print(Value(s))| <= |s|
  {
    var front := s[..|s| - 1];
    if front == [] {
      assert Value(s) < 10;
    } else {
      PrintIsShortest(front);
      if Value(s) >= 10 {
        assert Value(s) / 10 == Value(front);
      }
    }
  }

  lemma {:induction false} PrintLength(n: nat)
    ensures |Print(n)| <= if n == 0 then 1 else n
  {
    if n >= 10 {
      PrintLength(n / 10);
    }
  }

  lemma ParsedIsNoShorter(s: ByteString, max: nat)
    requires ParseUnsigned(s, max).Some?
    ensures |Print(ParseUnsigned(s, max).value)| <= |s|
  {
    var body := if s[0] == PLUS then s[1..] else s;
    PrintIsShortest(body);
  }

  /** `i64::to_string`. */
  function PrintSigned(n: int): (s: ByteString)
    ensures s != []
    ensures forall i :: 0 <= i < |s| ==> s[i] != CR && s[i] != LF
  {
    if n < 0 then [MINUS] + Print(-n) else Print(n)
  }

  /** A RESP integer: an optional sign followed by decimal digits. */
  function ParseSigned(s: ByteString): Option<int> {
    if s != [] && s[0] == MINUS then
      if s[1..] != [] && AllDigits(s[1..]) then Some(-(Value(s[1..]) as int)) else None
    else
      var body := if s != [] && s[0] == PLUS then s[1..] else s;
      if body != [] && AllDigits(body) then Some(Value(body) as int) else None
  }

  lemma ParseAfterPrintSigned(n: int)
    ensures ParseSigned(PrintSigned(n)) == Some(n)
  {
    if n < 0 {
      PrintValue(-n);
      assert PrintSigned(n)[1..] == Print(-n);
    } else {
      PrintValue(n);
    }
  }
  // ---- Which texts are numbers ----

  function Zeros(z: nat): (s: ByteString)
    ensures |s| == z && AllDigits(s)
  {
    seq(z, _ => ZERO)
  }

  lemma {:induction false} LeadingZeros(z: nat, s: ByteString)
    requires AllDigits(s)
    ensures AllDigits(Zeros(z) + s) && Value(Zeros(z) + s) == Value(s)
  {
    var all := Zeros(z) + s;
    if s == [] {
      if z > 0 {
        assert all[..|all| - 1] == Zeros(z - 1) + [];
        LeadingZeros(z - 1, []);
      }
    } else {
      assert all[..|all| - 1] == Zeros(z) + s[..|s| - 1];
      LeadingZeros(z, s[..|s| - 1]);
    }
  }

  lemma PrintNext(v: nat, d: Byte)
    requires ZERO <= d <= NINE
    ensures v > 0 ==> Print(10 * v + (d - ZERO)) == Print(v) + [d]
    ensures v == 0 ==> Print(10 * v + (d - ZERO)) == [d]
  {
  }

  /** Every digit string is its number in canonical form behind some zeros. */
  lemma {:induction false} DigitsAreZerosAndPrint(s: ByteString) returns (z: nat)
    requires s != [] && AllDigits(s)
    ensures s == Zeros(z) + Print(Value(s))
  {
    hide Print;
    var front, last := s[..|s| - 1], s[|s| - 1];
    assert s == front + [last];
    PrintNext(Value(front), last);
    if front == [] {
      z := 0;
    } else {
      z := DigitsAreZerosAndPrint(front);
      if Value(front) == 0 {
        PrintNext(0, ZERO);
        assert front == Zeros(z + 1);
        z := z + 1;
      } else {
        Sequences.Associative(Zeros(z), Print(Value(front)), [last]);
      }
    }
  }

  /** `s` is `n` in decimal, with any number of leading zeros and perhaps a plus sign in front. */
  predicate Spelling(s: ByteString, n: nat, z: nat) {
    s == Zeros(z) + Print(n) || s == [PLUS] + (Zeros(z) + Print(n))
  }

  /** What the parser accepts, exactly. */
  lemma ParsesIff(s: ByteString, max: nat, n: nat)
    ensures ParseUnsigned(s, max) == Some(n) <==> n <= max && exists z: nat :: Spelling(s, n, z)
  {
    hide Print, Value, Zeros;
    if ParseUnsigned(s, max) == Some(n) {
      var z := DigitsAreZerosAndPrint(if s[0] == PLUS then s[1..] else s);
      assert s[0] == PLUS ==> s == [PLUS] + s[1..];
      assert Spelling(s, n, z);
    }
    forall z: nat | Spelling(s, n, z) && n <= max
      ensures ParseUnsigned(s, max) == Some(n)
    {
      SpellingParses(s, max, n, z);
    }
  }

  lemma SpellingParses(s: ByteString, max: nat, n: nat, z: nat)
    requires Spelling(s, n, z) && n <= max
    ensures ParseUnsigned(s, max) == Some(n)
  {
    hide Print, Value, Zeros;
    var body := Zeros(z) + Print(n);
    LeadingZeros(z, Print(n));
    PrintValue(n);
    assert body[0] != PLUS;
    assert s[0] == PLUS ==> s[1..] == body;
  }
}
