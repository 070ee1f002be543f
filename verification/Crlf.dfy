/** Splitting a byte slice on its first CRLF. */
module Crlf {
  import opened Wrappers
  import opened Bytes

  predicate CrlfAt(b: ByteString, p: nat) {
    p + 2 <= |b| && b[p] == CR && b[p + 1] == LF
  }

  /** Index of the first CRLF, if there is one. */
  function FindCrlf(b: ByteString): (r: Option<nat>)
    ensures r.Some? ==> CrlfAt(b, r.value) && forall q: nat :: q < r.value ==> !CrlfAt(b, q)
    ensures r.None? ==> forall q: nat :: !CrlfAt(b, q)
  {
    if |b| < 2 then None
    else if CrlfAt(b, 0) then Some(0)
    else
      var rest := FindCrlf(b[1..]);
      assert forall q: nat :: 0 < q ==> (CrlfAt(b, q) <==> CrlfAt(b[1..], q - 1));
      if rest.Some? then Some(rest.value + 1) else None
  }

  datatype Split = NoSplit | Split(before: ByteString, after: ByteString)

  /** What comes before and after the first CRLF. */
  function SplitCrlf(b: ByteString): Split {
    match FindCrlf(b)
    case None => NoSplit
    case Some(p) => Split(b[..p], b[p + 2..])
  }

  /** The first CRLF is where it is, however much arrives behind it. */
  lemma FindIsUnique(b: ByteString, p: nat)
    requires CrlfAt(b, p) && forall q: nat :: q < p ==> !CrlfAt(b, q)
    ensures FindCrlf(b) == Some(p)
  {
  }

  lemma SplitExtends(b: ByteString, x: ByteString)
    requires SplitCrlf(b).Split?
    ensures SplitCrlf(b + x) == Split(SplitCrlf(b).before, SplitCrlf(b).after + x)
  {
    var p := FindCrlf(b).value;
    assert forall q: nat :: q <= p ==> (CrlfAt(b + x, q) <==> CrlfAt(b, q));
    FindIsUnique(b + x, p);
    assert (b + x)[p + 2..] == b[p + 2..] + x;
  }

  /** A line holding no CR is split off exactly at its own terminator. */
  lemma SplitLine(line: ByteString, rest: ByteString)
    requires CR !in line
    ensures SplitCrlf(line + CRLF + rest) == Split(line, rest)
  {
    var b := line + CRLF + rest;
    FindIsUnique(b, |line|);
    assert b[..|line|] == line && b[|line| + 2..] == rest;
  }

  /** A line whose terminator has not fully arrived does not split. */
  lemma SplitCutLine(line: ByteString, k: nat)
    requires CR !in line && k < |line + CRLF|
    ensures SplitCrlf((line + CRLF)[..k]).NoSplit?
  {
    var b := (line + CRLF)[..k];
    assert forall q: nat :: q < |line| && q < k ==> b[q] == line[q];
  }
}
