/**
 * The yardstick: what a history of writes means with no clock at all, and why replaying part of
 * that history on top of itself is harmless.
 */
module Ideal {
  import opened Wrappers
  import opened Bytes
  import opened Sequences
  import opened Commands
  import opened CacheSpec

  /** A write with the clock left out: deadlines are recorded, never acted on. */
  function Apply(m: Store, w: WriteCommand): Store {
    match w
    case Set(k, v, at) => m[k := Entry(v, at)]
    case Delete(k) => m - {k}
    case ExpireAt(k, at) => if k in m then m[k := m[k].(expiresAt := Some(at))] else m
    case Persist(k) => if k in m then m[k := m[k].(expiresAt := None)] else m
  }

  function Fold(m: Store, ws: seq<WriteCommand>): Store {
    if ws == [] then m else Apply(Fold(m, ws[..|ws| - 1]), ws[|ws| - 1])
  }

  // ---- The same, seen from one key ----

  function Retimed(o: Option<Entry>, at: Option<Millis>): Option<Entry> {
    match o case None => None case Some(e) => Some(e.(expiresAt := at))
  }

  /** Set and Delete decide a key outright; the other two only move its deadline. */
  predicate IsReset(w: WriteCommand) {
    w.Set? || w.Delete?
  }

  function KeyApply(o: Option<Entry>, w: WriteCommand): Option<Entry> {
    match w
    case Set(_, v, at) => Some(Entry(v, at))
    case Delete(_) => None
    case ExpireAt(_, at) => Retimed(o, Some(at))
    case Persist(_) => Retimed(o, None)
  }

  function KeyFold(o: Option<Entry>, ws: seq<WriteCommand>): Option<Entry> {
    if ws == [] then o else KeyApply(KeyFold(o, ws[..|ws| - 1]), ws[|ws| - 1])
  }

  /** The writes of `ws` that name `k`, in order. */
  function On(k: ByteString, ws: seq<WriteCommand>): (r: seq<WriteCommand>)
    ensures |r| <= |ws|
  {
    if ws == [] then []
    else
      var last := ws[|ws| - 1];
      On(k, ws[..|ws| - 1]) + if last.key == k then [last] else []
  }

  lemma OnNext(k: ByteString, ws: seq<WriteCommand>, w: WriteCommand)
    ensures On(k, ws + [w]) == if w.key == k then On(k, ws) + [w] else On(k, ws)
  {
    assert (ws + [w])[..|ws|] == ws;
  }

  lemma {:induction false} OnConcat(k: ByteString, a: seq<WriteCommand>, b: seq<WriteCommand>)
    ensures On(k, a + b) == On(k, a) + On(k, b)
  {
    if b == [] {
      assert a + b == a;
    } else {
      hide On;
      var front, last := b[..|b| - 1], b[|b| - 1];
      SplitLast(a, b);
      OnConcat(k, a, front);
      OnNext(k, a + front, last);
      OnNext(k, front, last);
      Associative(On(k, a), On(k, front), [last]);
    }
  }

  lemma KeyFoldNext(o: Option<Entry>, ws: seq<WriteCommand>, w: WriteCommand)
    ensures KeyFold(o, ws + [w]) == KeyApply(KeyFold(o, ws), w)
  {
    assert (ws + [w])[..|ws|] == ws;
  }

  lemma {:induction false} KeyFoldConcat(o: Option<Entry>, a: seq<WriteCommand>, b: seq<WriteCommand>)
    ensures KeyFold(o, a + b) == KeyFold(KeyFold(o, a), b)
  {
    if b == [] {
      assert a + b == a;
    } else {
      var front, last := b[..|b| - 1], b[|b| - 1];
      KeyFoldConcat(o, a, front);
      SplitLast(a, b);
      KeyFoldNext(o, a + front, last);
    }
  }

  /** Writes to different keys do not interact. */
  lemma {:induction false} FoldPointwise(m: Store, ws: seq<WriteCommand>, k: ByteString)
    ensures Lookup(Fold(m, ws), k) == KeyFold(Lookup(m, k), On(k, ws))
  {
    if ws != [] {
      var front, last := ws[..|ws| - 1], ws[|ws| - 1];
      FoldPointwise(m, front, k);
      assert ws == front + [last];
      OnNext(k, front, last);
      KeyFoldNext(Lookup(m, k), On(k, front), last);
    }
  }

  // ---- Absorption ----

  /** What a whole run of writes does to one key: nothing, decide it, or move its deadline. */
  datatype Effect = Keep | Put(entry: Option<Entry>) | Retime(at: Option<Millis>)

  function Act(f: Effect, o: Option<Entry>): Option<Entry> {
    match f
    case Keep => o
    case Put(e) => e
    case Retime(at) => Retimed(o, at)
  }

  function Summary(ws: seq<WriteCommand>): Effect {
    if ws == [] then Keep
    else
      var before := Summary(ws[..|ws| - 1]);
      match ws[|ws| - 1]
      case Set(_, v, at) => Put(Some(Entry(v, at)))
      case Delete(_) => Put(None)
      case ExpireAt(_, at) => if before.Put? then Put(Retimed(before.entry, Some(at))) else Retime(Some(at))
      case Persist(_) => if before.Put? then Put(Retimed(before.entry, None)) else Retime(None)
  }

  lemma {:induction false} FoldIsSummary(o: Option<Entry>, ws: seq<WriteCommand>)
    ensures KeyFold(o, ws) == Act(Summary(ws), o)
  {
    if ws != [] {
      FoldIsSummary(o, ws[..|ws| - 1]);
    }
  }

  /**
   * Replaying the stretch `t` a second time, before carrying on with `u`, changes nothing: the log
   * may overlap the snapshot by any amount.
   */
  lemma Absorbs(o: Option<Entry>, a: seq<WriteCommand>, t: seq<WriteCommand>, u: seq<WriteCommand>)
    ensures KeyFold(KeyFold(o, a + t), t + u) == KeyFold(o, a + t + u)
  {
    KeyFoldConcat(o, a, t);
    KeyFoldConcat(KeyFold(o, a + t), t, u);
    KeyFoldConcat(o, a + t, u);
    FoldIsSummary(KeyFold(o, a), t);
    FoldIsSummary(KeyFold(o, a + t), t);
  }

  /** The overlap stated by positions: snapshot after `j` writes, log from write `i` on. */
  lemma AbsorbsAt(o: Option<Entry>, ws: seq<WriteCommand>, i: nat, j: nat)
    requires i <= j <= |ws|
    ensures KeyFold(KeyFold(o, ws[..j]), ws[i..]) == KeyFold(o, ws)
  {
    assert ws[..j] == ws[..i] + ws[i..j] && ws[i..] == ws[i..j] + ws[j..];
    assert ws == ws[..i] + ws[i..j] + ws[j..];
    Absorbs(o, ws[..i], ws[i..j], ws[j..]);
  }

  lemma OnSplit(k: ByteString, ws: seq<WriteCommand>, i: nat)
    requires i <= |ws|
    ensures |On(k, ws[..i])| <= |On(k, ws)|
    ensures On(k, ws[i..]) == On(k, ws)[|On(k, ws[..i])|..]
    ensures On(k, ws[..i]) == On(k, ws)[..|On(k, ws[..i])|]
  {
    assert ws == ws[..i] + ws[i..];
    OnConcat(k, ws[..i], ws[i..]);
  }

  lemma Overlap(k: ByteString, ws: seq<WriteCommand>, i: nat, j: nat)
    requires i <= j <= |ws|
    ensures |On(k, ws[..i])| <= |On(k, ws[..j])| <= |On(k, ws)|
    ensures On(k, ws[i..]) == On(k, ws)[|On(k, ws[..i])|..]
    ensures On(k, ws[..j]) == On(k, ws)[..|On(k, ws[..j])|]
  {
    hide On;
    OnSplit(k, ws, i);
    OnSplit(k, ws, j);
    assert ws[..j][..i] == ws[..i];
    OnSplit(k, ws[..j], i);
  }

  lemma ReplayAbsorbsKey(m: Store, ws: seq<WriteCommand>, i: nat, j: nat, k: ByteString)
    requires i <= j <= |ws|
    ensures Lookup(Fold(Fold(m, ws[..j]), ws[i..]), k) == Lookup(Fold(m, ws), k)
  {
    hide Fold, On, KeyFold, Lookup;
    FoldPointwise(m, ws[..j], k);
    FoldPointwise(Fold(m, ws[..j]), ws[i..], k);
    FoldPointwise(m, ws, k);
    Overlap(k, ws, i, j);
    AbsorbsAt(Lookup(m, k), On(k, ws), |On(k, ws[..i])|, |On(k, ws[..j])|);
  }

  /** Whole-map absorption: replaying any suffix on a map holding any longer prefix gives the full history. */
  lemma ReplayAbsorbs(m: Store, ws: seq<WriteCommand>, i: nat, j: nat)
    requires i <= j <= |ws|
    ensures Fold(Fold(m, ws[..j]), ws[i..]) == Fold(m, ws)
  {
    hide Fold;
    forall k: ByteString
      ensures Lookup(Fold(Fold(m, ws[..j]), ws[i..]), k) == Lookup(Fold(m, ws), k)
    {
      ReplayAbsorbsKey(m, ws, i, j, k);
    }
    SameLookups(Fold(Fold(m, ws[..j]), ws[i..]), Fold(m, ws));
  }

  /** Maps that answer every lookup alike are equal. */
  lemma SameLookups(a: Store, b: Store)
    requires forall k: ByteString :: Lookup(a, k) == Lookup(b, k)
    ensures a == b
  {
    assert forall k :: k in a ==> Lookup(a, k).Some? && Lookup(b, k) == Some(a[k]);
    assert forall k :: k in b ==> Lookup(b, k).Some? && Lookup(a, k) == Some(b[k]);
  }
}
