/**
 * The pixel store shared by both tree renderers: a flat array of packed
 * 32-bit XRGB pixels addressed as `x + y * width`, the two colours the
 * renderers paint with, a bounds-checked view of a sequence of writes, and
 * the facts about multiplication, quotient and remainder the proofs share.
 */
module Pixels {

  newtype uint8 = x: int | 0 <= x < 0x100
  newtype uint16 = x: int | 0 <= x < 0x1_0000
  newtype uint32 = x: int | 0 <= x < 0x1_0000_0000

  /** Opaque brown, the colour of every trunk pixel. */
  const TrunkColor: uint32 := 0xFFA52A2A
  /** Opaque green, the colour of every branch and arc pixel. */
  const BranchColor: uint32 := 0xFF00FF00

  /** One store `data[index] = color` issued by a renderer. */
  datatype Write = Write(index: int, color: uint32)

  /**
   * What a drawing pass reports: every write landed in the store, or the
   * first write whose index lay outside it (that write was refused).
   */
  datatype Outcome = Drawn | OutOfBounds(index: int)

  predicate InStore(k: int, n: int) {
    0 <= k < n
  }

  /** The first fault of a pass that reported `a` and then went on to report `b`. */
  function Then(a: Outcome, b: Outcome): (r: Outcome)
    ensures r.Drawn? <==> a.Drawn? && b.Drawn?
    ensures a.OutOfBounds? ==> r == a
  {
    if a.Drawn? then b else a
  }

  /**
   * The store `s` after the writes `ws` in order, where a write outside the
   * store is refused and leaves it as it was.
   */
  function Paint(s: seq<uint32>, ws: seq<Write>): (r: seq<uint32>)
    ensures |r| == |s|
    decreases |ws|
  {
    if ws == [] then s
    else if InStore(ws[0].index, |s|) then Paint(s[ws[0].index := ws[0].color], ws[1..])
    else Paint(s, ws[1..])
  }

  /** Painting changes a cell only to a colour some write stores at that cell. */
  lemma {:induction false} PaintOnlyHits(s: seq<uint32>, ws: seq<Write>)
    ensures forall k :: 0 <= k < |s| && Paint(s, ws)[k] != s[k] ==> Hits(ws, k, Paint(s, ws)[k])
    decreases |ws|
  {
    if ws != [] {
      var t := if InStore(ws[0].index, |s|) then s[ws[0].index := ws[0].color] else s;
      PaintOnlyHits(t, ws[1..]);
      forall k | 0 <= k < |s| && Paint(s, ws)[k] != s[k]
        ensures Hits(ws, k, Paint(s, ws)[k])
      {
        var c := Paint(s, ws)[k];
        if Paint(t, ws[1..])[k] != t[k] {
          var j :| 0 <= j < |ws[1..]| && ws[1..][j] == Write(k, c);
          assert ws[j + 1] == Write(k, c);
        } else {
          assert ws[0] == Write(k, c);
        }
      }
    }
  }

  /** Some write of `ws` stores `c` at `k`. */
  ghost predicate Hits(ws: seq<Write>, k: int, c: uint32) {
    exists j :: 0 <= j < |ws| && ws[j] == Write(k, c)
  }

  /** The first write of `ws` that falls outside a store of `n` pixels, if any. */
  function FirstFault(ws: seq<Write>, n: int): Outcome
    decreases |ws|
  {
    if ws == [] then Drawn
    else if !InStore(ws[0].index, n) then OutOfBounds(ws[0].index)
    else FirstFault(ws[1..], n)
  }

  /**
   * A pass reports `Drawn` exactly when every write lands in the store;
   * otherwise it reports an index outside the store that some write uses.
   */
  lemma {:induction false} FirstFaultMeaning(ws: seq<Write>, n: int)
    ensures FirstFault(ws, n).Drawn? <==> forall j :: 0 <= j < |ws| ==> InStore(ws[j].index, n)
    ensures FirstFault(ws, n).OutOfBounds? ==>
      !InStore(FirstFault(ws, n).index, n) && exists j :: 0 <= j < |ws| && ws[j].index == FirstFault(ws, n).index
    decreases |ws|
  {
    if ws != [] && InStore(ws[0].index, n) {
      FirstFaultMeaning(ws[1..], n);
      assert forall j :: 1 <= j < |ws| ==> ws[j] == ws[1..][j - 1];
      if FirstFault(ws, n).OutOfBounds? {
        var j :| 0 <= j < |ws[1..]| && ws[1..][j].index == FirstFault(ws, n).index;
        assert ws[j + 1].index == FirstFault(ws, n).index;
      }
    }
  }

  /** A pass may be split at any point: painting is the same as painting the two parts in turn. */
  lemma {:induction false} PaintAppend(s: seq<uint32>, a: seq<Write>, b: seq<Write>)
    ensures Paint(s, a + b) == Paint(Paint(s, a), b)
    ensures FirstFault(a + b, |s|) == Then(FirstFault(a, |s|), FirstFault(b, |s|))
    decreases |a|
  {
    if a == [] {
      assert a + b == b;
    } else {
      assert (a + b)[0] == a[0];
      assert (a + b)[1..] == a[1..] + b;
      var t := if InStore(a[0].index, |s|) then s[a[0].index := a[0].color] else s;
      PaintAppend(t, a[1..], b);
    }
  }

  /**
   * The bounds-checked store: `data[k] := c` when `k` lies in the store,
   * otherwise the write is refused and `ok` is false.
   */
  method Put(data: array<uint32>, k: int, c: uint32) returns (ok: bool)
    modifies data
    ensures ok == InStore(k, data.Length)
    ensures data[..] == Paint(old(data[..]), [Write(k, c)])
    ensures forall j :: 0 <= j < data.Length ==> data[j] == if ok && j == k then c else old(data[j])
  {
    ok := InStore(k, data.Length);
    if ok {
      data[k] := c;
    }
  }

  /** Multiplying by a non-negative factor keeps order. */
  lemma MulMono(w: int, a: int, b: int)
    requires 0 <= w && a <= b
    ensures w * a <= w * b
  {
    assert w * b - w * a == w * (b - a);
  }

  /** Quotient and remainder are the unique `q`, `m` with `x == d * q + m` and `0 <= m < d`. */
  lemma DivModBy(x: nat, d: nat, q: nat, m: nat)
    requires 0 <= m < d && x == d * q + m
    ensures x / d == q && x % d == m
  {
    if x / d > q {
      MulMono(d, q + 1, x / d);
    } else if x / d < q {
      MulMono(d, x / d + 1, q);
    }
  }

  /** Reducing modulo `a * b` and then modulo `a` is reducing modulo `a`. */
  lemma ModMod(x: nat, a: nat, b: nat)
    requires a > 0 && b > 0
    ensures x % (a * b) % a == x % a
  {
    DivModBy(x, a * b, x / (a * b), x % (a * b));
    var m := x % (a * b);
    DivModBy(m, a, m / a, m % a);
    assert x == a * (b * (x / (a * b)) + m / a) + m % a;
    DivModBy(x, a, b * (x / (a * b)) + m / a, m % a);
  }
}
