/** Sorted runs of datagram pieces, as the three reassembly queues keep them, and the
    counting argument all three rely on: pieces that do not overlap and stay below a limit
    fill the whole range exactly when their lengths add up to it. */
module Pieces {

  type Bytes = seq<bv8>

  /** One buffer of a queue: payload position, length of the headers before it, payload. */
  datatype Piece = Piece(off: nat, hdr: nat, data: Bytes) {
    function End(): nat { off + |data| }
  }

  /** Sorted by position and pairwise disjoint. */
  ghost predicate Disjoint(ps: seq<Piece>) {
    forall i, j :: 0 <= i < j < |ps| ==> ps[i].End() <= ps[j].off
  }

  /** Every piece holds something and ends at or before the limit. */
  ghost predicate Within(ps: seq<Piece>, limit: nat) {
    forall i :: 0 <= i < |ps| ==> ps[i].data != [] && ps[i].End() <= limit
  }

  function Total(ps: seq<Piece>): nat {
    if ps == [] then 0 else |ps[0].data| + Total(ps[1..])
  }

  /** The payload obtained by gluing the buffers in list order. */
  function Glue(ps: seq<Piece>): Bytes {
    if ps == [] then [] else ps[0].data + Glue(ps[1..])
  }

  /** The pieces fill [lo, hi) in order and without gaps. */
  ghost predicate Tiles(ps: seq<Piece>, lo: nat, hi: nat) {
    if ps == [] then lo == hi
    else ps[0].off == lo && Tiles(ps[1..], ps[0].End(), hi)
  }

  ghost predicate Holds(x: Piece, p: int) {
    x.off <= p < x.End()
  }

  ghost predicate Covered(ps: seq<Piece>, p: int) {
    exists i :: 0 <= i < |ps| && Holds(ps[i], p)
  }

  ghost predicate CoversAll(ps: seq<Piece>, n: nat) {
    forall p | 0 <= p < n :: Covered(ps, p)
  }

  /** Every piece shows the bytes of the datagram at its position. */
  ghost predicate ShowsPart(x: Piece, datagram: Bytes) {
    x.End() <= |datagram| && x.data == datagram[x.off..x.End()]
  }

  ghost predicate Shows(ps: seq<Piece>, datagram: Bytes) {
    forall i :: 0 <= i < |ps| ==> ShowsPart(ps[i], datagram)
  }

  lemma {:induction false} TotalConcat(a: seq<Piece>, b: seq<Piece>)
    ensures Total(a + b) == Total(a) + Total(b)
  {
    if a == [] {
      assert a + b == b;
    } else {
      assert (a + b)[1..] == a[1..] + b;
      TotalConcat(a[1..], b);
    }
  }

  lemma TotalOne(x: Piece)
    ensures Total([x]) == |x.data|
  {
  }

  /** Disjoint pieces between lo and hi hold at most hi - lo bytes, and exactly that many
      just when they tile. */
  lemma {:induction false} CountingTest(ps: seq<Piece>, lo: nat, hi: nat)
    requires lo <= hi && Disjoint(ps) && Within(ps, hi)
    requires ps != [] ==> lo <= ps[0].off
    ensures Total(ps) <= hi - lo
    ensures Total(ps) == hi - lo <==> Tiles(ps, lo, hi)
  {
    if ps != [] {
      CountingTest(ps[1..], ps[0].End(), hi);
    }
  }

  /** Disjoint pieces tile a range exactly when every position of it is covered. */
  lemma {:induction false} CoverTest(ps: seq<Piece>, lo: nat, hi: nat)
    requires lo <= hi && Disjoint(ps) && Within(ps, hi)
    requires ps != [] ==> lo <= ps[0].off
    ensures Tiles(ps, lo, hi) <==> forall p | lo <= p < hi :: Covered(ps, p)
  {
    if ps == [] {
      if lo < hi { assert !Covered(ps, lo); }
    } else {
      var rest, mid := ps[1..], ps[0].End();
      CoverTest(rest, mid, hi);
      if Tiles(ps, lo, hi) {
        forall p | lo <= p < hi
          ensures Covered(ps, p)
        {
          if p < mid {
            assert Holds(ps[0], p);
          } else {
            assert Covered(rest, p);
            var i :| 0 <= i < |rest| && Holds(rest[i], p);
            assert Holds(ps[i + 1], p);
          }
        }
      }
      if forall p | lo <= p < hi :: Covered(ps, p) {
        assert Covered(ps, lo);
        var k :| 0 <= k < |ps| && Holds(ps[k], lo);
        assert ps[0].off == lo;
        forall p | mid <= p < hi
          ensures Covered(rest, p)
        {
          assert Covered(ps, p);
          var i :| 0 <= i < |ps| && Holds(ps[i], p);
          assert Holds(rest[i - 1], p);
        }
      }
    }
  }

  /** What the queues rest on: the counter equals the length exactly when nothing is missing. */
  lemma CounterMeansComplete(ps: seq<Piece>, n: nat)
    requires Disjoint(ps) && Within(ps, n)
    ensures Total(ps) <= n
    ensures Total(ps) == n <==> Tiles(ps, 0, n)
    ensures Total(ps) == n <==> CoversAll(ps, n)
  {
    CountingTest(ps, 0, n);
    CoverTest(ps, 0, n);
  }

  /** Gluing a tiling of [lo, hi) returns the bytes of the datagram in that range. */
  lemma {:induction false} GlueTiling(ps: seq<Piece>, lo: nat, hi: nat, datagram: Bytes)
    requires Tiles(ps, lo, hi) && Shows(ps, datagram) && lo <= hi <= |datagram|
    ensures Glue(ps) == datagram[lo..hi]
  {
    if ps != [] {
      assert ShowsPart(ps[0], datagram);
      var mid := ps[0].End();
      TilesUpward(ps[1..], mid, hi);
      GlueTiling(ps[1..], mid, hi, datagram);
      assert datagram[lo..hi] == datagram[lo..mid] + datagram[mid..hi];
    }
  }

  lemma {:induction false} TilesUpward(ps: seq<Piece>, lo: nat, hi: nat)
    requires Tiles(ps, lo, hi)
    ensures lo <= hi
  {
    if ps != [] { TilesUpward(ps[1..], ps[0].End(), hi); }
  }

  /** A tiling is disjoint and each piece lies inside the range. */
  lemma {:induction false} TilingIsDisjoint(ps: seq<Piece>, lo: nat, hi: nat)
    requires Tiles(ps, lo, hi)
    ensures Disjoint(ps)
    ensures forall i :: 0 <= i < |ps| ==> lo <= ps[i].off && ps[i].End() <= hi
  {
    if ps != [] {
      TilesUpward(ps[1..], ps[0].End(), hi);
      TilingIsDisjoint(ps[1..], ps[0].End(), hi);
    }
  }

  lemma {:induction false} LastEnds(ps: seq<Piece>, lo: nat, hi: nat)
    requires Tiles(ps, lo, hi) && ps != []
    ensures ps[|ps| - 1].End() == hi
  {
    if |ps| > 1 { LastEnds(ps[1..], ps[0].End(), hi); }
  }

  lemma {:induction false} TilingCovers(ps: seq<Piece>, lo: nat, hi: nat, p: int)
    requires Tiles(ps, lo, hi) && lo <= p < hi
    ensures Covered(ps, p)
  {
    if p < ps[0].End() {
      assert Holds(ps[0], p);
    } else {
      TilingCovers(ps[1..], ps[0].End(), hi, p);
      var i :| 0 <= i < |ps| - 1 && Holds(ps[1..][i], p);
      assert Holds(ps[i + 1], p);
    }
  }

  /** Number of leading pieces that start below a position: where the list search stops. */
  function Slot(ps: seq<Piece>, off: nat): (k: nat)
    ensures k <= |ps|
    ensures forall i :: 0 <= i < k ==> ps[i].off < off
    ensures k < |ps| ==> ps[k].off >= off
  {
    if ps == [] || ps[0].off >= off then 0 else 1 + Slot(ps[1..], off)
  }

  lemma {:induction false} SlotUnique(ps: seq<Piece>, off: nat, k: nat)
    requires k <= |ps|
    requires forall i :: 0 <= i < k ==> ps[i].off < off
    requires k < |ps| ==> ps[k].off >= off
    ensures Slot(ps, off) == k
  {
    if k > 0 {
      SlotUnique(ps[1..], off, k - 1);
    }
  }

  /** Two half-open ranges overlap. */
  ghost predicate Overlap(a: Piece, b: Piece) {
    a.off < b.End() && b.off < a.End()
  }

  /** Two non-empty ranges overlap exactly when some position lies in both. */
  lemma OverlapMeets(a: Piece, b: Piece)
    requires a.data != [] && b.data != []
    ensures Overlap(a, b) <==> exists p :: Holds(a, p) && Holds(b, p)
  {
    if Overlap(a, b) {
      var p := if a.off < b.off then b.off else a.off;
      assert Holds(a, p) && Holds(b, p);
    }
  }

  /** Testing the two list neighbours is the same as testing every queued piece
      (section 4 of RFC 5722 asks for the latter). */
  predicate HitsNeighbour(ps: seq<Piece>, x: Piece) {
    var k := Slot(ps, x.off);
    || (k > 0 && ps[k - 1].End() > x.off)
    || (k < |ps| && ps[k].off < x.End())
  }

  lemma NeighboursSuffice(ps: seq<Piece>, x: Piece, limit: nat)
    requires Disjoint(ps) && Within(ps, limit) && x.data != []
    ensures HitsNeighbour(ps, x) <==> exists i :: 0 <= i < |ps| && Overlap(ps[i], x)
  {
    var k := Slot(ps, x.off);
    if k > 0 && ps[k - 1].End() > x.off {
      assert Overlap(ps[k - 1], x);
    } else if k < |ps| && ps[k].off < x.End() {
      assert Overlap(ps[k], x);
    } else {
      forall i | 0 <= i < |ps|
        ensures !Overlap(ps[i], x)
      {
      }
    }
  }

  /** Sorted insertion used when nothing overlaps. */
  function Insert(ps: seq<Piece>, x: Piece): seq<Piece> {
    var k := Slot(ps, x.off);
    ps[..k] + [x] + ps[k..]
  }

  lemma InsertKeeps(ps: seq<Piece>, x: Piece, limit: nat)
    requires Disjoint(ps) && Within(ps, limit)
    requires x.data != [] && x.End() <= limit && !HitsNeighbour(ps, x)
    ensures Disjoint(Insert(ps, x)) && Within(Insert(ps, x), limit)
    ensures Total(Insert(ps, x)) == Total(ps) + |x.data|
    ensures forall p :: Covered(Insert(ps, x), p) <==> Covered(ps, p) || Holds(x, p)
  {
    var k := Slot(ps, x.off);
    InsertSorted(ps, x, limit, k);
    InsertCovers(ps, x, k);
    InsertTotal(ps, x, k);
  }

  lemma SplitSorted(ps: seq<Piece>, k: nat, limit: nat)
    requires Disjoint(ps) && Within(ps, limit) && k <= |ps|
    ensures Disjoint(ps[..k]) && Within(ps[..k], limit)
    ensures Disjoint(ps[k..]) && Within(ps[k..], limit)
    ensures 0 < k < |ps| ==> ps[k - 1].End() <= ps[k].off
  {
  }

  /** Two sorted runs join when the first ends before the second begins. */
  lemma JoinSorted(a: seq<Piece>, b: seq<Piece>, limit: nat)
    requires Disjoint(a) && Within(a, limit) && Disjoint(b) && Within(b, limit)
    requires a != [] && b != [] ==> a[|a| - 1].End() <= b[0].off
    ensures Disjoint(a + b) && Within(a + b, limit)
  {
    forall i, j | 0 <= i < j < |a + b|
      ensures (a + b)[i].End() <= (a + b)[j].off
    {
      if i < |a| <= j {
        assert a[i].End() <= a[|a| - 1].End();
        assert b[0].off <= b[j - |a|].off;
      }
    }
  }

  lemma InsertSorted(ps: seq<Piece>, x: Piece, limit: nat, k: nat)
    requires Disjoint(ps) && Within(ps, limit) && k <= |ps|
    requires x.data != [] && x.End() <= limit
    requires k > 0 ==> ps[k - 1].End() <= x.off
    requires k < |ps| ==> x.End() <= ps[k].off
    ensures Disjoint(ps[..k] + [x] + ps[k..]) && Within(ps[..k] + [x] + ps[k..], limit)
  {
    SplitSorted(ps, k, limit);
    JoinSorted(ps[..k], [x], limit);
    JoinSorted(ps[..k] + [x], ps[k..], limit);
  }

  lemma InsertTotal(ps: seq<Piece>, x: Piece, k: nat)
    requires k <= |ps|
    ensures Total(ps[..k] + [x] + ps[k..]) == Total(ps) + |x.data|
  {
    var a, b := ps[..k], ps[k..];
    calc {
      Total(a + [x] + b);
      { TotalConcat(a + [x], b); TotalConcat(a, [x]); TotalOne(x); }
      Total(a) + Total(b) + |x.data|;
      { TotalConcat(a, b); assert a + b == ps; }
      Total(ps) + |x.data|;
    }
  }

  lemma InsertCovers(ps: seq<Piece>, x: Piece, k: nat)
    requires k <= |ps|
    ensures forall p :: Covered(ps[..k] + [x] + ps[k..], p) <==> Covered(ps, p) || Holds(x, p)
  {
    var r := ps[..k] + [x] + ps[k..];
    forall p
      ensures Covered(r, p) <==> Covered(ps, p) || Holds(x, p)
    {
      if Covered(r, p) {
        var i :| 0 <= i < |r| && Holds(r[i], p);
        if i != k { assert Holds(ps[if i < k then i else i - 1], p); }
      }
      if Covered(ps, p) {
        var i :| 0 <= i < |ps| && Holds(ps[i], p);
        assert Holds(r[if i < k then i else i + 1], p);
      }
      if Holds(x, p) { assert Holds(r[k], p); }
    }
  }
}
