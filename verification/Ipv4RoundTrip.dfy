/** When an IPv4 queue completes, and with what: for any fragments that agree with one
    datagram, in any order, repeated or overlapping, and in particular for the fragments a
    sender cut. */
module Ipv4RoundTrip {
  import opened Pieces
  import opened InetFrag
  import opened Ipv4Reassembly

  /** f carries part of the datagram and is marked as last exactly when it ends the datagram;
      ihl and ecn are those of the datagram.  Only a fragment that is not the last may be
      empty. */
  ghost predicate Agrees(f: Fragment, datagram: Bytes, ihl: nat, ecn: nat) {
    && ShowsPart(f.Body(), datagram)
    && (f.mf <==> f.End() < |datagram|)
    && (f.Body().data == [] ==> f.mf)
    && f.hdr == ihl && f.ecn == ecn
  }

  ghost predicate AllAgree(fs: seq<Fragment>, datagram: Bytes, ihl: nat, ecn: nat) {
    forall i :: 0 <= i < |fs| ==> Agrees(fs[i], datagram, ihl, ecn)
  }

  ghost predicate Got(fs: seq<Fragment>, p: int) {
    exists i :: 0 <= i < |fs| && Holds(fs[i].Body(), p)
  }

  ghost predicate LastSeen(fs: seq<Fragment>) {
    exists i :: 0 <= i < |fs| && !fs[i].mf
  }

  /** The fragments cover the datagram. */
  ghost predicate Full(fs: seq<Fragment>, datagram: Bytes) {
    forall p | 0 <= p < |datagram| :: Got(fs, p)
  }

  /** The queue after the fragments arrived in this order and nothing failed. */
  function Gather(ecn: nat, fs: seq<Fragment>, bad: set<nat> -> bool): Queue {
    if fs == [] then NewQueue(ecn)
    else Receive(Gather(ecn, fs[..|fs| - 1], bad), fs[|fs| - 1], CALM, bad).0
  }

  /** What the queue answered to the last of them. */
  function Answer(ecn: nat, fs: seq<Fragment>, bad: set<nat> -> bool): Verdict
    requires fs != []
  {
    Receive(Gather(ecn, fs[..|fs| - 1], bad), fs[|fs| - 1], CALM, bad).1
  }

  ghost predicate ShowsOnly(ps: seq<Piece>, datagram: Bytes) {
    forall p, v :: ShowsByte(ps, p, v) ==> p < |datagram| && datagram[p] == v
  }

  /** What a live queue knows after the fragments fs. */
  ghost predicate Knows(q: Queue, fs: seq<Fragment>, datagram: Bytes, ihl: nat, ecn: nat) {
    && Sound(q) && !q.complete
    && q.len <= |datagram|
    && (q.lastIn ==> q.len == |datagram|)
    && (q.lastIn <==> LastSeen(fs))
    && q.ecn == {ecn}
    && SameHeader(q.pieces, ihl)
    && (forall p :: Covered(q.pieces, p) <==> Got(fs, p))
    && ShowsOnly(q.pieces, datagram)
  }

  // ------------------------------------------------------------------ one arrival

  lemma AppendGot(fs: seq<Fragment>, f: Fragment)
    ensures forall p :: Got(fs + [f], p) <==> Got(fs, p) || Holds(f.Body(), p)
    ensures LastSeen(fs + [f]) <==> LastSeen(fs) || !f.mf
  {
    var gs := fs + [f];
    assert gs[|fs|] == f;
    forall p
      ensures Got(gs, p) <==> Got(fs, p) || Holds(f.Body(), p)
    {
      if Got(fs, p) {
        var i :| 0 <= i < |fs| && Holds(fs[i].Body(), p);
        assert gs[i] == fs[i];
      }
    }
    if LastSeen(fs) {
      var i :| 0 <= i < |fs| && !fs[i].mf;
      assert gs[i] == fs[i];
    }
  }

  lemma FullNeedsLast(fs: seq<Fragment>, datagram: Bytes, ihl: nat, ecn: nat)
    requires AllAgree(fs, datagram, ihl, ecn) && datagram != []
    requires Got(fs, |datagram| - 1)
    ensures LastSeen(fs)
  {
    var i :| 0 <= i < |fs| && Holds(fs[i].Body(), |datagram| - 1);
    assert Agrees(fs[i], datagram, ihl, ecn);
  }

  /** An agreeing fragment is never refused for its length. */
  lemma NoteAccepts(q: Queue, fs: seq<Fragment>, f: Fragment, datagram: Bytes, ihl: nat, ecn: nat)
    requires Knows(q, fs, datagram, ihl, ecn) && Agrees(f, datagram, ihl, ecn)
    ensures var n := NoteEnd(q, f);
      && n.Noted?
      && n.queue == q.(lastIn := q.lastIn || !f.mf, len := if f.End() > q.len then f.End() else q.len)
      && Sound(n.queue)
  {
  }

  lemma CoveredMerged(ps: seq<Piece>, x: Piece, limit: nat)
    requires Disjoint(ps) && Within(ps, limit) && x.data != []
    requires AfterPrevious(ps, x).data != []
    ensures forall p :: Covered(Merged(ps, x), p) <==> Covered(ps, p) || Holds(x, p)
  {
    forall p
      ensures Covered(Merged(ps, x), p) <==> Covered(ps, p) || Holds(x, p)
    {
      CoveredMergedAt(ps, x, limit, p);
    }
  }

  lemma CoveredMergedAt(ps: seq<Piece>, x: Piece, limit: nat, p: int)
    requires Disjoint(ps) && Within(ps, limit) && x.data != []
    requires AfterPrevious(ps, x).data != []
    ensures Covered(Merged(ps, x), p) <==> Covered(ps, p) || Holds(x, p)
  {
    CoveredShows(Merged(ps, x), p);
    CoveredShows(ps, p);
    if Holds(x, p) && !HeldFromBefore(ps, x.off, p) {
      MergedShows(ps, x, limit, p, x.data[p - x.off]);
    } else {
      if Covered(ps, p) {
        var v :| ShowsByte(ps, p, v);
        MergedShows(ps, x, limit, p, v);
      }
      if Covered(Merged(ps, x), p) {
        var v :| ShowsByte(Merged(ps, x), p, v);
        MergedShows(ps, x, limit, p, v);
      }
    }
  }

  lemma CoveredShows(ps: seq<Piece>, p: int)
    ensures Covered(ps, p) <==> exists v :: ShowsByte(ps, p, v)
    ensures forall off :: HeldFromBefore(ps, off, p) ==> Covered(ps, p)
  {
    if Covered(ps, p) {
      var i :| 0 <= i < |ps| && Holds(ps[i], p);
      assert ShowsByte(ps, p, ps[i].data[p - ps[i].off]);
    }
  }

  lemma MergedShowsOnly(ps: seq<Piece>, x: Piece, limit: nat, datagram: Bytes)
    requires Disjoint(ps) && Within(ps, limit) && x.data != []
    requires AfterPrevious(ps, x).data != []
    requires ShowsOnly(ps, datagram) && ShowsPart(x, datagram)
    ensures ShowsOnly(Merged(ps, x), datagram)
  {
    forall p, v | ShowsByte(Merged(ps, x), p, v)
      ensures p < |datagram| && datagram[p] == v
    {
      MergedShowsOnlyAt(ps, x, limit, datagram, p, v);
    }
  }

  lemma MergedShowsOnlyAt(ps: seq<Piece>, x: Piece, limit: nat, datagram: Bytes, p: int, v: bv8)
    requires Disjoint(ps) && Within(ps, limit) && x.data != []
    requires AfterPrevious(ps, x).data != []
    requires ShowsOnly(ps, datagram) && ShowsPart(x, datagram)
    requires ShowsByte(Merged(ps, x), p, v)
    ensures 0 <= p < |datagram| && datagram[p] == v
  {
    MergedShows(ps, x, limit, p, v);
    if Holds(x, p) && !HeldFromBefore(ps, x.off, p) {
      assert x.data[p - x.off] == datagram[p];
    } else {
      assert ShowsByte(ps, p, v);
    }
  }

  ghost predicate SameHeader(ps: seq<Piece>, ihl: nat) {
    forall i :: 0 <= i < |ps| ==> ps[i].hdr == ihl
  }

  lemma {:induction false} EatHeaders(rest: seq<Piece>, end: nat, ihl: nat)
    requires SameHeader(rest, ihl)
    ensures SameHeader(Eat(rest, end, true).0, ihl)
  {
    if rest != [] && rest[0].off < end {
      assert SameHeader(rest[1..], ihl);
      EatHeaders(rest[1..], end, ihl);
      assert rest[0].hdr == ihl;
    }
  }

  lemma MergedHeaders(ps: seq<Piece>, x: Piece, ihl: nat)
    requires SameHeader(ps, ihl) && x.hdr == ihl
    ensures SameHeader(Merged(ps, x), ihl)
  {
    var k := Slot(ps, x.off);
    assert SameHeader(ps[..k], ihl) && SameHeader(ps[k..], ihl);
    EatHeaders(ps[k..], AfterPrevious(ps, x).End(), ihl);
    assert AfterPrevious(ps, x).hdr == ihl;
  }

  /** A fragment inside the piece before it is dropped, and nothing was missing from it. */
  lemma SwallowedAddsNothing(ps: seq<Piece>, x: Piece, limit: nat)
    requires Disjoint(ps) && Within(ps, limit) && x.data != []
    requires AfterPrevious(ps, x).data == []
    ensures forall p :: Holds(x, p) ==> Covered(ps, p)
  {
    var k := Slot(ps, x.off);
    forall p | Holds(x, p)
      ensures Covered(ps, p)
    {
      assert Holds(ps[k - 1], p);
    }
  }

  lemma PartsShown(ps: seq<Piece>, limit: nat, datagram: Bytes)
    requires Within(ps, limit) && limit <= |datagram| && ShowsOnly(ps, datagram)
    ensures Shows(ps, datagram)
  {
    forall i | 0 <= i < |ps|
      ensures ShowsPart(ps[i], datagram)
    {
      forall p | ps[i].off <= p < ps[i].End()
        ensures datagram[p] == ps[i].data[p - ps[i].off]
      {
        assert Holds(ps[i], p);
        assert ShowsByte(ps, p, ps[i].data[p - ps[i].off]);
      }
    }
  }

  /** The queue after the fragment went in, before the completion test. */
  ghost function With(q: Queue, f: Fragment): Queue
    requires NoteEnd(q, f).Noted? && NoteEnd(q, f).queue.pieces == q.pieces
  {
    var k := Slot(q.pieces, f.Off());
    var y := AfterPrevious(q.pieces, f.Body());
    Grown(NoteEnd(q, f).queue, k, y, Eat(q.pieces[k..], y.End(), true).0, f.ecn)
  }

  lemma WithSound(q: Queue, fs: seq<Fragment>, f: Fragment, datagram: Bytes, ihl: nat, ecn: nat)
    requires Knows(q, fs, datagram, ihl, ecn) && Agrees(f, datagram, ihl, ecn) && f.Body().data != []
    requires AfterPrevious(q.pieces, f.Body()).data != []
    ensures NoteEnd(q, f).Noted? && NoteEnd(q, f).queue.pieces == q.pieces
    ensures var g := With(q, f);
      && Sound(g) && g.pieces == Merged(q.pieces, f.Body())
      && g.len == (if f.End() > q.len then f.End() else q.len)
      && g.lastIn == (q.lastIn || !f.mf) && !g.complete && g.ecn == {ecn}
  {
    NoteAccepts(q, fs, f, datagram, ihl, ecn);
    AfterPreviousFits(q.pieces, f.Body(), q.len);
    GrownSound(NoteEnd(q, f).queue, Slot(q.pieces, f.Off()), AfterPrevious(q.pieces, f.Body()), ecn);
  }

  lemma GrownKnows(q: Queue, fs: seq<Fragment>, f: Fragment, datagram: Bytes, ihl: nat, ecn: nat)
    requires Knows(q, fs, datagram, ihl, ecn) && Agrees(f, datagram, ihl, ecn) && f.Body().data != []
    requires AfterPrevious(q.pieces, f.Body()).data != []
    ensures NoteEnd(q, f).Noted? && NoteEnd(q, f).queue.pieces == q.pieces
    ensures Knows(With(q, f), fs + [f], datagram, ihl, ecn)
  {
    WithSound(q, fs, f, datagram, ihl, ecn);
    MergedKnows(q, f.Body(), datagram, ihl);
    AppendGot(fs, f);
  }

  lemma MergedKnows(q: Queue, x: Piece, datagram: Bytes, ihl: nat)
    requires Disjoint(q.pieces) && Within(q.pieces, q.len) && x.data != []
    requires AfterPrevious(q.pieces, x).data != []
    requires ShowsOnly(q.pieces, datagram) && ShowsPart(x, datagram)
    requires SameHeader(q.pieces, ihl) && x.hdr == ihl
    ensures var ps := Merged(q.pieces, x);
      && (forall p :: Covered(ps, p) <==> Covered(q.pieces, p) || Holds(x, p))
      && ShowsOnly(ps, datagram) && SameHeader(ps, ihl)
  {
    CoveredMerged(q.pieces, x, q.len);
    MergedShowsOnly(q.pieces, x, q.len, datagram);
    MergedHeaders(q.pieces, x, ihl);
  }

  lemma TestIsExact(g: Queue, fs: seq<Fragment>, datagram: Bytes, ihl: nat, ecn: nat)
    requires Knows(g, fs, datagram, ihl, ecn) && AllAgree(fs, datagram, ihl, ecn) && datagram != []
    ensures (g.firstIn && g.lastIn && g.meat == g.len) <==> Full(fs, datagram)
  {
    CounterMeansComplete(g.pieces, g.len);
    if Full(fs, datagram) {
      assert Got(fs, |datagram| - 1);
      FullNeedsLast(fs, datagram, ihl, ecn);
      assert Covered(g.pieces, 0);
      var i :| 0 <= i < |g.pieces| && Holds(g.pieces[i], 0);
      assert g.pieces[0].off == 0;
    }
  }

  lemma CompleteDelivers(g: Queue, swapHead: bool, datagram: Bytes, ihl: nat, ecn: nat, bad: set<nat> -> bool)
    requires Sound(g) && !g.complete && g.meat == g.len == |datagram| && ShowsOnly(g.pieces, datagram)
    requires g.ecn == {ecn} && !bad({ecn}) && ihl + |datagram| <= MAX_IP_PACKET
    requires SameHeader(g.pieces, ihl)
    ensures Reassemble(g, swapHead, CALM, bad).1 == Delivered(datagram)
  {
    CounterMeansComplete(g.pieces, g.len);
    PartsShown(g.pieces, g.len, datagram);
    GlueTiling(g.pieces, 0, g.len, datagram);
    assert datagram[0..|datagram|] == datagram;
  }

  /** One arrival at a live queue that still misses something. */
  lemma Arrival(q: Queue, fs: seq<Fragment>, f: Fragment, datagram: Bytes, ihl: nat, ecn: nat, bad: set<nat> -> bool)
    requires Knows(q, fs, datagram, ihl, ecn) && AllAgree(fs + [f], datagram, ihl, ecn)
    requires !Full(fs, datagram)
    requires datagram != [] && ihl + |datagram| <= MAX_IP_PACKET && !bad({ecn})
    ensures var (r, a) := Receive(q, f, CALM, bad);
      if Full(fs + [f], datagram) then a == Delivered(datagram) && r.complete
      else !a.Delivered? && Knows(r, fs + [f], datagram, ihl, ecn)
  {
    assert Agrees((fs + [f])[|fs|], datagram, ihl, ecn);
    if f.Body().data == [] {
      EmptyAddsNothing(q, fs, f, datagram, ihl, ecn);
    } else if AfterPrevious(q.pieces, f.Body()).data == [] {
      Swallowed(q, fs, f, datagram, ihl, ecn);
      AfterPreviousFits(q.pieces, f.Body(), q.len);
    } else {
      GrownKnows(q, fs, f, datagram, ihl, ecn);
      ReceiveGrows(q, f, bad);
      TestIsExact(With(q, f), fs + [f], datagram, ihl, ecn);
      if Full(fs + [f], datagram) {
        CompleteDelivers(With(q, f), Slot(q.pieces, f.Off()) > 0, datagram, ihl, ecn, bad);
      }
    }
  }

  lemma ReceiveGrows(q: Queue, f: Fragment, bad: set<nat> -> bool)
    requires !q.complete && NoteEnd(q, f).Noted? && NoteEnd(q, f).queue.pieces == q.pieces
    requires f.Body().data != [] && AfterPrevious(q.pieces, f.Body()).data != []
    ensures Receive(q, f, CALM, bad) == Finish(With(q, f), Slot(q.pieces, f.Off()) > 0, CALM, bad)
  {
    EatSucceeds(q.pieces[Slot(q.pieces, f.Off())..], AfterPrevious(q.pieces, f.Body()).End());
  }

  lemma EmptyAddsNothing(q: Queue, fs: seq<Fragment>, f: Fragment, datagram: Bytes, ihl: nat, ecn: nat)
    requires Knows(q, fs, datagram, ihl, ecn) && Agrees(f, datagram, ihl, ecn) && f.Body().data == []
    requires !Full(fs, datagram)
    ensures NoteEnd(q, f).Noted? && Knows(NoteEnd(q, f).queue, fs + [f], datagram, ihl, ecn)
    ensures !Full(fs + [f], datagram)
  {
    NoteAccepts(q, fs, f, datagram, ihl, ecn);
    AppendGot(fs, f);
    var p :| 0 <= p < |datagram| && !Got(fs, p);
    assert !Holds(f.Body(), p);
  }

  lemma Swallowed(q: Queue, fs: seq<Fragment>, f: Fragment, datagram: Bytes, ihl: nat, ecn: nat)
    requires Knows(q, fs, datagram, ihl, ecn) && AllAgree(fs + [f], datagram, ihl, ecn)
    requires datagram != [] && !Full(fs, datagram) && f.Body().data != []
    requires AfterPrevious(q.pieces, f.Body()).data == []
    ensures NoteEnd(q, f) == Noted(q)
    ensures Knows(q, fs + [f], datagram, ihl, ecn) && !Full(fs + [f], datagram)
  {
    assert Agrees((fs + [f])[|fs|], datagram, ihl, ecn);
    assert AllAgree(fs, datagram, ihl, ecn) by {
      forall i | 0 <= i < |fs|
        ensures Agrees(fs[i], datagram, ihl, ecn)
      {
        assert (fs + [f])[i] == fs[i];
      }
    }
    SwallowedAddsNothing(q.pieces, f.Body(), q.len);
    AppendGot(fs, f);
    var top := f.End() - 1;
    assert Holds(f.Body(), top);
    assert f.End() <= q.len by {
      var i :| 0 <= i < |q.pieces| && Holds(q.pieces[i], top);
    }
    if !f.mf {
      assert Got(fs, |datagram| - 1);
      FullNeedsLast(fs, datagram, ihl, ecn);
    }
    assert exists p :: 0 <= p < |datagram| && !Got(fs, p);
  }

  // ------------------------------------------------------------------ whole runs

  lemma PrefixAgrees(fs: seq<Fragment>, datagram: Bytes, ihl: nat, ecn: nat, n: nat)
    requires AllAgree(fs, datagram, ihl, ecn) && n <= |fs|
    ensures AllAgree(fs[..n], datagram, ihl, ecn)
  {
  }

  lemma {:induction false} RunKnows(fs: seq<Fragment>, datagram: Bytes, ihl: nat, ecn: nat, bad: set<nat> -> bool)
    requires AllAgree(fs, datagram, ihl, ecn)
    requires datagram != [] && ihl + |datagram| <= MAX_IP_PACKET && !bad({ecn})
    ensures var q := Gather(ecn, fs, bad);
      if Full(fs, datagram) then q.complete else Knows(q, fs, datagram, ihl, ecn)
  {
    if fs == [] {
      assert !Got(fs, 0);
      assert forall p :: !Got(fs, p);
    } else {
      var before, f := fs[..|fs| - 1], fs[|fs| - 1];
      assert fs == before + [f];
      PrefixAgrees(fs, datagram, ihl, ecn, |fs| - 1);
      RunKnows(before, datagram, ihl, ecn, bad);
      AppendGot(before, f);
      if !Full(before, datagram) {
        Arrival(Gather(ecn, before, bad), before, f, datagram, ihl, ecn, bad);
      }
    }
  }

  /** Main result.  For fragments that agree with one datagram, arriving in any order, with
      repetitions and with arbitrary overlaps between different ways of cutting it, the queue
      delivers exactly that datagram, exactly when the last missing byte arrives. */
  lemma DeliversWhenFull(fs: seq<Fragment>, datagram: Bytes, ihl: nat, ecn: nat, bad: set<nat> -> bool)
    requires fs != [] && AllAgree(fs, datagram, ihl, ecn)
    requires datagram != [] && ihl + |datagram| <= MAX_IP_PACKET && !bad({ecn})
    ensures var before := fs[..|fs| - 1];
      if Full(fs, datagram) && !Full(before, datagram) then Answer(ecn, fs, bad) == Delivered(datagram)
      else !Answer(ecn, fs, bad).Delivered?
  {
    var before, f := fs[..|fs| - 1], fs[|fs| - 1];
    assert fs == before + [f];
    PrefixAgrees(fs, datagram, ihl, ecn, |fs| - 1);
    RunKnows(before, datagram, ihl, ecn, bad);
    AppendGot(before, f);
    if !Full(before, datagram) {
      Arrival(Gather(ecn, before, bad), before, f, datagram, ihl, ecn, bad);
    }
  }

  // ------------------------------------------------------- fragments cut by a sender

  function Bodies(fs: seq<Fragment>): (ps: seq<Piece>)
    ensures |ps| == |fs| && forall i :: 0 <= i < |fs| ==> ps[i] == fs[i].Body()
  {
    if fs == [] then [] else [fs[0].Body()] + Bodies(fs[1..])
  }

  /** sent is a way of cutting the datagram: the parts tile it, all but the last are marked
      and hold whole 8-byte units, and the last is not empty. */
  ghost predicate Cut(sent: seq<Fragment>, datagram: Bytes, ihl: nat, ecn: nat) {
    && sent != [] && sent[|sent| - 1].data != []
    && Tiles(Bodies(sent), 0, |datagram|)
    && forall i :: 0 <= i < |sent| ==> CutPart(sent[i], i == |sent| - 1, datagram, ihl, ecn)
  }

  ghost predicate CutPart(f: Fragment, last: bool, datagram: Bytes, ihl: nat, ecn: nat) {
    && f.Body().data == f.data && ShowsPart(f.Body(), datagram)
    && f.mf == !last && f.hdr == ihl && f.ecn == ecn
  }

  lemma CutAgrees(sent: seq<Fragment>, datagram: Bytes, ihl: nat, ecn: nat)
    requires Cut(sent, datagram, ihl, ecn)
    ensures AllAgree(sent, datagram, ihl, ecn)
    ensures Disjoint(Bodies(sent)) && datagram != []
  {
    var ps := Bodies(sent);
    TilingIsDisjoint(ps, 0, |datagram|);
    LastEnds(ps, 0, |datagram|);
    forall i | 0 <= i < |sent|
      ensures Agrees(sent[i], datagram, ihl, ecn)
    {
      assert CutPart(sent[i], i == |sent| - 1, datagram, ihl, ecn);
      if i < |sent| - 1 {
        BeforeAfter(ps, i, |sent| - 1);
        assert CutPart(sent[|sent| - 1], true, datagram, ihl, ecn);
      }
    }
  }

  /** Covering the datagram and having every fragment are the same. */
  lemma FullMeansNoneMissing(fs: seq<Fragment>, sent: seq<Fragment>, datagram: Bytes, ihl: nat, ecn: nat)
    requires Cut(sent, datagram, ihl, ecn) && Among(fs, sent)
    ensures AllAgree(fs, datagram, ihl, ecn)
    ensures Full(fs, datagram) <==> NoneMissing(fs, sent)
  {
    CutAgrees(sent, datagram, ihl, ecn);
    if NoneMissing(fs, sent) {
      forall p | 0 <= p < |datagram|
        ensures Got(fs, p)
      {
        ArrivedPart(fs, sent, datagram, ihl, ecn, p);
      }
    }
    if Full(fs, datagram) {
      forall j | 0 <= j < |sent| && sent[j].data != []
        ensures sent[j] in fs
      {
        MissingPart(fs, sent, datagram, ihl, ecn, j);
      }
    }
  }

  lemma ArrivedPart(fs: seq<Fragment>, sent: seq<Fragment>, datagram: Bytes, ihl: nat, ecn: nat, p: int)
    requires Cut(sent, datagram, ihl, ecn) && NoneMissing(fs, sent) && 0 <= p < |datagram|
    ensures Got(fs, p)
  {
    var ps := Bodies(sent);
    TilingCovers(ps, 0, |datagram|, p);
    var j :| 0 <= j < |ps| && Holds(ps[j], p);
    assert CutPart(sent[j], j == |sent| - 1, datagram, ihl, ecn);
    assert sent[j] in fs;
    var i :| 0 <= i < |fs| && fs[i] == sent[j];
  }

  lemma {:induction false} MissingPart(fs: seq<Fragment>, sent: seq<Fragment>, datagram: Bytes, ihl: nat, ecn: nat, j: nat)
    requires Cut(sent, datagram, ihl, ecn) && Among(fs, sent) && Full(fs, datagram)
    requires Disjoint(Bodies(sent)) && j < |sent| && sent[j].data != []
    ensures sent[j] in fs
  {
    var ps := Bodies(sent);
    assert CutPart(sent[j], j == |sent| - 1, datagram, ihl, ecn);
    var p := ps[j].off;
    assert Holds(ps[j], p);
    assert Got(fs, p);
    var i :| 0 <= i < |fs| && Holds(fs[i].Body(), p);
    var m :| 0 <= m < |sent| && sent[m] == fs[i];
    OnlyOneHolds(ps, j, m, p);
  }

  lemma OnlyOneHolds(ps: seq<Piece>, i: nat, j: nat, p: int)
    requires Disjoint(ps) && i < |ps| && j < |ps| && Holds(ps[i], p) && Holds(ps[j], p)
    ensures i == j
  {
  }

  /** Round trip: feed the fragments of one datagram in any order and with any repetitions.
      The datagram comes out exactly once, at the arrival of the last missing fragment. */
  lemma RoundTrip(sent: seq<Fragment>, fs: seq<Fragment>, datagram: Bytes, ihl: nat, ecn: nat, bad: set<nat> -> bool)
    requires Cut(sent, datagram, ihl, ecn) && Among(fs, sent) && fs != []
    requires ihl + |datagram| <= MAX_IP_PACKET && !bad({ecn})
    ensures var before := fs[..|fs| - 1];
      if NoneMissing(fs, sent) && !NoneMissing(before, sent) then Answer(ecn, fs, bad) == Delivered(datagram)
      else !Answer(ecn, fs, bad).Delivered?
  {
    CutAgrees(sent, datagram, ihl, ecn);
    FullMeansNoneMissing(fs, sent, datagram, ihl, ecn);
    FullMeansNoneMissing(fs[..|fs| - 1], sent, datagram, ihl, ecn);
    DeliversWhenFull(fs, datagram, ihl, ecn, bad);
  }

  /** Whatever the order and the repetitions, once every fragment has arrived the datagram has
      been delivered at some arrival. */
  ghost predicate AlwaysArrives(sent: seq<Fragment>, datagram: Bytes, ecn: nat, bad: set<nat> -> bool) {
    forall fs: seq<Fragment> :: Among(fs, sent) && Among(sent, fs) ==> DeliveredDuring(fs, datagram, ecn, bad)
  }

  ghost predicate DeliveredDuring(fs: seq<Fragment>, datagram: Bytes, ecn: nat, bad: set<nat> -> bool) {
    exists n :: 0 < n <= |fs| && Answer(ecn, fs[..n], bad) == Delivered(datagram)
  }

  lemma {:induction false} CutArrivesSoon(sent: seq<Fragment>, fs: seq<Fragment>, datagram: Bytes, ihl: nat, ecn: nat,
                                         bad: set<nat> -> bool, n: nat)
    requires Cut(sent, datagram, ihl, ecn) && Among(fs, sent) && n <= |fs| && NoneMissing(fs[..n], sent)
    requires ihl + |datagram| <= MAX_IP_PACKET && !bad({ecn})
    ensures DeliveredDuring(fs, datagram, ecn, bad)
  {
    var gs := fs[..n];
    if n > 0 {
      var before := gs[..n - 1];
      assert before == fs[..n - 1];
      if NoneMissing(before, sent) {
        CutArrivesSoon(sent, fs, datagram, ihl, ecn, bad, n - 1);
      } else {
        RoundTrip(sent, gs, datagram, ihl, ecn, bad);
      }
    }
  }

  lemma CutArrives(sent: seq<Fragment>, datagram: Bytes, ihl: nat, ecn: nat, bad: set<nat> -> bool)
    requires Cut(sent, datagram, ihl, ecn)
    requires ihl + |datagram| <= MAX_IP_PACKET && !bad({ecn})
    ensures AlwaysArrives(sent, datagram, ecn, bad)
  {
    forall fs: seq<Fragment> | Among(fs, sent) && Among(sent, fs)
      ensures DeliveredDuring(fs, datagram, ecn, bad)
    {
      assert fs[..|fs|] == fs;
      CutArrivesSoon(sent, fs, datagram, ihl, ecn, bad, |fs|);
    }
  }

  // ---------------------------------------------------------- when the last one is empty

  lemma {:induction false} NeverLastIn(fs: seq<Fragment>, ecn: nat, bad: set<nat> -> bool)
    requires forall i :: 0 <= i < |fs| ==> fs[i].mf
    ensures !Gather(ecn, fs, bad).lastIn
  {
    if fs != [] { NeverLastIn(fs[..|fs| - 1], ecn, bad); }
  }

  lemma NoAnswerWithoutLast(q: Queue, f: Fragment, bad: set<nat> -> bool)
    requires !q.lastIn && (f.mf || f.data == [])
    ensures !Receive(q, f, CALM, bad).1.Delivered?
  {
  }

  lemma SilentSoFar(sent: seq<Fragment>, ecn: nat, bad: set<nat> -> bool, n: nat)
    requires 0 < n <= |sent| && forall i :: 0 <= i < n - 1 ==> sent[i].mf
    requires sent[n - 1].mf || sent[n - 1].data == []
    ensures !Answer(ecn, sent[..n], bad).Delivered?
  {
    var before := sent[..n - 1];
    assert sent[..n][..n - 1] == before;
    NeverLastIn(before, ecn, bad);
    NoAnswerWithoutLast(Gather(ecn, before, bad), sent[n - 1], bad);
  }

  /** If the only unmarked fragment is empty and arrives last, nothing is ever delivered: the
      queue learns the length but a dropped fragment does not trigger the completion test. */
  lemma EmptyLastIsLost(sent: seq<Fragment>, datagram: Bytes, ecn: nat, bad: set<nat> -> bool)
    requires sent != [] && sent[|sent| - 1].data == []
    requires forall i :: 0 <= i < |sent| - 1 ==> sent[i].mf
    ensures !DeliveredDuring(sent, datagram, ecn, bad)
  {
    if DeliveredDuring(sent, datagram, ecn, bad) {
      var n :| 0 < n <= |sent| && Answer(ecn, sent[..n], bad) == Delivered(datagram);
      SilentSoFar(sent, ecn, bad, n);
    }
  }
}
