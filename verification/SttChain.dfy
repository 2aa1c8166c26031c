/** The chain of buffers an STT packet is put together from (reassemble in
    linux/compat/stt.c): in-order shortcut with optional copying, sorted insertion, and
    overlapping fragments dropped.  Whatever the order of arrival, the packet comes out. */
module SttChain {
  import opened Wrappers
  import opened Pieces
  import opened SkbList

  /** One STT segment.  copied is what the attempt to copy it into the chain head would add to
      the accounted memory, or None if that attempt would fail. */
  datatype Arrival = Arrival(off: nat, tot: nat, data: Bytes, truesize: nat, ce: bool, copied: Option<nat>) {
    function Part(): Piece { Piece(off, 0, data) }
  }

  /** ce is the mark noted for the packet, own the mark in the header of the first buffer. */
  datatype Chain = Chain(pieces: seq<Piece>, tot: nat, rcvd: int, mem: int, ce: bool, own: bool)

  /** A packet is handed over with its bytes and the mark in its header. */
  datatype Verdict = Freed | Kept | Handed(packet: Bytes, ce: bool)

  /** The first fragment of a packet; its mark is not noted. */
  function Start(a: Arrival): Chain {
    Chain([a.Part()], a.tot, |a.data|, a.truesize, false, a.ce)
  }

  /** __copy_skb may fold a segment into the head only while the head is alone and starts the
      packet. */
  predicate Folds(ps: seq<Piece>, a: Arrival) {
    |ps| == 1 && ps[0].off == 0 && a.copied.Some?
  }

  /** The segment follows the last one directly. */
  predicate InOrder(ps: seq<Piece>, a: Arrival) {
    ps != [] && ps[|ps| - 1].End() == a.off
  }

  /** The buffers once the segment is taken over. */
  function Attach(ps: seq<Piece>, a: Arrival): seq<Piece>
    requires InOrder(ps, a) || !HitsNeighbour(ps, a.Part())
  {
    if !InOrder(ps, a) then Insert(ps, a.Part())
    else if Folds(ps, a) then [Piece(0, ps[0].hdr, ps[0].data + a.data)]
    else ps + [a.Part()]
  }

  /** The memory the segment adds. */
  function Delta(ps: seq<Piece>, a: Arrival): nat {
    if InOrder(ps, a) && Folds(ps, a) then a.copied.value else a.truesize
  }

  predicate Drops(ps: seq<Piece>, a: Arrival) {
    !InOrder(ps, a) && HitsNeighbour(ps, a.Part())
  }

  /** The segment becomes the first buffer. */
  predicate Leads(ps: seq<Piece>, a: Arrival) {
    !InOrder(ps, a) && Slot(ps, a.off) == 0
  }

  function Extend(c: Chain, a: Arrival): (r: Chain)
    requires !Drops(c.pieces, a)
  {
    Chain(Attach(c.pieces, a), c.tot, c.rcvd + |a.data|, c.mem + Delta(c.pieces, a), c.ce || a.ce,
          if Leads(c.pieces, a) then a.ce else c.own)
  }

  /** One segment at the slot of its packet; None is a free slot. */
  function Accept(o: Option<Chain>, a: Arrival): (Option<Chain>, Verdict) {
    if o.None? then (Some(Start(a)), Kept)
    else if Drops(o.value.pieces, a) then (o, Freed)
    else
      var c := Extend(o.value, a);
      if c.tot == c.rcvd then (None, Handed(Glue(c.pieces), c.ce || c.own))
      else (Some(c), Kept)
  }

  ghost predicate NonEmpty(ps: seq<Piece>) {
    forall i :: 0 <= i < |ps| ==> ps[i].data != []
  }

  /** Sorted, disjoint, non-empty buffers whose bytes are counted; not yet complete. */
  ghost predicate Sound(c: Chain) {
    && c.pieces != [] && Disjoint(c.pieces) && NonEmpty(c.pieces)
    && c.rcvd == Total(c.pieces) && c.rcvd != c.tot
  }

  // -------------------------------------------------------------- effect of one segment

  ghost function Reach(ps: seq<Piece>): (n: nat)
    requires Disjoint(ps)
    ensures NonEmpty(ps) ==> Within(ps, n)
    ensures ps != [] ==> n == ps[|ps| - 1].End()
  {
    if ps == [] then 0 else ps[|ps| - 1].End()
  }

  /** The in-order shortcut never meets an overlap, and without copying it is the sorted
      insertion. */
  lemma ShortcutIsInsert(ps: seq<Piece>, a: Arrival)
    requires Disjoint(ps) && NonEmpty(ps) && InOrder(ps, a)
    ensures !HitsNeighbour(ps, a.Part())
    ensures Insert(ps, a.Part()) == ps + [a.Part()]
  {
    TailSuffices(ps, a.off);
    assert ps[|ps|..] == [] && ps[..|ps|] == ps;
  }

  /** Folding two adjacent buffers into one changes no position and no byte. */
  lemma FoldKeeps(x: Piece, a: Arrival)
    requires x.End() == a.off
    ensures var r := [Piece(x.off, x.hdr, x.data + a.data)];
      && Glue(r) == Glue([x, a.Part()]) && Total(r) == Total([x, a.Part()])
      && forall p :: Covered(r, p) <==> Covered([x, a.Part()], p)
  {
    var r, s := [Piece(x.off, x.hdr, x.data + a.data)], [x, a.Part()];
    assert s[1..] == [a.Part()];
    assert r[1..] == [] && s[1..][1..] == [];
    assert Glue(s[1..]) == a.data + Glue(s[1..][1..]);
    assert Glue(s) == x.data + (a.data + []);
    forall p
      ensures Covered(r, p) <==> Covered(s, p)
    {
      assert Holds(r[0], p) <==> Holds(s[0], p) || Holds(s[1], p);
    }
  }

  /** A segment is dropped exactly when it overlaps a queued one. */
  lemma DropsOverlapping(ps: seq<Piece>, a: Arrival)
    requires ps != [] && Disjoint(ps) && NonEmpty(ps) && a.data != []
    ensures Drops(ps, a) <==> exists i :: 0 <= i < |ps| && Overlap(ps[i], a.Part())
    ensures !Drops(ps, a) ==> !HitsNeighbour(ps, a.Part())
  {
    NeighboursSuffice(ps, a.Part(), Reach(ps));
    if InOrder(ps, a) { ShortcutIsInsert(ps, a); }
  }

  lemma FoldIsInsert(ps: seq<Piece>, a: Arrival)
    requires Disjoint(ps) && NonEmpty(ps) && InOrder(ps, a) && Folds(ps, a) && a.data != []
    ensures var r, s := Attach(ps, a), Insert(ps, a.Part());
      && r != [] && Disjoint(r) && NonEmpty(r) && Glue(r) == Glue(s) && Total(r) == Total(s)
      && forall p :: Covered(r, p) <==> Covered(s, p)
  {
    ShortcutIsInsert(ps, a);
    FoldKeeps(ps[0], a);
    assert ps + [a.Part()] == [ps[0], a.Part()];
  }

  lemma InsertEffect(ps: seq<Piece>, a: Arrival)
    requires ps != [] && Disjoint(ps) && NonEmpty(ps) && a.data != [] && !HitsNeighbour(ps, a.Part())
    ensures var s := Insert(ps, a.Part());
      && s != [] && Disjoint(s) && NonEmpty(s) && Total(s) == Total(ps) + |a.data|
      && forall p :: Covered(s, p) <==> Covered(ps, p) || Holds(a.Part(), p)
  {
    var limit := if Reach(ps) > a.Part().End() then Reach(ps) else a.Part().End();
    assert Within(ps, limit);
    InsertKeeps(ps, a.Part(), limit);
  }

  /** A segment is dropped exactly when it overlaps a queued one; a segment taken over has the
      effect of sorted insertion, byte for byte, whichever way it was attached. */
  lemma AttachIsInsert(ps: seq<Piece>, a: Arrival)
    requires ps != [] && Disjoint(ps) && NonEmpty(ps) && a.data != []
    ensures Drops(ps, a) <==> exists i :: 0 <= i < |ps| && Overlap(ps[i], a.Part())
    ensures !Drops(ps, a) ==>
      var r, s := Attach(ps, a), Insert(ps, a.Part());
      && r != [] && Disjoint(r) && NonEmpty(r)
      && Glue(r) == Glue(s) && Total(r) == Total(ps) + |a.data|
      && (forall p :: Covered(r, p) <==> Covered(ps, p) || Holds(a.Part(), p))
      && (a.copied.None? ==> r == s)
  {
    DropsOverlapping(ps, a);
    if !Drops(ps, a) {
      InsertEffect(ps, a);
      if InOrder(ps, a) {
        if Folds(ps, a) { FoldIsInsert(ps, a); } else { ShortcutIsInsert(ps, a); }
      }
    }
  }

  /** What a segment does to any chain: it is dropped exactly when it overlaps; otherwise it completes
      the packet exactly when its bytes are as many as are missing of the length the first segment
      told, and is kept if not. */
  lemma AcceptExactly(c: Chain, a: Arrival)
    requires Sound(c) && a.data != []
    ensures var (o, v) := Accept(Some(c), a);
      if exists i :: 0 <= i < |c.pieces| && Overlap(c.pieces[i], a.Part()) then o == Some(c) && v == Freed
      else if Total(c.pieces) + |a.data| == c.tot then
        o == None && v.Handed? && v.packet == Glue(Insert(c.pieces, a.Part()))
      else v == Kept && o.Some? && o.value.tot == c.tot
  {
    AttachIsInsert(c.pieces, a);
  }

  /** Every step keeps the chain sound, and completes it exactly when the counter says so. */
  lemma AcceptKeepsSound(o: Option<Chain>, a: Arrival)
    requires o.Some? ==> Sound(o.value)
    requires a.data != [] && a.tot != |a.data|
    ensures var r := Accept(o, a).0; r.Some? ==> Sound(r.value)
  {
    if o.Some? {
      AttachIsInsert(o.value.pieces, a);
    }
  }

  // ------------------------------------------------------------------ order independence

  /** The segment carries a proper, non-empty part of the packet. */
  ghost predicate Carries(a: Arrival, packet: Bytes) {
    a.data != [] && a.tot == |packet| && |a.data| < |packet| && ShowsPart(a.Part(), packet)
  }

  ghost predicate AllCarry(fs: seq<Arrival>, packet: Bytes) {
    forall i :: 0 <= i < |fs| ==> Carries(fs[i], packet)
  }

  function Parts(fs: seq<Arrival>): (ps: seq<Piece>)
    ensures |ps| == |fs| && forall i :: 0 <= i < |fs| ==> ps[i] == fs[i].Part()
  {
    if fs == [] then [] else [fs[0].Part()] + Parts(fs[1..])
  }

  /** The slot after a whole run of segments of one packet. */
  function Follow(fs: seq<Arrival>): Option<Chain> {
    if fs == [] then None else Accept(Follow(fs[..|fs| - 1]), fs[|fs| - 1]).0
  }

  function Last(fs: seq<Arrival>): Verdict
    requires fs != []
  {
    Accept(Follow(fs[..|fs| - 1]), fs[|fs| - 1]).1
  }

  /** Any two segments are the same part of the packet or do not overlap. */
  ghost predicate FromOneCut(fs: seq<Arrival>) {
    forall i, j :: 0 <= i < |fs| && 0 <= j < |fs| && Overlap(fs[i].Part(), fs[j].Part()) ==> fs[i].Part() == fs[j].Part()
  }

  /** What the slot holds while something is still missing. */
  ghost predicate Knows(o: Option<Chain>, fs: seq<Arrival>, packet: Bytes) {
    && (o.None? <==> fs == [])
    && (o.Some? ==>
      && Sound(o.value) && o.value.tot == |packet| && Within(o.value.pieces, |packet|)
      && Shows(o.value.pieces, packet)
      && forall p :: Covered(o.value.pieces, p) <==> Covered(Parts(fs), p))
  }

  lemma CoveredAppend(ps: seq<Piece>, x: Piece, p: int)
    ensures Covered(ps + [x], p) <==> Covered(ps, p) || Holds(x, p)
  {
    var r := ps + [x];
    assert r[|ps|] == x;
    if Covered(ps, p) {
      var i :| 0 <= i < |ps| && Holds(ps[i], p);
      assert r[i] == ps[i];
    }
  }

  lemma PartsAppend(fs: seq<Arrival>, a: Arrival)
    ensures Parts(fs + [a]) == Parts(fs) + [a.Part()]
    ensures forall p :: Covered(Parts(fs + [a]), p) <==> Covered(Parts(fs), p) || Holds(a.Part(), p)
  {
    assert Parts(fs + [a]) == Parts(fs) + [a.Part()];
    forall p
      ensures Covered(Parts(fs + [a]), p) <==> Covered(Parts(fs), p) || Holds(a.Part(), p)
    {
      CoveredAppend(Parts(fs), a.Part(), p);
    }
  }

  lemma InsertShows(ps: seq<Piece>, x: Piece, packet: Bytes)
    requires Shows(ps, packet) && ShowsPart(x, packet)
    ensures Shows(Insert(ps, x), packet)
  {
  }

  lemma FoldShows(x: Piece, a: Arrival, packet: Bytes)
    requires ShowsPart(x, packet) && Carries(a, packet) && x.End() == a.off
    ensures ShowsPart(Piece(x.off, 0, x.data + a.data), packet)
  {
    assert packet[x.off..a.off] + packet[a.off..a.Part().End()] == packet[x.off..a.Part().End()];
  }

  lemma ShowsWithin(ps: seq<Piece>, packet: Bytes)
    requires Shows(ps, packet) && NonEmpty(ps)
    ensures Within(ps, |packet|)
  {
    forall i | 0 <= i < |ps|
      ensures ps[i].End() <= |packet|
    {
      assert ShowsPart(ps[i], packet);
    }
  }

  /** Attaching keeps showing the packet. */
  lemma AttachShows(ps: seq<Piece>, a: Arrival, packet: Bytes)
    requires ps != [] && Disjoint(ps) && NonEmpty(ps) && !Drops(ps, a)
    requires Shows(ps, packet) && Carries(a, packet)
    ensures Shows(Attach(ps, a), packet)
  {
    if !InOrder(ps, a) {
      InsertShows(ps, a.Part(), packet);
    } else if Folds(ps, a) {
      assert ShowsPart(ps[0], packet);
      FoldShows(ps[0], a, packet);
    } else {
      ShortcutIsInsert(ps, a);
      InsertShows(ps, a.Part(), packet);
    }
  }

  lemma MeetsSame(fs: seq<Arrival>, a: Arrival, p: int)
    requires FromOneCut(fs + [a]) && Covered(Parts(fs), p) && Holds(a.Part(), p)
    ensures a.Part() in Parts(fs)
  {
    var gs := fs + [a];
    var j :| 0 <= j < |fs| && Holds(Parts(fs)[j], p);
    assert gs[j] == fs[j] && gs[|fs|] == a && Overlap(gs[j].Part(), gs[|fs|].Part());
  }

  /** A repeated segment is recognised, and only a repeated one. */
  lemma DropsRepeated(c: Chain, fs: seq<Arrival>, a: Arrival, packet: Bytes)
    requires Knows(Some(c), fs, packet) && AllCarry(fs + [a], packet) && FromOneCut(fs + [a])
    ensures Drops(c.pieces, a) <==> a.Part() in Parts(fs)
  {
    var x := a.Part();
    assert Carries((fs + [a])[|fs|], packet);
    DropsOverlapping(c.pieces, a);
    if Drops(c.pieces, a) {
      var i :| 0 <= i < |c.pieces| && Overlap(c.pieces[i], x);
      OverlapMeets(c.pieces[i], x);
      var p :| Holds(c.pieces[i], p) && Holds(x, p);
      assert Covered(c.pieces, p);
      MeetsSame(fs, a, p);
    }
    if x in Parts(fs) {
      var j :| 0 <= j < |fs| && Parts(fs)[j] == x;
      assert Holds(Parts(fs)[j], a.off);
      assert Covered(c.pieces, a.off);
      var i :| 0 <= i < |c.pieces| && Holds(c.pieces[i], a.off);
      assert Overlap(c.pieces[i], x);
    }
  }

  /** One segment of an incomplete packet. */
  lemma Arrives(o: Option<Chain>, fs: seq<Arrival>, a: Arrival, packet: Bytes)
    requires Knows(o, fs, packet) && AllCarry(fs + [a], packet) && FromOneCut(fs + [a])
    requires !CoversAll(Parts(fs), |packet|)
    ensures var (r, v) := Accept(o, a);
      if a.Part() in Parts(fs) then r == o && v == Freed && Knows(r, fs + [a], packet)
      else if CoversAll(Parts(fs + [a]), |packet|) then r == None && v.Handed? && v.packet == packet
      else v == Kept && Knows(r, fs + [a], packet)
    ensures a.Part() in Parts(fs) ==> !CoversAll(Parts(fs + [a]), |packet|)
  {
    assert Carries((fs + [a])[|fs|], packet);
    PartsAppend(fs, a);
    if o.None? {
      StartKnows(a, packet);
    } else {
      DropsRepeated(o.value, fs, a, packet);
      if a.Part() in Parts(fs) {
        RepeatAddsNothing(Parts(fs), a.Part());
      } else {
        ExtendKnows(o.value, fs, a, packet);
      }
    }
  }

  lemma RepeatAddsNothing(ps: seq<Piece>, x: Piece)
    requires x in ps
    ensures forall p :: Holds(x, p) ==> Covered(ps, p)
  {
    var j :| 0 <= j < |ps| && ps[j] == x;
    forall p | Holds(x, p)
      ensures Covered(ps, p)
    {
      assert Holds(ps[j], p);
    }
  }

  lemma StartKnows(a: Arrival, packet: Bytes)
    requires Carries(a, packet)
    ensures Knows(Some(Start(a)), [a], packet)
    ensures !CoversAll([a.Part()], |packet|) && Parts([a]) == [a.Part()]
  {
    TotalOne(a.Part());
    assert Parts([a]) == [a.Part()];
    CounterMeansComplete([a.Part()], |packet|);
  }

  lemma ExtendKnows(c: Chain, fs: seq<Arrival>, a: Arrival, packet: Bytes)
    requires Knows(Some(c), fs, packet) && Carries(a, packet) && !Drops(c.pieces, a)
    ensures var r := Extend(c, a);
      if CoversAll(Parts(fs + [a]), |packet|) then r.rcvd == r.tot && Glue(r.pieces) == packet
      else r.rcvd != r.tot && Knows(Some(r), fs + [a], packet)
  {
    var r := Extend(c, a);
    PartsAppend(fs, a);
    AttachIsInsert(c.pieces, a);
    AttachShows(c.pieces, a, packet);
    ShowsWithin(r.pieces, packet);
    CounterMeansComplete(r.pieces, |packet|);
    if r.rcvd == r.tot {
      GlueTiling(r.pieces, 0, |packet|, packet);
      assert packet[0..|packet|] == packet;
    }
  }

  lemma PrefixOfRun(fs: seq<Arrival>, packet: Bytes)
    requires fs != [] && AllCarry(fs, packet) && FromOneCut(fs)
    ensures var before := fs[..|fs| - 1];
      fs == before + [fs[|fs| - 1]] && AllCarry(before, packet) && FromOneCut(before)
  {
  }

  lemma {:induction false} RunKnows(fs: seq<Arrival>, packet: Bytes)
    requires AllCarry(fs, packet) && FromOneCut(fs) && packet != []
    requires fs != [] ==> !CoversAll(Parts(fs[..|fs| - 1]), |packet|)
    ensures if CoversAll(Parts(fs), |packet|) then Follow(fs) == None else Knows(Follow(fs), fs, packet)
  {
    if fs == [] {
      assert !Covered(Parts(fs), 0);
    } else {
      var before, a := fs[..|fs| - 1], fs[|fs| - 1];
      PrefixOfRun(fs, packet);
      if before != [] { EarlierMisses(before, packet); }
      RunKnows(before, packet);
      Arrives(Follow(before), before, a, packet);
    }
  }

  /** Taking the last segment away covers no more. */
  lemma {:induction false} EarlierMisses(fs: seq<Arrival>, packet: Bytes)
    requires fs != [] && !CoversAll(Parts(fs), |packet|)
    ensures !CoversAll(Parts(fs[..|fs| - 1]), |packet|)
  {
    var before, a := fs[..|fs| - 1], fs[|fs| - 1];
    assert fs == before + [a];
    PartsAppend(before, a);
  }

  /** Order independence.  Segments of one packet, in any order and with any repetitions, with
      copying succeeding or failing at will: as long as something is missing, a repeated segment
      is dropped without effect and a new one is kept; the packet is handed over, byte for byte,
      exactly when the last missing segment arrives. */
  lemma HandedWhenFull(fs: seq<Arrival>, packet: Bytes)
    requires fs != [] && AllCarry(fs, packet) && FromOneCut(fs)
    requires !CoversAll(Parts(fs[..|fs| - 1]), |packet|)
    ensures var before, a := fs[..|fs| - 1], fs[|fs| - 1];
      if a.Part() in Parts(before) then Last(fs) == Freed && Follow(fs) == Follow(before)
      else if CoversAll(Parts(fs), |packet|) then Last(fs).Handed? && Last(fs).packet == packet && Follow(fs) == None
      else Last(fs) == Kept
  {
    var before, a := fs[..|fs| - 1], fs[|fs| - 1];
    PrefixOfRun(fs, packet);
    assert Carries(fs[|fs| - 1], packet);
    if before != [] { EarlierMisses(before, packet); }
    RunKnows(before, packet);
    Arrives(Follow(before), before, a, packet);
  }

  // ------------------------------------------------------------ segments of a given cut

  /** fs are segments of the packet cut at the borders of sent. */
  ghost predicate SegmentsOf(fs: seq<Arrival>, sent: seq<Piece>, packet: Bytes) {
    && AllCarry(fs, packet)
    && forall i :: 0 <= i < |fs| ==> fs[i].Part() in sent
  }

  ghost predicate HasAll(fs: seq<Arrival>, sent: seq<Piece>) {
    forall j :: 0 <= j < |sent| ==> sent[j] in Parts(fs)
  }

  lemma SegmentsAgree(fs: seq<Arrival>, sent: seq<Piece>, packet: Bytes)
    requires Tiles(sent, 0, |packet|) && SegmentsOf(fs, sent, packet)
    ensures FromOneCut(fs)
  {
    TilingIsDisjoint(sent, 0, |packet|);
    forall i, j | 0 <= i < |fs| && 0 <= j < |fs| && Overlap(fs[i].Part(), fs[j].Part())
      ensures fs[i].Part() == fs[j].Part()
    {
      var m :| 0 <= m < |sent| && sent[m] == fs[i].Part();
      var n :| 0 <= n < |sent| && sent[n] == fs[j].Part();
    }
  }

  /** Every position is covered exactly when every segment is there. */
  lemma CoveredMeansAll(fs: seq<Arrival>, sent: seq<Piece>, packet: Bytes)
    requires Tiles(sent, 0, |packet|) && NonEmpty(sent) && SegmentsOf(fs, sent, packet)
    ensures CoversAll(Parts(fs), |packet|) <==> HasAll(fs, sent)
  {
    TilingIsDisjoint(sent, 0, |packet|);
    if HasAll(fs, sent) {
      forall p | 0 <= p < |packet|
        ensures Covered(Parts(fs), p)
      {
        TilingCovers(sent, 0, |packet|, p);
        var j :| 0 <= j < |sent| && Holds(sent[j], p);
        RepeatAddsNothing(Parts(fs), sent[j]);
      }
    }
    if CoversAll(Parts(fs), |packet|) {
      forall j | 0 <= j < |sent|
        ensures sent[j] in Parts(fs)
      {
        HasCovering(fs, sent, packet, j);
      }
    }
  }

  lemma HasCovering(fs: seq<Arrival>, sent: seq<Piece>, packet: Bytes, j: nat)
    requires Disjoint(sent) && NonEmpty(sent) && SegmentsOf(fs, sent, packet) && j < |sent|
    requires Covered(Parts(fs), sent[j].off)
    ensures sent[j] in Parts(fs)
  {
    var p := sent[j].off;
    var i :| 0 <= i < |fs| && Holds(Parts(fs)[i], p);
    assert fs[i].Part() in sent;
    var m :| 0 <= m < |sent| && sent[m] == fs[i].Part();
    assert Holds(sent[j], p) && Holds(sent[m], p);
  }

  /** The theorem for a packet cut in any fixed way. */
  lemma PacketRoundTrip(fs: seq<Arrival>, sent: seq<Piece>, packet: Bytes)
    requires Tiles(sent, 0, |packet|) && NonEmpty(sent) && SegmentsOf(fs, sent, packet)
    requires fs != [] && !HasAll(fs[..|fs| - 1], sent)
    ensures var before, a := fs[..|fs| - 1], fs[|fs| - 1];
      if a.Part() in Parts(before) then Last(fs) == Freed && Follow(fs) == Follow(before)
      else if HasAll(fs, sent) then Last(fs).Handed? && Last(fs).packet == packet && Follow(fs) == None
      else Last(fs) == Kept
  {
    var before := fs[..|fs| - 1];
    SegmentsAgree(fs, sent, packet);
    CoveredMeansAll(fs, sent, packet);
    CoveredMeansAll(before, sent, packet);
    HandedWhenFull(fs, packet);
  }

  // ------------------------------------------------------------ the memory of a packet

  /** All that has been taken over is in one buffer, from the start of the packet up to n. */
  ghost predicate OneBuffer(fs: seq<Arrival>, n: nat) {
    var c := Follow(fs);
    c.Some? && |c.value.pieces| == 1 && c.value.pieces[0].off == 0 && c.value.pieces[0].End() == n
  }

  /** The sizes of the segments, each kind counted once: that of the buffer, or what copying it
      behind the only buffer there is adds. */
  ghost function Sizes(fs: seq<Arrival>): nat {
    if fs == [] then 0
    else
      var before, a := fs[..|fs| - 1], fs[|fs| - 1];
      Sizes(before) +
      if a.Part() in Parts(before) then 0
      else if a.copied.Some? && OneBuffer(before, a.off) then a.copied.value
      else a.truesize
  }

  /** While something is missing, the memory accounted to the packet is the size of its segments. */
  lemma {:induction false} MemIsSizes(fs: seq<Arrival>, packet: Bytes)
    requires fs != [] && AllCarry(fs, packet) && FromOneCut(fs) && !CoversAll(Parts(fs), |packet|)
    ensures Follow(fs).Some? && Follow(fs).value.mem == Sizes(fs)
    decreases fs
  {
    var before, a := fs[..|fs| - 1], fs[|fs| - 1];
    PrefixOfRun(fs, packet);
    EarlierMisses(fs, packet);
    assert Carries(fs[|fs| - 1], packet);
    if before == [] {
      assert Sizes(before) == 0 && !OneBuffer(before, a.off);
    } else {
      MemIsSizes(before, packet);
      EarlierMisses(before, packet);
      RunKnows(before, packet);
      NextSize(Follow(before).value, before, a, packet);
    }
  }

  lemma {:induction false} NextSize(c: Chain, fs: seq<Arrival>, a: Arrival, packet: Bytes)
    requires Knows(Some(c), fs, packet) && AllCarry(fs + [a], packet) && FromOneCut(fs + [a])
    requires !CoversAll(Parts(fs), |packet|) && !CoversAll(Parts(fs + [a]), |packet|)
    ensures Accept(Some(c), a).0.Some?
    ensures Accept(Some(c), a).0.value.mem - c.mem
      == if a.Part() in Parts(fs) then 0
         else if a.copied.Some? && |c.pieces| == 1 && c.pieces[0].off == 0 && c.pieces[0].End() == a.off then a.copied.value
         else a.truesize
  {
    DropsRepeated(c, fs, a, packet);
    Arrives(Some(c), fs, a, packet);
  }

  // ------------------------------------------------------------ the congestion mark

  /** Segment i was taken over. */
  ghost predicate Taken(fs: seq<Arrival>, i: nat) {
    i < |fs| && Last(fs[..i + 1]) != Freed
  }

  /** A marked segment other than the first to arrive was taken over. */
  ghost predicate Noted(fs: seq<Arrival>) {
    exists i: nat :: Taken(fs, i) && i > 0 && fs[i].ce
  }

  /** The segment at a position was marked. */
  ghost predicate MarkedAt(fs: seq<Arrival>, off: nat) {
    exists i: nat :: Taken(fs, i) && fs[i].off == off && fs[i].ce
  }

  lemma {:induction false} AppendTaken(fs: seq<Arrival>, a: Arrival, i: nat)
    ensures Taken(fs + [a], i) <==> Taken(fs, i) || (i == |fs| && Last(fs + [a]) != Freed)
  {
    var gs := fs + [a];
    if i < |fs| {
      assert gs[..i + 1] == fs[..i + 1];
    } else if i == |fs| {
      assert gs[..i + 1] == gs;
    }
  }

  lemma {:induction false} AppendNoted(fs: seq<Arrival>, a: Arrival)
    ensures Noted(fs + [a]) <==> Noted(fs) || (fs != [] && Last(fs + [a]) != Freed && a.ce)
  {
    var gs := fs + [a];
    AppendTaken(fs, a, |fs|);
    if Noted(fs) {
      var i: nat :| Taken(fs, i) && i > 0 && fs[i].ce;
      AppendTaken(fs, a, i);
      assert gs[i] == fs[i];
    }
    if Noted(gs) {
      var i: nat :| Taken(gs, i) && i > 0 && gs[i].ce;
      AppendTaken(fs, a, i);
    }
  }

  lemma {:induction false} AppendMarked(fs: seq<Arrival>, a: Arrival, off: nat)
    ensures MarkedAt(fs + [a], off) <==> MarkedAt(fs, off) || (Last(fs + [a]) != Freed && a.off == off && a.ce)
  {
    var gs := fs + [a];
    AppendTaken(fs, a, |fs|);
    if MarkedAt(fs, off) {
      var i: nat :| Taken(fs, i) && fs[i].off == off && fs[i].ce;
      AppendTaken(fs, a, i);
      assert gs[i] == fs[i];
    }
    if MarkedAt(gs, off) {
      var i: nat :| Taken(gs, i) && gs[i].off == off && gs[i].ce;
      AppendTaken(fs, a, i);
    }
  }

  /** What a chain has noted, and what its first buffer carries. */
  ghost predicate KnowsMarks(c: Chain, fs: seq<Arrival>) {
    && c.pieces != []
    && (c.ce <==> Noted(fs))
    && (c.own <==> MarkedAt(fs, c.pieces[0].off))
  }

  /** No segment so far starts where a new one does. */
  lemma {:induction false} NewPlace(c: Chain, fs: seq<Arrival>, a: Arrival, packet: Bytes)
    requires Knows(Some(c), fs, packet) && AllCarry(fs + [a], packet) && !Drops(c.pieces, a)
    ensures !MarkedAt(fs, a.off) && c.pieces[0].off != a.off
  {
    var gs := fs + [a];
    assert Carries(gs[|fs|], packet);
    AttachIsInsert(c.pieces, a);
    assert !Covered(c.pieces, a.off) by {
      if i :| 0 <= i < |c.pieces| && Holds(c.pieces[i], a.off) {
        assert Overlap(c.pieces[i], a.Part());
      }
    }
    forall i: nat | i < |fs| ensures fs[i].off != a.off {
      assert gs[i] == fs[i] && Carries(gs[i], packet);
      SegmentCovers(c, fs, packet, i);
    }
    assert c.pieces[0].data != [] && Holds(c.pieces[0], c.pieces[0].off);
  }

  lemma {:induction false} SegmentCovers(c: Chain, fs: seq<Arrival>, packet: Bytes, i: nat)
    requires Knows(Some(c), fs, packet) && i < |fs| && fs[i].data != []
    ensures Covered(c.pieces, fs[i].off)
  {
    assert Holds(Parts(fs)[i], fs[i].off);
  }

  lemma {:induction false} ExtendMarks(c: Chain, fs: seq<Arrival>, a: Arrival, packet: Bytes)
    requires Follow(fs) == Some(c) && Knows(Some(c), fs, packet) && AllCarry(fs + [a], packet) && KnowsMarks(c, fs)
    requires !Drops(c.pieces, a)
    ensures KnowsMarks(Extend(c, a), fs + [a])
  {
    var gs, r := fs + [a], Extend(c, a);
    assert gs[..|fs|] == fs && Last(gs) != Freed;
    NewPlace(c, fs, a, packet);
    AttachFirst(c.pieces, a);
    AppendNoted(fs, a);
    AppendMarked(fs, a, r.pieces[0].off);
  }

  lemma AttachFirst(ps: seq<Piece>, a: Arrival)
    requires ps != [] && !Drops(ps, a)
    ensures Attach(ps, a) != [] && Attach(ps, a)[0].off == if Leads(ps, a) then a.off else ps[0].off
  {
    if InOrder(ps, a) && Folds(ps, a) { assert ps[0].off == 0; }
  }

  lemma FirstMarks(a: Arrival)
    ensures KnowsMarks(Start(a), [a])
  {
    assert [] + [a] == [a];
    AppendNoted([], a);
    AppendMarked([], a, a.off);
  }

  lemma {:induction false} RunMarks(fs: seq<Arrival>, packet: Bytes)
    requires fs != [] && AllCarry(fs, packet) && FromOneCut(fs) && packet != [] && !CoversAll(Parts(fs), |packet|)
    ensures Follow(fs).Some? && KnowsMarks(Follow(fs).value, fs) && Knows(Follow(fs), fs, packet)
    decreases |fs|
  {
    var before, a := fs[..|fs| - 1], fs[|fs| - 1];
    PrefixOfRun(fs, packet);
    EarlierMisses(fs, packet);
    RunKnows(fs, packet);
    if before == [] {
      FirstMarks(a);
      assert fs == [a];
    } else {
      RunMarks(before, packet);
      OneMoreMark(Follow(before).value, before, a, packet);
    }
  }

  lemma {:induction false} OneMoreMark(c: Chain, fs: seq<Arrival>, a: Arrival, packet: Bytes)
    requires Follow(fs) == Some(c) && Knows(Some(c), fs, packet) && AllCarry(fs + [a], packet) && KnowsMarks(c, fs)
    requires Follow(fs + [a]).Some?
    ensures KnowsMarks(Follow(fs + [a]).value, fs + [a])
  {
    var gs := fs + [a];
    assert gs[..|fs|] == fs;
    if Drops(c.pieces, a) {
      AppendNoted(fs, a);
      AppendMarked(fs, a, c.pieces[0].off);
    } else {
      ExtendMarks(c, fs, a, packet);
    }
  }

  /** The last missing segment is new and not the only one. */
  lemma {:induction false} LastMissing(fs: seq<Arrival>, packet: Bytes)
    requires fs != [] && AllCarry(fs, packet) && FromOneCut(fs) && packet != []
    requires !CoversAll(Parts(fs[..|fs| - 1]), |packet|) && CoversAll(Parts(fs), |packet|)
    ensures |fs| > 1 && fs[|fs| - 1].Part() !in Parts(fs[..|fs| - 1])
  {
    var before, a := fs[..|fs| - 1], fs[|fs| - 1];
    assert fs == before + [a] && Carries(fs[|fs| - 1], packet);
    PartsAppend(before, a);
    if a.Part() in Parts(before) { RepeatAddsNothing(Parts(before), a.Part()); }
    if |fs| == 1 { OneIsNotAll(fs, packet); }
  }

  lemma {:induction false} OneIsNotAll(fs: seq<Arrival>, packet: Bytes)
    requires |fs| == 1 && AllCarry(fs, packet)
    ensures !CoversAll(Parts(fs), |packet|)
  {
    StartKnows(fs[0], packet);
    assert fs == [fs[0]];
  }

  /** Segment i is the first of its kind to arrive. */
  ghost predicate IsNew(fs: seq<Arrival>, i: nat) {
    i < |fs| && fs[i].Part() !in Parts(fs[..i])
  }

  lemma {:induction false} PrefixMisses(fs: seq<Arrival>, packet: Bytes, n: nat)
    requires n <= |fs| && !CoversAll(Parts(fs), |packet|)
    ensures !CoversAll(Parts(fs[..n]), |packet|)
  {
    var p :| 0 <= p < |packet| && !Covered(Parts(fs), p);
    forall i | 0 <= i < n
      ensures !Holds(Parts(fs[..n])[i], p)
    {
      assert !Holds(Parts(fs)[i], p);
    }
    assert !Covered(Parts(fs[..n]), p);
  }

  /** While something is missing, the segments taken over are the new ones. */
  lemma {:induction false} TakenIsNew(fs: seq<Arrival>, packet: Bytes, i: nat)
    requires fs != [] && AllCarry(fs, packet) && FromOneCut(fs) && !CoversAll(Parts(fs[..|fs| - 1]), |packet|)
    ensures Taken(fs, i) <==> IsNew(fs, i)
  {
    if i < |fs| {
      var gs, before := fs[..i + 1], fs[..|fs| - 1];
      assert gs[..|gs| - 1] == fs[..i] == before[..i] && gs[|gs| - 1] == fs[i];
      PrefixMisses(before, packet, i);
      PrefixCarries(fs, packet, i + 1);
      HandedWhenFull(gs, packet);
    }
  }

  lemma PrefixCarries(fs: seq<Arrival>, packet: Bytes, n: nat)
    requires AllCarry(fs, packet) && FromOneCut(fs) && n <= |fs|
    ensures AllCarry(fs[..n], packet) && FromOneCut(fs[..n])
  {
  }

  /** Exactly when a packet is handed over with the congestion mark: some marked segment was, when
      it arrived, the first of its kind, and it was not the first of all or is the start of the
      packet.  So a mark is lost exactly when only the segment that arrived first of all has it
      and another one becomes the first buffer. */
  lemma {:induction false} MarkExactly(fs: seq<Arrival>, packet: Bytes)
    requires fs != [] && AllCarry(fs, packet) && FromOneCut(fs) && packet != []
    requires !CoversAll(Parts(fs[..|fs| - 1]), |packet|) && CoversAll(Parts(fs), |packet|)
    ensures Last(fs).Handed?
    ensures Last(fs).ce <==> exists i: nat :: IsNew(fs, i) && fs[i].ce && (i > 0 || fs[i].off == 0)
  {
    MarkIsTaken(fs, packet);
    forall i: nat ensures Taken(fs, i) <==> IsNew(fs, i) {
      TakenIsNew(fs, packet, i);
    }
    if i: nat :| Taken(fs, i) && fs[i].ce && (i > 0 || fs[i].off == 0) {
      assert IsNew(fs, i);
    }
    if i: nat :| IsNew(fs, i) && fs[i].ce && (i > 0 || fs[i].off == 0) {
      assert Taken(fs, i);
    }
  }

  lemma {:induction false} MarkIsTaken(fs: seq<Arrival>, packet: Bytes)
    requires fs != [] && AllCarry(fs, packet) && FromOneCut(fs) && packet != []
    requires !CoversAll(Parts(fs[..|fs| - 1]), |packet|) && CoversAll(Parts(fs), |packet|)
    ensures Last(fs).Handed?
    ensures Last(fs).ce <==> exists i: nat :: Taken(fs, i) && fs[i].ce && (i > 0 || fs[i].off == 0)
  {
    var before, a := fs[..|fs| - 1], fs[|fs| - 1];
    PrefixOfRun(fs, packet);
    HandedWhenFull(fs, packet);
    LastMissing(fs, packet);
    RunMarks(before, packet);
    var c := Follow(before).value;
    DropsRepeated(c, before, a, packet);
    ExtendMarks(c, before, a, packet);
    assert Carries(fs[|fs| - 1], packet);
    FirstOfWhole(Extend(c, a), before, a, c, packet);
    MarksMeet(fs);
  }

  /** Marks do get lost: of a packet in two halves the marked second one arrives first, and the
      packet is handed over without the mark. */
  lemma {:induction false} MarkLost(x: bv8, y: bv8)
    ensures
      var first, second := Arrival(1, 2, [y], 1, true, None), Arrival(0, 2, [x], 1, false, None);
      var fs := [first, second];
      && AllCarry(fs, [x, y]) && first.ce
      && Last(fs) == Handed([x, y], false)
  {
    var first, second := Arrival(1, 2, [y], 1, true, None), Arrival(0, 2, [x], 1, false, None);
    TwoCarry(first, second, [x, y]);
    TwoHalves(first, second);
    TwoInOrder(first, second);
  }

  lemma TwoCarry(first: Arrival, second: Arrival, packet: Bytes)
    requires Carries(first, packet) && Carries(second, packet)
    ensures AllCarry([first, second], packet)
  {
  }

  lemma TwoInOrder(first: Arrival, second: Arrival)
    ensures Last([first, second]) == Accept(Some(Start(first)), second).1
  {
    var fs := [first, second];
    assert fs[..1] == [first] && [first][..0] == [];
    assert Follow([first]) == Some(Start(first));
  }

  lemma TwoHalves(first: Arrival, second: Arrival)
    requires first.off == |second.data| > 0 == second.off && first.data != [] && first.tot == first.off + |first.data|
    ensures Accept(Some(Start(first)), second) == (None, Handed(second.data + first.data, second.ce))
  {
    assert !InOrder([first.Part()], second) && Slot([first.Part()], 0) == 0;
    var ps := Extend(Start(first), second).pieces;
    assert ps == [second.Part(), first.Part()];
    assert ps[1..] == [first.Part()] && [first.Part()][1..] == [];
    assert Glue(ps[1..]) == first.data + [] == first.data;
    assert Glue(ps) == second.data + first.data;
  }

  lemma {:induction false} FirstOfWhole(r: Chain, fs: seq<Arrival>, a: Arrival, c: Chain, packet: Bytes)
    requires Knows(Some(c), fs, packet) && Carries(a, packet) && !Drops(c.pieces, a) && r == Extend(c, a)
    requires CoversAll(Parts(fs + [a]), |packet|)
    ensures r.pieces != [] && r.pieces[0].off == 0
  {
    PartsAppend(fs, a);
    AttachIsInsert(c.pieces, a);
    assert Covered(Parts(fs + [a]), 0);
    assert Covered(r.pieces, 0);
  }

  lemma {:induction false} MarksMeet(fs: seq<Arrival>)
    ensures Noted(fs) || MarkedAt(fs, 0) <==> exists i: nat :: Taken(fs, i) && fs[i].ce && (i > 0 || fs[i].off == 0)
  {
  }

  // ------------------------------------------------------------------ the chain in place

  /** A slot in use: the list and what the first buffer of the chain records about it. */
  class PktFrag {
    const list: FragQueue
    const tot: nat
    var rcvd: int
    var mem: int
    var ce: bool
    /** The mark in the header of the first buffer. */
    var own: bool

    ghost predicate Valid()
      reads this, list, list.owned
    {
      list.Valid() && Disjoint(list.pieces) && list.pieces != []
    }

    ghost function View(): Chain
      reads this, list
    {
      Chain(list.pieces, tot, rcvd, mem, ce, own)
    }

    constructor (skb: Skb, a: Arrival)
      requires skb.View() == a.Part() && skb.next == null
      ensures Valid() && View() == Start(a) && fresh(list) && list.owned == {skb}
    {
      var q := new FragQueue(0);
      list, tot, rcvd, mem, ce, own := q, a.tot, |a.data|, a.truesize, false, a.ce;
      new;
      list.fragments, list.tail := skb, skb;
      list.nodes, list.pieces, list.owned := [skb], [a.Part()], {skb};
    }

    /** __copy_skb: fold the segment into the head, or refuse. */
    method CopySkb(skb: Skb, a: Arrival) returns (ok: bool)
      requires Valid() && skb.View() == a.Part() && InOrder(list.pieces, a)
      modifies list`pieces, list.owned`data
      ensures list.Valid() && (ok <==> Folds(old(list.pieces), a))
      ensures list.pieces == if ok then Attach(old(list.pieces), a) else old(list.pieces)
    {
      var to := list.fragments;
      assert to == list.nodes[0] && to.next == NodeAt(list.nodes, 1);
      if to.next != null || to.off != 0 || a.copied.None? {
        return false;
      }
      to.data := to.data + skb.data;
      list.pieces := [to.View()];
      ok := true;
    }

    /** The segment follows the last buffer. */
    method HangLast(skb: Skb, a: Arrival) returns (delta: nat)
      requires Valid() && skb !in list.owned && skb.View() == a.Part() && InOrder(list.pieces, a)
      modifies list, list.owned, skb`next
      ensures list.Valid()
      ensures list.pieces == Attach(old(list.pieces), a) && delta == Delta(old(list.pieces), a)
    {
      var copied := CopySkb(skb, a);
      if copied {
        delta := a.copied.value;
      } else {
        Appended(list.pieces, a.Part());
        list.LinkIn(skb, list.tail, null, |list.nodes|);
        delta := a.truesize;
      }
    }

    /** Where the segment belongs and whether it overlaps a neighbour there. */
    method Place(skb: Skb) returns (hit: bool, prev: Skb?, next: Skb?, ghost k: nat)
      requires Valid()
      ensures hit <==> HitsNeighbour(list.pieces, skb.View())
      ensures k == Slot(list.pieces, skb.off) && prev == NodeAt(list.nodes, k - 1) && next == NodeAt(list.nodes, k)
    {
      prev, next, k := list.Search(skb.off);
      hit := || (prev != null && prev.off + |prev.data| > skb.off)
             || (next != null && skb.off + |skb.data| > next.off);
    }

    /** The segment goes where its position says, unless it overlaps a neighbour. */
    method HangSorted(skb: Skb, a: Arrival) returns (ok: bool)
      requires Valid() && skb !in list.owned && skb.View() == a.Part() && !InOrder(list.pieces, a)
      modifies list, list.owned`next, skb`next, `own
      ensures list.Valid() && (ok <==> !Drops(old(list.pieces), a))
      ensures own == if ok && Leads(old(list.pieces), a) then a.ce else old(own)
      ensures list.pieces == if ok then Attach(old(list.pieces), a) else old(list.pieces)
    {
      var hit, prev, next, k := Place(skb);
      ok := !hit;
      if ok {
        list.LinkIn(skb, prev, next, k);
        if prev == null {
          own := a.ce;
        }
      }
    }

    method Hang(skb: Skb, a: Arrival) returns (ok: bool, delta: nat)
      requires Valid() && skb !in list.owned && skb.View() == a.Part()
      modifies list, list.owned, skb`next, `own
      ensures list.Valid() && (ok <==> !Drops(old(list.pieces), a))
      ensures ok ==> own == if Leads(old(list.pieces), a) then a.ce else old(own)
      ensures !ok ==> own == old(own)
      ensures list.pieces == if ok then Attach(old(list.pieces), a) else old(list.pieces)
      ensures ok ==> delta == Delta(old(list.pieces), a) && list.pieces != []
    {
      var last := list.tail;
      if last.off + |last.data| == skb.off {
        ok := true;
        delta := HangLast(skb, a);
      } else {
        delta := a.truesize;
        ok := HangSorted(skb, a);
      }
    }

    /** The segment becomes part of the chain, or is left out. */
    method Absorb(skb: Skb, a: Arrival) returns (ok: bool)
      requires Valid() && skb !in list.owned && skb.View() == a.Part()
      modifies `rcvd, `mem, `ce, `own, list, list.owned, skb`next
      ensures list.Valid() && (ok <==> !Drops(old(list.pieces), a))
      ensures View() == if ok then Extend(old(View()), a) else old(View())
      ensures ok ==> list.fragments != null
    {
      ghost var c := View();
      var delta;
      ok, delta := Hang(skb, a);
      if ok {
        Count(a, delta);
        Extended(c, a, View());
      }
    }

    /** A complete packet is handed over, with the mark noted for it. */
    method HandOver() returns (head: Skb?)
      modifies `own
      ensures head == if tot == rcvd then list.fragments else null
      ensures own == if tot == rcvd then ce || old(own) else old(own)
    {
      head := null;
      if tot == rcvd {
        head := list.fragments;
        if ce {
          own := true;
        }
      }
    }

    /** reassemble from the shortcut on; a buffer is returned when the packet is complete, and
        the buffers chained to it are the packet. */
    method Receive(skb: Skb, a: Arrival) returns (freed: bool, head: Skb?)
      requires Valid() && skb !in list.owned && skb.View() == a.Part()
      modifies `rcvd, `mem, `ce, `own, list, list.owned, skb`next
      ensures list.Valid()
      ensures match Accept(Some(old(View())), a)
        case (o, Freed) => freed && head == null && View() == old(View())
        case (o, Kept) => !freed && head == null && Some(View()) == o
        case (o, Handed(packet, mark)) =>
          !freed && head != null && head == list.fragments && Glue(list.pieces) == packet && own == mark
    {
      var ok := Absorb(skb, a);
      freed := !ok;
      head := null;
      if ok {
        head := HandOver();
      }
    }

    method Count(a: Arrival, delta: nat)
      modifies `rcvd, `mem, `ce
      ensures rcvd == old(rcvd) + |a.data| && mem == old(mem) + delta && ce == (old(ce) || a.ce)
    {
      ce := ce || a.ce;
      rcvd := rcvd + |a.data|;
      mem := mem + delta;
    }
  }

  lemma Extended(c: Chain, a: Arrival, r: Chain)
    requires !Drops(c.pieces, a) && r.pieces == Attach(c.pieces, a) && r.tot == c.tot && r.rcvd == c.rcvd + |a.data|
    requires r.mem == c.mem + Delta(c.pieces, a) && r.ce == (c.ce || a.ce)
    requires r.own == if Leads(c.pieces, a) then a.ce else c.own
    ensures r == Extend(c, a)
  {
  }

  lemma Appended(ps: seq<Piece>, x: Piece)
    ensures Inserted(ps, |ps|, x) == ps + [x]
  {
  }
}
