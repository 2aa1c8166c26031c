/** When an IPv6 queue completes, and with what. */
module Ipv6RoundTrip {
  import opened Pieces
  import opened InetFrag
  import opened Ipv6Reassembly

  /** f carries part of the datagram, whole units unless it is the last one, and is marked as last
      exactly when it ends the datagram.  Only a fragment that is not the last may be empty. */
  ghost predicate Agrees(f: Fragment, datagram: Bytes, hdr: nat, ecn: nat) {
    && ShowsPart(f.Raw(), datagram)
    && (f.mf <==> f.Raw().End() < |datagram|)
    && (f.data == [] ==> f.mf)
    && (f.mf ==> f.Raw().End() % 8 == 0)
    && f.hdr == hdr && f.ecn == ecn
  }

  ghost predicate AllAgree(fs: seq<Fragment>, datagram: Bytes, hdr: nat, ecn: nat) {
    forall i :: 0 <= i < |fs| ==> Agrees(fs[i], datagram, hdr, ecn)
  }

  /** The whole packet, fragment header removed, has a legal payload length. */
  predicate Legal(datagram: Bytes, hdr: nat) {
    IPV6_HDR_LEN <= hdr && hdr - IPV6_HDR_LEN + |datagram| <= IPV6_MAXPLEN
  }

  ghost predicate Got(fs: seq<Fragment>, p: int) {
    exists i :: 0 <= i < |fs| && Holds(fs[i].Raw(), p)
  }

  ghost predicate LastSeen(fs: seq<Fragment>) {
    exists i :: 0 <= i < |fs| && !fs[i].mf
  }

  ghost predicate Full(fs: seq<Fragment>, datagram: Bytes) {
    forall p | 0 <= p < |datagram| :: Got(fs, p)
  }

  ghost predicate Clash(f: Fragment, g: Fragment) {
    f.data != [] && g.data != [] && Overlap(f.Raw(), g.Raw())
  }

  /** No two of the fragments overlap, so in particular none that carries something is repeated. */
  ghost predicate Apart(fs: seq<Fragment>) {
    forall i, j :: 0 <= i < j < |fs| ==> !Clash(fs[i], fs[j])
  }

  function Gather(ecn: nat, fs: seq<Fragment>, bad: set<nat> -> bool): Queue {
    if fs == [] then NewQueue(ecn)
    else Receive(Gather(ecn, fs[..|fs| - 1], bad), fs[|fs| - 1], CALM, bad).0
  }

  function Answer(ecn: nat, fs: seq<Fragment>, bad: set<nat> -> bool): Verdict
    requires fs != []
  {
    Receive(Gather(ecn, fs[..|fs| - 1], bad), fs[|fs| - 1], CALM, bad).1
  }

  ghost predicate PartsOf(ps: seq<Piece>, datagram: Bytes, hdr: nat) {
    forall i :: 0 <= i < |ps| ==> ps[i].hdr == hdr && ShowsPart(ps[i], datagram)
  }

  /** What a live queue knows after the fragments fs. */
  ghost predicate Knows(q: Queue, fs: seq<Fragment>, datagram: Bytes, hdr: nat, ecn: nat) {
    && Sound(q) && !q.complete
    && q.len <= |datagram|
    && (q.lastIn ==> q.len == |datagram|)
    && (q.lastIn <==> LastSeen(fs))
    && q.ecn == {ecn}
    && PartsOf(q.pieces, datagram, hdr)
    && (forall p :: Covered(q.pieces, p) <==> Got(fs, p))
  }

  lemma AppendGot(fs: seq<Fragment>, f: Fragment)
    ensures forall p :: Got(fs + [f], p) <==> Got(fs, p) || Holds(f.Raw(), p)
    ensures LastSeen(fs + [f]) <==> LastSeen(fs) || !f.mf
  {
    var gs := fs + [f];
    assert gs[|fs|] == f;
    forall p
      ensures Got(gs, p) <==> Got(fs, p) || Holds(f.Raw(), p)
    {
      if Got(fs, p) {
        var i :| 0 <= i < |fs| && Holds(fs[i].Raw(), p);
        assert gs[i] == fs[i];
      }
    }
    if LastSeen(fs) {
      var i :| 0 <= i < |fs| && !fs[i].mf;
      assert gs[i] == fs[i];
    }
  }

  lemma AppendApart(fs: seq<Fragment>, f: Fragment)
    ensures Apart(fs + [f]) <==> Apart(fs) && forall p :: Holds(f.Raw(), p) ==> !Got(fs, p)
  {
    var gs := fs + [f];
    assert gs[|fs|] == f;
    if Apart(gs) {
      forall i, j | 0 <= i < j < |fs|
        ensures !Clash(fs[i], fs[j])
      {
        assert gs[i] == fs[i] && gs[j] == fs[j];
      }
      forall p, i | Holds(f.Raw(), p) && 0 <= i < |fs|
        ensures !Holds(fs[i].Raw(), p)
      {
        assert gs[i] == fs[i];
      }
    }
    if Apart(fs) && forall p :: Holds(f.Raw(), p) ==> !Got(fs, p) {
      forall i | 0 <= i < |fs|
        ensures !Clash(fs[i], f)
      {
        if fs[i].data != [] && f.data != [] { OverlapMeets(fs[i].Raw(), f.Raw()); }
      }
    }
  }

  /** The newcomer hits a neighbour exactly when one of its positions has been received. */
  lemma HitMeansGot(q: Queue, fs: seq<Fragment>, f: Fragment, datagram: Bytes, hdr: nat, ecn: nat)
    requires Knows(q, fs, datagram, hdr, ecn) && f.data != []
    ensures HitsNeighbour(q.pieces, f.Raw()) <==> exists p :: Holds(f.Raw(), p) && Got(fs, p)
  {
    NeighboursSuffice(q.pieces, f.Raw(), q.len);
    if HitsNeighbour(q.pieces, f.Raw()) {
      var i :| 0 <= i < |q.pieces| && Overlap(q.pieces[i], f.Raw());
      OverlapMeets(q.pieces[i], f.Raw());
      var p :| Holds(q.pieces[i], p) && Holds(f.Raw(), p);
      assert Covered(q.pieces, p);
    }
    if p :| Holds(f.Raw(), p) && Got(fs, p) {
      assert Covered(q.pieces, p);
      var i :| 0 <= i < |q.pieces| && Holds(q.pieces[i], p);
      assert Overlap(q.pieces[i], f.Raw());
    }
  }

  lemma NoteAccepts(q: Queue, fs: seq<Fragment>, f: Fragment, datagram: Bytes, hdr: nat, ecn: nat)
    requires Knows(q, fs, datagram, hdr, ecn) && Agrees(f, datagram, hdr, ecn) && |datagram| <= IPV6_MAXPLEN
    ensures NoteEnd(q, f).Noted?
    ensures NoteEnd(q, f).queue ==
      q.(lastIn := q.lastIn || !f.mf, len := if f.Raw().End() > q.len then f.Raw().End() else q.len)
    ensures Sound(NoteEnd(q, f).queue)
  {
  }

  lemma LinkedKnows(q: Queue, fs: seq<Fragment>, f: Fragment, datagram: Bytes, hdr: nat, ecn: nat)
    requires Knows(q, fs, datagram, hdr, ecn) && Agrees(f, datagram, hdr, ecn) && |datagram| <= IPV6_MAXPLEN
    requires f.data != [] && NoteEnd(q, f).Noted? && !HitsNeighbour(q.pieces, f.Raw())
    ensures Knows(Link(NoteEnd(q, f).queue, f).0, fs + [f], datagram, hdr, ecn)
  {
    NoteAccepts(q, fs, f, datagram, hdr, ecn);
    LinkKeeps(NoteEnd(q, f).queue, f);
    InsertedKnows(q.pieces, f, NoteEnd(q, f).queue.len, datagram, hdr);
    AppendGot(fs, f);
  }

  lemma InsertedKnows(ps: seq<Piece>, f: Fragment, limit: nat, datagram: Bytes, hdr: nat)
    requires Disjoint(ps) && Within(ps, limit) && !HitsNeighbour(ps, f.Raw())
    requires f.data != [] && f.Raw().End() <= limit
    requires PartsOf(ps, datagram, hdr) && ShowsPart(f.Raw(), datagram) && f.hdr == hdr
    ensures PartsOf(Insert(ps, f.Raw()), datagram, hdr)
    ensures forall p :: Covered(Insert(ps, f.Raw()), p) <==> Covered(ps, p) || Holds(f.Raw(), p)
  {
    InsertKeeps(ps, f.Raw(), limit);
  }

  lemma TestIsExact(g: Queue, fs: seq<Fragment>, datagram: Bytes, hdr: nat, ecn: nat)
    requires Knows(g, fs, datagram, hdr, ecn) && AllAgree(fs, datagram, hdr, ecn) && datagram != []
    ensures (g.firstIn && g.lastIn && g.meat == g.len) <==> Full(fs, datagram)
  {
    CounterMeansComplete(g.pieces, g.len);
    if Full(fs, datagram) {
      assert Got(fs, |datagram| - 1);
      var j :| 0 <= j < |fs| && Holds(fs[j].Raw(), |datagram| - 1);
      assert Agrees(fs[j], datagram, hdr, ecn);
      assert !fs[j].mf;
      assert Got(fs, 0) && Covered(g.pieces, 0);
      var i :| 0 <= i < |g.pieces| && Holds(g.pieces[i], 0);
      assert g.pieces[0].off == 0;
    }
  }

  lemma CompleteDelivers(g: Queue, swapHead: bool, fs: seq<Fragment>, datagram: Bytes, hdr: nat, ecn: nat,
                         bad: set<nat> -> bool)
    requires Knows(g, fs, datagram, hdr, ecn) && g.meat == g.len == |datagram| && datagram != []
    requires !bad({ecn}) && Legal(datagram, hdr)
    ensures Reassemble(g, swapHead, CALM, bad).1 == Delivered(datagram)
  {
    CounterMeansComplete(g.pieces, g.len);
    GlueTiling(g.pieces, 0, g.len, datagram);
    assert datagram[0..|datagram|] == datagram;
  }

  /** One arrival at a live queue: an empty fragment is refused and only teaches the queue a
      length. */
  lemma Arrival(q: Queue, fs: seq<Fragment>, f: Fragment, datagram: Bytes, hdr: nat, ecn: nat, bad: set<nat> -> bool)
    requires Knows(q, fs, datagram, hdr, ecn) && AllAgree(fs, datagram, hdr, ecn) && Agrees(f, datagram, hdr, ecn)
    requires Apart(fs) && !Full(fs, datagram)
    requires datagram != [] && Legal(datagram, hdr) && !bad({ecn})
    ensures var (r, a) := Receive(q, f, CALM, bad);
      if f.data == [] then a == Invalid && Knows(r, fs + [f], datagram, hdr, ecn) && !Full(fs + [f], datagram)
      else if !Apart(fs + [f]) then a == Invalid && r.complete
      else if Full(fs + [f], datagram) then a == Delivered(datagram) && r.complete
      else a == InProgress && Knows(r, fs + [f], datagram, hdr, ecn)
  {
    NoteAccepts(q, fs, f, datagram, hdr, ecn);
    AppendApart(fs, f);
    if f.data == [] {
      EmptyAddsNothing(q, fs, f, datagram, hdr, ecn);
    } else {
      HitMeansGot(q, fs, f, datagram, hdr, ecn);
      if !HitsNeighbour(q.pieces, f.Raw()) {
        LinkedKnows(q, fs, f, datagram, hdr, ecn);
        ExtendAgree(fs, f, datagram, hdr, ecn);
        LinkedAnswers(q, fs, f, datagram, hdr, ecn, bad);
      }
    }
  }

  lemma EmptyAddsNothing(q: Queue, fs: seq<Fragment>, f: Fragment, datagram: Bytes, hdr: nat, ecn: nat)
    requires Knows(q, fs, datagram, hdr, ecn) && Agrees(f, datagram, hdr, ecn) && f.data == [] && |datagram| <= IPV6_MAXPLEN
    requires !Full(fs, datagram)
    ensures NoteEnd(q, f).Noted? && Knows(NoteEnd(q, f).queue, fs + [f], datagram, hdr, ecn)
    ensures !Full(fs + [f], datagram)
  {
    NoteAccepts(q, fs, f, datagram, hdr, ecn);
    AppendGot(fs, f);
    var p :| 0 <= p < |datagram| && !Got(fs, p);
    assert !Holds(f.Raw(), p);
  }

  lemma LinkedAnswers(q: Queue, fs: seq<Fragment>, f: Fragment, datagram: Bytes, hdr: nat, ecn: nat, bad: set<nat> -> bool)
    requires Admissible(q, f) && !HitsNeighbour(q.pieces, f.Raw()) && NoteEnd(q, f).queue.pieces == q.pieces
    requires AllAgree(fs + [f], datagram, hdr, ecn)
    requires Knows(Link(NoteEnd(q, f).queue, f).0, fs + [f], datagram, hdr, ecn)
    requires datagram != [] && Legal(datagram, hdr) && !bad({ecn})
    ensures var (r, a) := Receive(q, f, CALM, bad);
      if Full(fs + [f], datagram) then a == Delivered(datagram) && r.complete
      else a == InProgress && Knows(r, fs + [f], datagram, hdr, ecn)
  {
    var g := Link(NoteEnd(q, f).queue, f).0;
    TestIsExact(g, fs + [f], datagram, hdr, ecn);
    if Full(fs + [f], datagram) {
      CompleteDelivers(g, Slot(q.pieces, f.Off()) > 0, fs + [f], datagram, hdr, ecn, bad);
    }
  }

  lemma ExtendAgree(fs: seq<Fragment>, f: Fragment, datagram: Bytes, hdr: nat, ecn: nat)
    requires AllAgree(fs, datagram, hdr, ecn) && Agrees(f, datagram, hdr, ecn)
    ensures AllAgree(fs + [f], datagram, hdr, ecn)
  {
  }

  lemma {:induction false} RunKnows(fs: seq<Fragment>, datagram: Bytes, hdr: nat, ecn: nat, bad: set<nat> -> bool)
    requires AllAgree(fs, datagram, hdr, ecn)
    requires datagram != [] && Legal(datagram, hdr) && !bad({ecn})
    ensures var q := Gather(ecn, fs, bad);
      if Apart(fs) && !Full(fs, datagram) then Knows(q, fs, datagram, hdr, ecn) else q.complete
  {
    if fs == [] {
      assert !Got(fs, 0);
      assert forall p :: !Got(fs, p);
    } else {
      var before, f := fs[..|fs| - 1], fs[|fs| - 1];
      assert fs == before + [f];
      assert AllAgree(before, datagram, hdr, ecn) && Agrees(f, datagram, hdr, ecn);
      RunKnows(before, datagram, hdr, ecn, bad);
      AppendGot(before, f);
      AppendApart(before, f);
      if Apart(before) && !Full(before, datagram) {
        Arrival(Gather(ecn, before, bad), before, f, datagram, hdr, ecn, bad);
      }
    }
  }

  /** Main result.  For fragments that agree with one datagram, in any order: the queue delivers
      exactly that datagram, exactly at the arrival of the last missing byte, and only if no
      two fragments up to then overlap.  Until then every fragment is taken over, except that
      empty ones are always refused, without further effect. */
  lemma DeliversWhenFull(fs: seq<Fragment>, datagram: Bytes, hdr: nat, ecn: nat, bad: set<nat> -> bool)
    requires fs != [] && AllAgree(fs, datagram, hdr, ecn)
    requires datagram != [] && Legal(datagram, hdr) && !bad({ecn})
    ensures var before := fs[..|fs| - 1];
      Answer(ecn, fs, bad) ==
      if fs[|fs| - 1].data == [] then Invalid
      else if Apart(fs) && Full(fs, datagram) && !Full(before, datagram) then Delivered(datagram)
      else if Apart(fs) && !Full(fs, datagram) then InProgress
      else Invalid
  {
    var before, f := fs[..|fs| - 1], fs[|fs| - 1];
    assert fs == before + [f];
    assert AllAgree(before, datagram, hdr, ecn) && Agrees(f, datagram, hdr, ecn);
    RunKnows(before, datagram, hdr, ecn, bad);
    AppendGot(before, f);
    AppendApart(before, f);
    if Apart(before) && !Full(before, datagram) {
      Arrival(Gather(ecn, before, bad), before, f, datagram, hdr, ecn, bad);
    }
  }

  // ------------------------------------------------------- fragments cut by a sender

  function Raws(fs: seq<Fragment>): (ps: seq<Piece>)
    ensures |ps| == |fs| && forall i :: 0 <= i < |fs| ==> ps[i] == fs[i].Raw()
  {
    if fs == [] then [] else [fs[0].Raw()] + Raws(fs[1..])
  }

  /** sent is a way of cutting the datagram into fragments that tile it, all but the last of them
      marked, and the last not empty. */
  ghost predicate Cut(sent: seq<Fragment>, datagram: Bytes, hdr: nat, ecn: nat) {
    && sent != [] && sent[|sent| - 1].data != []
    && Tiles(Raws(sent), 0, |datagram|)
    && forall i :: 0 <= i < |sent| ==> CutPart(sent[i], i == |sent| - 1, datagram, hdr, ecn)
  }

  ghost predicate CutPart(f: Fragment, last: bool, datagram: Bytes, hdr: nat, ecn: nat) {
    ShowsPart(f.Raw(), datagram) && f.mf == !last && f.hdr == hdr && f.ecn == ecn
  }

  lemma {:induction false} TilesLink(ps: seq<Piece>, lo: nat, hi: nat, i: nat)
    requires Tiles(ps, lo, hi) && i < |ps|
    ensures ps[i].End() == if i == |ps| - 1 then hi else ps[i + 1].off
  {
    if i > 0 { TilesLink(ps[1..], ps[0].End(), hi, i - 1); }
  }

  lemma {:induction false} CutAgrees(sent: seq<Fragment>, datagram: Bytes, hdr: nat, ecn: nat)
    requires Cut(sent, datagram, hdr, ecn)
    ensures AllAgree(sent, datagram, hdr, ecn) && Disjoint(Raws(sent)) && datagram != []
  {
    var ps := Raws(sent);
    TilingIsDisjoint(ps, 0, |datagram|);
    TilesLink(ps, 0, |datagram|, |ps| - 1);
    forall i | 0 <= i < |sent|
      ensures Agrees(sent[i], datagram, hdr, ecn)
    {
      CutPartAgrees(sent, datagram, hdr, ecn, i);
    }
  }

  /** In a cut only the last fragment reaches the end, and the others end at unit borders. */
  lemma {:induction false} CutEnds(sent: seq<Fragment>, size: nat, i: nat)
    requires Tiles(Raws(sent), 0, size) && Disjoint(Raws(sent)) && i < |sent| && sent[|sent| - 1].data != []
    ensures if i == |sent| - 1 then sent[i].Raw().End() == size
      else sent[i].Raw().End() < size && sent[i].Raw().End() == sent[i + 1].Off()
  {
    var ps, n := Raws(sent), |sent| - 1;
    TilesLink(ps, 0, size, i);
    if i < n {
      TilesLink(ps, 0, size, n);
      assert ps[i].End() <= ps[n].off < ps[n].End();
    }
  }

  lemma {:induction false} CutPartAgrees(sent: seq<Fragment>, datagram: Bytes, hdr: nat, ecn: nat, i: nat)
    requires Cut(sent, datagram, hdr, ecn) && Disjoint(Raws(sent)) && i < |sent|
    ensures Agrees(sent[i], datagram, hdr, ecn)
  {
    assert CutPart(sent[i], i == |sent| - 1, datagram, hdr, ecn);
    CutEnds(sent, |datagram|, i);
  }

  /** No fragment that carries something is repeated. */
  ghost predicate NoneRepeated(fs: seq<Fragment>) {
    forall i, j :: 0 <= i < j < |fs| && fs[i] == fs[j] ==> fs[i].data == []
  }

  lemma SentOverlap(sent: seq<Fragment>, a: Fragment, b: Fragment)
    requires Disjoint(Raws(sent)) && a in sent && b in sent
    ensures Clash(a, b) <==> a == b && a.data != []
  {
    var ps := Raws(sent);
    var i :| 0 <= i < |sent| && sent[i] == a;
    var j :| 0 <= j < |sent| && sent[j] == b;
    assert ps[i] == a.Raw() && ps[j] == b.Raw();
  }

  /** Fragments of one cut stay apart exactly when none is repeated. */
  lemma {:induction false} ApartMeansNoneRepeated(fs: seq<Fragment>, sent: seq<Fragment>, datagram: Bytes, hdr: nat, ecn: nat)
    requires Cut(sent, datagram, hdr, ecn) && Among(fs, sent)
    ensures AllAgree(fs, datagram, hdr, ecn)
    ensures Apart(fs) <==> NoneRepeated(fs)
  {
    CutAgrees(sent, datagram, hdr, ecn);
    forall i, j | 0 <= i < j < |fs|
      ensures Clash(fs[i], fs[j]) <==> fs[i] == fs[j] && fs[i].data != []
    {
      SentOverlap(sent, fs[i], fs[j]);
    }
  }

  lemma {:induction false} FullMeansNoneMissing(fs: seq<Fragment>, sent: seq<Fragment>, datagram: Bytes, hdr: nat, ecn: nat)
    requires Cut(sent, datagram, hdr, ecn) && Among(fs, sent)
    ensures Full(fs, datagram) <==> NoneMissing(fs, sent)
  {
    CutAgrees(sent, datagram, hdr, ecn);
    if NoneMissing(fs, sent) {
      forall p | 0 <= p < |datagram|
        ensures Got(fs, p)
      {
        AllGot(fs, sent, datagram, p);
      }
    }
    if Full(fs, datagram) {
      forall j | 0 <= j < |sent| && sent[j].data != []
        ensures sent[j] in fs
      {
        FullHas(fs, sent, datagram, hdr, ecn, j);
      }
    }
  }

  lemma {:induction false} FullHas(fs: seq<Fragment>, sent: seq<Fragment>, datagram: Bytes, hdr: nat, ecn: nat, j: nat)
    requires Cut(sent, datagram, hdr, ecn) && Among(fs, sent) && Full(fs, datagram) && j < |sent| && sent[j].data != []
    ensures sent[j] in fs
  {
    CutAgrees(sent, datagram, hdr, ecn);
    assert Agrees(sent[j], datagram, hdr, ecn);
    var p := sent[j].Off();
    assert Holds(sent[j].Raw(), p) && Got(fs, p);
    var i :| 0 <= i < |fs| && Holds(fs[i].Raw(), p);
    assert Overlap(sent[j].Raw(), fs[i].Raw());
    SentOverlap(sent, sent[j], fs[i]);
  }

  lemma {:induction false} AllGot(fs: seq<Fragment>, sent: seq<Fragment>, datagram: Bytes, p: int)
    requires Tiles(Raws(sent), 0, |datagram|) && NoneMissing(fs, sent) && 0 <= p < |datagram|
    ensures Got(fs, p)
  {
    var ps := Raws(sent);
    TilingCovers(ps, 0, |datagram|, p);
    var j :| 0 <= j < |ps| && Holds(ps[j], p);
    assert sent[j] in fs;
    var i :| 0 <= i < |fs| && fs[i] == sent[j];
  }

  lemma LastIsNew(fs: seq<Fragment>, sent: seq<Fragment>)
    requires fs != [] && Among(fs, sent) && NoneRepeated(fs) && fs[|fs| - 1].data != []
    ensures !NoneMissing(fs[..|fs| - 1], sent)
  {
    assert fs[|fs| - 1] in sent;
    var j :| 0 <= j < |sent| && sent[j] == fs[|fs| - 1];
  }

  /** Round trip.  Deliver each fragment once, in any order: all that carry something are accepted,
      the empty ones refused, and the datagram comes out at the last arrival of one that carries
      something.  Repeat such a one before that and nothing ever comes out. */
  lemma {:induction false} RoundTrip(sent: seq<Fragment>, fs: seq<Fragment>, datagram: Bytes, hdr: nat, ecn: nat,
                                     bad: set<nat> -> bool)
    requires Cut(sent, datagram, hdr, ecn) && Among(fs, sent) && fs != []
    requires Legal(datagram, hdr) && !bad({ecn})
    ensures NoneRepeated(fs) ==>
      Answer(ecn, fs, bad) ==
      if fs[|fs| - 1].data == [] then Invalid
      else if NoneMissing(fs, sent) then Delivered(datagram)
      else InProgress
    ensures !NoneRepeated(fs) ==> Answer(ecn, fs, bad) == Invalid
  {
    var before := fs[..|fs| - 1];
    CutAgrees(sent, datagram, hdr, ecn);
    ApartMeansNoneRepeated(fs, sent, datagram, hdr, ecn);
    FullMeansNoneMissing(fs, sent, datagram, hdr, ecn);
    FullMeansNoneMissing(before, sent, datagram, hdr, ecn);
    DeliversWhenFull(fs, datagram, hdr, ecn, bad);
    if NoneRepeated(fs) && fs[|fs| - 1].data != [] { LastIsNew(fs, sent); }
  }

  // ------------------------------------------------------- every order of a given cut

  /** fs is sent in some order. */
  ghost predicate OnceEach(fs: seq<Fragment>, sent: seq<Fragment>) {
    multiset(fs) == multiset(sent)
  }

  ghost predicate DeliveredDuring(fs: seq<Fragment>, datagram: Bytes, ecn: nat, bad: set<nat> -> bool) {
    exists n :: 0 < n <= |fs| && Answer(ecn, fs[..n], bad) == Delivered(datagram)
  }

  /** Exactly the empty fragments are refused. */
  ghost predicate OnlyEmptyRefused(fs: seq<Fragment>, ecn: nat, bad: set<nat> -> bool) {
    forall n :: 0 < n <= |fs| ==> (Answer(ecn, fs[..n], bad) == Invalid <==> fs[n - 1].data == [])
  }

  /** In every order the datagram comes out. */
  ghost predicate AlwaysArrives(sent: seq<Fragment>, datagram: Bytes, ecn: nat, bad: set<nat> -> bool) {
    forall fs: seq<Fragment> :: OnceEach(fs, sent) ==> DeliveredDuring(fs, datagram, ecn, bad)
  }

  lemma {:induction false} TwiceCounts(fs: seq<Fragment>, i: nat, j: nat)
    requires i < j < |fs| && fs[i] == fs[j]
    ensures multiset(fs)[fs[i]] >= 2
  {
    assert fs == fs[..j] + fs[j..];
    assert fs[..j][i] in multiset(fs[..j]) && fs[j..][0] in multiset(fs[j..]);
  }

  lemma {:induction false} OnceCounts(fs: seq<Fragment>, i: nat)
    requires i < |fs| && multiset(fs)[fs[i]] >= 2
    ensures exists j :: 0 <= j < |fs| && j != i && fs[j] == fs[i]
  {
    var rest := fs[..i] + fs[i + 1..];
    assert fs == fs[..i] + [fs[i]] + fs[i + 1..];
    assert multiset(fs) == multiset(rest) + multiset{fs[i]};
    assert fs[i] in rest;
    var k :| 0 <= k < |rest| && rest[k] == fs[i];
    assert fs[if k < i then k else k + 1] == fs[i];
  }

  lemma {:induction false} OnceEachIsFine(fs: seq<Fragment>, sent: seq<Fragment>, datagram: Bytes, hdr: nat, ecn: nat)
    requires Cut(sent, datagram, hdr, ecn) && OnceEach(fs, sent)
    ensures Among(fs, sent) && NoneMissing(fs, sent) && NoneRepeated(fs)
  {
    CutAgrees(sent, datagram, hdr, ecn);
    forall i | 0 <= i < |fs| ensures fs[i] in sent {
      assert fs[i] in multiset(sent);
    }
    forall j | 0 <= j < |sent| ensures sent[j] in fs {
      assert sent[j] in multiset(fs);
    }
    forall i, j | 0 <= i < j < |fs| && fs[i] == fs[j]
      ensures fs[i].data == []
    {
      TwiceCounts(fs, i, j);
      var m :| 0 <= m < |sent| && sent[m] == fs[i];
      TwiceIsEmpty(sent, m);
    }
  }

  lemma {:induction false} TwiceIsEmpty(sent: seq<Fragment>, m: nat)
    requires Disjoint(Raws(sent)) && m < |sent| && multiset(sent)[sent[m]] >= 2
    ensures sent[m].data == []
  {
    OnceCounts(sent, m);
    var k :| 0 <= k < |sent| && k != m && sent[k] == sent[m];
    assert Raws(sent)[k] == Raws(sent)[m];
  }

  lemma PrefixIsFine(fs: seq<Fragment>, sent: seq<Fragment>, n: nat)
    requires Among(fs, sent) && NoneRepeated(fs) && n <= |fs|
    ensures Among(fs[..n], sent) && NoneRepeated(fs[..n])
  {
  }

  /** Delivered once each, in whatever order: the datagram comes out, and exactly the empty
      fragments are refused. */
  lemma {:induction false} CutArrives(sent: seq<Fragment>, fs: seq<Fragment>, datagram: Bytes, hdr: nat, ecn: nat,
                                      bad: set<nat> -> bool)
    requires Cut(sent, datagram, hdr, ecn) && OnceEach(fs, sent)
    requires Legal(datagram, hdr) && !bad({ecn})
    ensures OnlyEmptyRefused(fs, ecn, bad) && DeliveredDuring(fs, datagram, ecn, bad)
  {
    OnceEachIsFine(fs, sent, datagram, hdr, ecn);
    forall n | 0 < n <= |fs|
      ensures Answer(ecn, fs[..n], bad) == Invalid <==> fs[n - 1].data == []
    {
      PrefixIsFine(fs, sent, n);
      RoundTrip(sent, fs[..n], datagram, hdr, ecn, bad);
    }
    assert fs[..|fs|] == fs;
    CutArrivesSoon(sent, fs, |fs|, datagram, hdr, ecn, bad);
  }

  lemma EmptyNotMissed(fs: seq<Fragment>, sent: seq<Fragment>, n: nat)
    requires 0 < n <= |fs| && fs[n - 1].data == [] && NoneMissing(fs[..n], sent)
    ensures NoneMissing(fs[..n - 1], sent)
  {
    assert fs[..n] == fs[..n - 1] + [fs[n - 1]];
  }

  lemma {:induction false} CutArrivesSoon(sent: seq<Fragment>, fs: seq<Fragment>, n: nat, datagram: Bytes, hdr: nat, ecn: nat,
                                          bad: set<nat> -> bool)
    requires Cut(sent, datagram, hdr, ecn) && Among(fs, sent) && NoneRepeated(fs) && n <= |fs| && NoneMissing(fs[..n], sent)
    requires Legal(datagram, hdr) && !bad({ecn})
    ensures DeliveredDuring(fs, datagram, ecn, bad)
    decreases n
  {
    assert n > 0 by { assert sent[|sent| - 1] in fs[..n]; }
    if fs[n - 1].data == [] {
      EmptyNotMissed(fs, sent, n);
      CutArrivesSoon(sent, fs, n - 1, datagram, hdr, ecn, bad);
    } else {
      PrefixIsFine(fs, sent, n);
      RoundTrip(sent, fs[..n], datagram, hdr, ecn, bad);
    }
  }

  // ---------------------------------------------------------- when the last one is empty

  lemma {:induction false} MarkedKeepsLast(q: Queue, f: Fragment, bad: set<nat> -> bool)
    requires f.mf
    ensures Receive(q, f, CALM, bad).0.lastIn == q.lastIn
  {
  }

  lemma {:induction false} NeverLastIn(fs: seq<Fragment>, ecn: nat, bad: set<nat> -> bool)
    requires forall i :: 0 <= i < |fs| ==> fs[i].mf
    ensures !Gather(ecn, fs, bad).lastIn
  {
    if fs != [] {
      var before := fs[..|fs| - 1];
      NeverLastIn(before, ecn, bad);
      MarkedKeepsLast(Gather(ecn, before, bad), fs[|fs| - 1], bad);
    }
  }

  lemma {:induction false} NoAnswerWithoutLast(q: Queue, f: Fragment, bad: set<nat> -> bool)
    requires !q.lastIn && (f.mf || f.data == [])
    ensures !Receive(q, f, CALM, bad).1.Delivered?
  {
  }

  lemma {:induction false} SilentSoFar(sent: seq<Fragment>, ecn: nat, bad: set<nat> -> bool, n: nat)
    requires 0 < n <= |sent| && forall i :: 0 <= i < n - 1 ==> sent[i].mf
    requires sent[n - 1].mf || sent[n - 1].data == []
    ensures !Answer(ecn, sent[..n], bad).Delivered?
  {
    var before := sent[..n - 1];
    assert sent[..n][..n - 1] == before;
    NeverLastIn(before, ecn, bad);
    NoAnswerWithoutLast(Gather(ecn, before, bad), sent[n - 1], bad);
  }

  /** If the only unmarked fragment is empty and arrives last, nothing is ever delivered. */
  lemma {:induction false} EmptyLastIsLost(sent: seq<Fragment>, datagram: Bytes, ecn: nat, bad: set<nat> -> bool)
    requires sent != [] && sent[|sent| - 1].data == []
    requires forall i :: 0 <= i < |sent| - 1 ==> sent[i].mf
    ensures !DeliveredDuring(sent, datagram, ecn, bad)
  {
    if DeliveredDuring(sent, datagram, ecn, bad) {
      var n :| 0 < n <= |sent| && Answer(ecn, sent[..n], bad) == Delivered(datagram);
      SilentSoFar(sent, ecn, bad, n);
    }
  }
}
