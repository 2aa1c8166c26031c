/** What a call of nf_ct_frag6_queue and of the completion test behind it
    (linux/compat/nf_conntrack_reasm.c) comes to, for every sound queue and every fragment, in terms
    of the positions held, the end and the codepoints seen. */
module Ipv6Outcome {
  import opened Pieces
  import opened InetFrag
  import opened Ipv6Reassembly

  /** The end of the fragment is within the maximum, on a unit unless it is the last one, and goes
      with what is known of the end of the datagram. */
  ghost predicate Fitting(q: Queue, f: Fragment) {
    var end := f.Off() + |f.data|;
    && end <= 65535
    && if f.mf then end % 8 == 0 && (q.lastIn ==> end <= q.len)
       else q.len <= end && (q.lastIn ==> end == q.len)
  }

  ghost predicate Overlaps(ps: seq<Piece>, x: Piece) {
    exists i :: 0 <= i < |ps| && Overlap(ps[i], x)
  }

  /** The answer once a fragment has been linked in and nothing fails. */
  ghost predicate Finished(ps: seq<Piece>, f: Fragment, r: Queue, a: Verdict, bad: set<nat> -> bool) {
    if !r.complete then a == InProgress && r.pieces == Insert(ps, f.Raw())
    else if bad(r.ecn) || HeaderWith(ps, f) - 40 + r.len > 65535 then a == InProgress
    else a == Delivered(Glue(Insert(ps, f.Raw()))) && |a.datagram| == r.len
  }

  /** Main result, for arbitrary fragments.  A fragment whose end is beyond the maximum, not on a
      unit although more are to come, or contradicts what is known is refused and changes nothing.
      Otherwise the end is noted.  An empty fragment is refused, one that overlaps kills the queue,
      and any other one is linked in and its codepoint noted.  The queue is finished exactly if the
      last fragment is known and nothing is missing; then nothing comes of it for a forbidden
      combination of codepoints or for its size, and otherwise the datagram is delivered. */
  lemma {:induction false} Outcome(q: Queue, f: Fragment, bad: set<nat> -> bool)
    requires Sound(q) && !q.complete
    ensures var (r, a) := Receive(q, f, CALM, bad);
      var end := f.Off() + |f.data|;
      if !Fitting(q, f) then r == q && a == Invalid
      else
        && r.len == (if end > q.len then end else q.len) && r.lastIn == (q.lastIn || !f.mf)
        && if f.data == [] then a == Invalid && !r.complete && r.pieces == q.pieces && r.ecn == q.ecn
           else if Overlaps(q.pieces, f.Raw()) then a == Invalid && r.complete
           else
             && r.ecn == q.ecn + {f.ecn}
             && (r.complete <==> r.lastIn && FullWith(q.pieces, f.Raw(), r.len))
             && Finished(q.pieces, f, r, a, bad)
  {
    if Fitting(q, f) {
      FittingNoted(q, f);
      if f.data != [] {
        NeighboursSuffice(q.pieces, f.Raw(), NoteEnd(q, f).queue.len);
        if !Overlaps(q.pieces, f.Raw()) { LinkedOutcome(q, f, bad); }
      }
    }
  }

  lemma {:induction false} LinkedOutcome(q: Queue, f: Fragment, bad: set<nat> -> bool)
    requires Sound(q) && !q.complete && Fitting(q, f) && f.data != [] && !HitsNeighbour(q.pieces, f.Raw())
    ensures var (r, a) := Receive(q, f, CALM, bad);
      && r.len == NoteEnd(q, f).queue.len && r.lastIn == (q.lastIn || !f.mf) && r.ecn == q.ecn + {f.ecn}
      && (r.complete <==> r.lastIn && FullWith(q.pieces, f.Raw(), r.len))
      && Finished(q.pieces, f, r, a, bad)
  {
    FittingNoted(q, f);
    InsertedSound(NoteEnd(q, f).queue, f);
    TestOutcome(NoteEnd(q, f).queue, f, bad);
  }

  lemma FittingNoted(q: Queue, f: Fragment)
    requires Sound(q) && !q.complete && Fitting(q, f)
    ensures var n := NoteEnd(q, f);
      && n.Noted? && Sound(n.queue) && n.queue.pieces == q.pieces && n.queue.ecn == q.ecn && !n.queue.complete
      && n.queue.len == (if f.Raw().End() > q.len then f.Raw().End() else q.len) && n.queue.lastIn == (q.lastIn || !f.mf)
  {
  }

  ghost function Inserted(q: Queue, f: Fragment): Queue {
    q.(pieces := Insert(q.pieces, f.Raw()), meat := q.meat + |f.data|, ecn := q.ecn + {f.ecn},
       firstIn := q.firstIn || f.Off() == 0)
  }

  lemma {:induction false} InsertedSound(q: Queue, f: Fragment)
    requires Sound(q) && !q.complete && f.data != [] && f.Raw().End() <= q.len && !HitsNeighbour(q.pieces, f.Raw())
    ensures Sound(Inserted(q, f)) && Link(q, f) == (Inserted(q, f), true)
    ensures CoversAll(Inserted(q, f).pieces, q.len) <==> FullWith(q.pieces, f.Raw(), q.len)
  {
    LinkKeeps(q, f);
    InsertKeeps(q.pieces, f.Raw(), q.len);
  }

  lemma {:induction false} TestedExactly(g: Queue)
    requires Sound(g) && !g.complete && g.len > 0
    ensures g.firstIn && g.lastIn && g.meat == g.len <==> g.lastIn && CoversAll(g.pieces, g.len)
    ensures g.meat == g.len ==> |Glue(g.pieces)| == g.len
  {
    CounterMeansComplete(g.pieces, g.len);
    if CoversAll(g.pieces, g.len) { assert Covered(g.pieces, 0); }
    if g.meat == g.len { GlueLength(g.pieces, 0, g.len); }
  }

  lemma {:induction false} GlueLength(ps: seq<Piece>, lo: nat, hi: nat)
    requires Tiles(ps, lo, hi)
    ensures lo <= hi && |Glue(ps)| == hi - lo
  {
    if ps != [] { GlueLength(ps[1..], ps[0].End(), hi); }
  }

  /** The piece at the start of a complete queue. */
  lemma {:induction false} FirstHeader(q: Queue, f: Fragment)
    requires Sound(q) && !q.complete && f.data != [] && f.Raw().End() <= q.len && !HitsNeighbour(q.pieces, f.Raw())
    requires CoversAll(Inserted(q, f).pieces, q.len)
    ensures Inserted(q, f).pieces != [] && Inserted(q, f).pieces[0].hdr == HeaderWith(q.pieces, f)
  {
    InsertedSound(q, f);
    InsertFirst(q.pieces, f.Raw());
    assert Covered(Inserted(q, f).pieces, 0);
  }

  /** The completion test after an insertion, and what follows. */
  lemma {:induction false} TestOutcome(q: Queue, f: Fragment, bad: set<nat> -> bool)
    requires Sound(q) && !q.complete && f.data != [] && f.Raw().End() <= q.len && !HitsNeighbour(q.pieces, f.Raw())
    ensures var g := Inserted(q, f);
      var done := g.firstIn && g.lastIn && g.meat == g.len;
      var (r, a) := if done then Reassemble(g, Slot(q.pieces, f.Off()) > 0, CALM, bad) else (g, InProgress);
      && r.ecn == q.ecn + {f.ecn} && r.len == q.len && r.lastIn == q.lastIn
      && (r.complete <==> q.lastIn && FullWith(q.pieces, f.Raw(), q.len))
      && Finished(q.pieces, f, r, a, bad)
  {
    var g := Inserted(q, f);
    InsertedSound(q, f);
    TestedExactly(g);
    if g.lastIn && CoversAll(g.pieces, g.len) { FirstHeader(q, f); }
  }

  /** Some service has failed. */
  predicate Fails(env: Env) {
    !(env.pull && env.trim && env.clone && env.unclone)
  }

  /** A failing service can only keep the fragment out, or make nothing of a complete queue. */
  lemma {:induction false} ServicesOnlyFail(q: Queue, f: Fragment, env: Env, bad: set<nat> -> bool)
    requires Sound(q) && !q.complete
    ensures var (r, a) := Receive(q, f, env, bad);
      || (r, a) == Receive(q, f, CALM, bad)
      || (Fails(env) && ((a == Invalid && r.pieces == q.pieces && !r.complete) || (a == InProgress && r.complete)))
  {
  }
}
