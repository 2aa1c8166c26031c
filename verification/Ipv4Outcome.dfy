/** What a call of ip_frag_queue (linux/compat/ip_fragment.c) comes to, for every sound queue and
    every fragment, in terms of the positions held, the end and the codepoints seen; and what the
    failure of a kernel service changes about that. */
module Ipv4Outcome {
  import opened Pieces
  import opened InetFrag
  import opened Ipv4Reassembly
  import opened Ipv4RoundTrip

  /** The end of the fragment goes with what is known of the end of the datagram: a last fragment
      ends where an earlier one did, and no fragment lies beyond it. */
  ghost predicate Fitting(q: Queue, f: Fragment) {
    if f.mf then q.lastIn ==> f.End() <= q.len
    else q.len <= f.End() && (q.lastIn ==> f.End() == q.len)
  }

  /** One piece that starts before holds all of the newcomer. */
  ghost predicate Hidden(ps: seq<Piece>, x: Piece) {
    exists i :: 0 <= i < |ps| && ps[i].off < x.off && x.End() <= ps[i].End()
  }

  /** Main result, for arbitrary fragments.  A fragment whose end contradicts what is known is
      refused and changes nothing.  Otherwise the end is noted.  An empty fragment, or one that an
      earlier piece hides, is dropped.  Any other one is linked in and its codepoint noted; the
      queue is finished exactly if the last fragment is known and nothing is missing, and then the
      datagram is refused for a forbidden combination of codepoints or for its size, or else
      delivered. */
  lemma {:induction false} Outcome(q: Queue, f: Fragment, bad: set<nat> -> bool)
    requires Sound(q) && !q.complete
    ensures var (r, a) := Receive(q, f, CALM, bad);
      if !Fitting(q, f) then r == q && a == Dropped(Invalid)
      else
        && r.len == (if f.End() > q.len then f.End() else q.len) && r.lastIn == (q.lastIn || !f.mf)
        && if f.End() == f.Off() || Hidden(q.pieces, f.Body()) then
             a == Dropped(Invalid) && !r.complete && r.pieces == q.pieces && r.ecn == q.ecn
           else
             && r.ecn == q.ecn + {f.ecn}
             && (r.complete <==> r.lastIn && FullWith(q.pieces, f.Body(), r.len))
             && Finished(q.pieces, f, r, a, bad)
  {
    if Fitting(q, f) {
      FittingNoted(q, f);
      if f.End() != f.Off() {
        var n := NoteEnd(q, f).queue;
        HiddenExactly(n.pieces, f.Body(), n.len);
        if Hidden(n.pieces, f.Body()) {
          AfterPreviousFits(n.pieces, f.Body(), n.len);
        } else {
          ReceiveGrows(q, f, bad);
          FinishOutcome(n, f, bad);
        }
      }
    }
  }

  /** The answer once a fragment has been linked in and nothing fails. */
  ghost predicate Finished(ps: seq<Piece>, f: Fragment, r: Queue, a: Verdict, bad: set<nat> -> bool) {
    if !r.complete then a == InProgress
    else if bad(r.ecn) then a == Dropped(Invalid)
    else if HeaderWith(ps, f) + r.len > 65535 then a == Dropped(TooBig)
    else a.Delivered? && |a.datagram| == r.len
  }

  lemma FittingNoted(q: Queue, f: Fragment)
    requires Sound(q) && !q.complete && Fitting(q, f)
    ensures var n := NoteEnd(q, f);
      && n.Noted? && Sound(n.queue) && n.queue.pieces == q.pieces && n.queue.ecn == q.ecn && !n.queue.complete
      && n.queue.len == (if f.End() > q.len then f.End() else q.len) && n.queue.lastIn == (q.lastIn || !f.mf)
  {
  }

  /** Nothing is left of the newcomer exactly if a piece that starts before holds all of it. */
  lemma {:induction false} HiddenExactly(ps: seq<Piece>, x: Piece, limit: nat)
    requires Disjoint(ps) && Within(ps, limit) && x.data != []
    ensures Hidden(ps, x) <==> AfterPrevious(ps, x).data == []
  {
    var k := Slot(ps, x.off);
    AfterPreviousFits(ps, x, limit);
    if Hidden(ps, x) {
      var i :| 0 <= i < |ps| && ps[i].off < x.off && x.End() <= ps[i].End();
      SlotSplits(ps, x.off, i);
    }
    if AfterPrevious(ps, x).data == [] {
      assert k > 0 && ps[k - 1].off < x.off && x.End() <= ps[k - 1].End();
    }
  }

  ghost function Inserted(q: Queue, f: Fragment): Queue {
    var x := f.Body();
    var k, y := Slot(q.pieces, x.off), AfterPrevious(q.pieces, x);
    Grown(q, k, y, Eat(q.pieces[k..], y.End(), true).0, f.ecn)
  }

  lemma {:induction false} InsertedSound(q: Queue, f: Fragment)
    requires Sound(q) && !q.complete && f.Body().data != [] && f.End() <= q.len
    requires AfterPrevious(q.pieces, f.Body()).data != []
    ensures var g := Inserted(q, f);
      && Sound(g) && !g.complete && g.pieces == Merged(q.pieces, f.Body()) && g.len == q.len > 0
      && (CoversAll(g.pieces, g.len) <==> FullWith(q.pieces, f.Body(), q.len))
  {
    AfterPreviousFits(q.pieces, f.Body(), q.len);
    GrownSound(q, Slot(q.pieces, f.Off()), AfterPrevious(q.pieces, f.Body()), f.ecn);
    CoveredMerged(q.pieces, f.Body(), q.len);
  }

  /** The completion test after an insertion. */
  lemma {:induction false} TestedExactly(g: Queue)
    requires Sound(g) && !g.complete && g.len > 0
    ensures g.firstIn && g.lastIn && g.meat == g.len <==> g.lastIn && CoversAll(g.pieces, g.len)
    ensures g.meat == g.len ==> |Glue(g.pieces)| == g.len
  {
    CounterMeansComplete(g.pieces, g.len);
    if CoversAll(g.pieces, g.len) { FirstIsThere(g); }
    if g.meat == g.len { GlueShows(g.pieces, 0, g.len, 0, 0); }
  }

  /** The piece at the start of a complete queue. */
  lemma {:induction false} FirstHeader(q: Queue, f: Fragment)
    requires Sound(q) && !q.complete && f.Body().data != [] && f.End() <= q.len
    requires AfterPrevious(q.pieces, f.Body()).data != [] && CoversAll(Inserted(q, f).pieces, q.len)
    ensures Inserted(q, f).pieces != [] && Inserted(q, f).pieces[0].hdr == HeaderWith(q.pieces, f)
  {
    var g, k := Inserted(q, f), Slot(q.pieces, f.Off());
    InsertedSound(q, f);
    assert g.pieces[0] == if k == 0 then AfterPrevious(q.pieces, f.Body()) else q.pieces[0];
    assert Covered(g.pieces, 0);
  }

  /** What follows after an insertion. */
  lemma {:induction false} FinishOutcome(q: Queue, f: Fragment, bad: set<nat> -> bool)
    requires Sound(q) && !q.complete && f.Body().data != [] && f.End() <= q.len
    requires AfterPrevious(q.pieces, f.Body()).data != []
    ensures var (r, a) := Finish(Inserted(q, f), Slot(q.pieces, f.Off()) > 0, CALM, bad);
      && r.ecn == q.ecn + {f.ecn} && r.len == q.len && r.lastIn == q.lastIn
      && (r.complete <==> q.lastIn && FullWith(q.pieces, f.Body(), q.len))
      && Finished(q.pieces, f, r, a, bad)
  {
    var g := Inserted(q, f);
    InsertedSound(q, f);
    TestedExactly(g);
    if g.lastIn && CoversAll(g.pieces, g.len) { FirstHeader(q, f); }
  }

  // ------------------------------------------------------ services that fail

  /** Some service but the timer has failed. */
  predicate Fails(env: Env) {
    !(env.pullHeader && env.trim && env.pullSelf && env.pullNext && env.clone && env.unclone)
  }

  /** A failing service can only turn the answer into one of lack of memory. */
  lemma {:induction false} ServicesOnlyFail(q: Queue, f: Fragment, env: Env, bad: set<nat> -> bool)
    requires Sound(q) && !q.complete && !env.stale
    ensures Receive(q, f, env, bad) == Receive(q, f, CALM, bad)
      || (Fails(env) && Receive(q, f, env, bad).1 == Dropped(NoMemory))
  {
    if Fitting(q, f) && f.End() != f.Off() && env.pullHeader && env.trim {
      FittingNoted(q, f);
      LinkOnlyFails(NoteEnd(q, f).queue, f.Body(), f.ecn, env, bad);
    }
  }

  lemma {:induction false} LinkOnlyFails(q: Queue, x: Piece, ecn: nat, env: Env, bad: set<nat> -> bool)
    ensures Link(q, x, ecn, env, bad) == Link(q, x, ecn, CALM, bad)
      || (Fails(env) && Link(q, x, ecn, env, bad).1 == Dropped(NoMemory))
  {
    var k, y := Slot(q.pieces, x.off), AfterPrevious(q.pieces, x);
    EatSucceeds(q.pieces[k..], y.End());
    if Eat(q.pieces[k..], y.End(), env.pullNext).1 {
      EatIgnoresPull(q.pieces[k..], y.End(), env.pullNext);
      FinishOnlyFails(Grown(q, k, y, Eat(q.pieces[k..], y.End(), true).0, ecn), k > 0, env, bad);
    }
  }

  lemma FinishOnlyFails(q: Queue, swapHead: bool, env: Env, bad: set<nat> -> bool)
    ensures Finish(q, swapHead, env, bad) == Finish(q, swapHead, CALM, bad)
      || (Fails(env) && Finish(q, swapHead, env, bad).1 == Dropped(NoMemory))
  {
  }

  /** A queue that holds pieces but has become stale is as one that nothing has ever arrived at; if
      its timer cannot be armed again it is killed. */
  lemma StaleIsAfresh(q: Queue, f: Fragment, env: Env, bad: set<nat> -> bool)
    requires !q.complete && q.pieces != [] && env.stale
    ensures Receive(q, f, env, bad) ==
      if env.timerArmed then Receive(Queue([], 0, 0, false, false, false, {}), f, env.(stale := false), bad)
      else (q.(complete := true), Dropped(TimedOut))
  {
  }

  /** A finished queue answers nothing any more. */
  lemma {:induction false} FinishedForGood(q: Queue, steps: seq<Step>, f: Fragment, env: Env, bad: set<nat> -> bool)
    requires q.complete
    ensures Run(q, steps, bad) == q && Receive(Run(q, steps, bad), f, env, bad) == (q, Dropped(NoEntry))
  {
    if steps != [] { FinishedForGood(q, steps[..|steps| - 1], f, env, bad); }
  }
}
