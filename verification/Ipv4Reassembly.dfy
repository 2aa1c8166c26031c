/** Reassembly of one IPv4 datagram (section 3.2 of RFC 791) as ip_frag_queue and
    ip_frag_reasm of linux/compat/ip_fragment.c do it, stated over values.  The queue that
    works on linked buffers is in Ipv4Queue and refines these functions. */
module Ipv4Reassembly {
  import opened Pieces
  import opened InetFrag

  const MAX_IP_PACKET := 65535

  datatype Errno = NoEntry | Invalid | NoMemory | TimedOut | TooBig

  datatype Verdict = Dropped(err: Errno) | InProgress | Delivered(datagram: Bytes)

  /** Outcome of the kernel services one call relies on.  stale stands for the peer having
      sent too many other datagrams meanwhile; every other field is true on success. */
  datatype Env = Env(stale: bool, timerArmed: bool, pullHeader: bool, trim: bool,
                     pullSelf: bool, pullNext: bool, clone: bool, unclone: bool)

  const CALM := Env(false, true, true, true, true, true, true, true)

  /** ip_frag_reinit throws away what was gathered. */
  function Reinit(q: Queue): Queue {
    Queue([], 0, 0, false, false, false, {})
  }

  datatype Noted = Refused | Noted(queue: Queue)

  /** Check a fragment's end against the length known so far and record it. */
  function NoteEnd(q: Queue, f: Fragment): Noted {
    var end := f.End();
    if !f.mf then
      if end < q.len || (q.lastIn && end != q.len) then Refused
      else Noted(q.(lastIn := true, len := end))
    else if end > q.len then
      if q.lastIn then Refused else Noted(q.(len := end))
    else Noted(q)
  }

  /** Cut off what the newcomer covers of the pieces that start at or after it.  The second
      component is false when the buffer of a partly covered piece could not be pulled. */
  function Eat(rest: seq<Piece>, end: nat, pullOk: bool): (seq<Piece>, bool) {
    if rest == [] || rest[0].off >= end then (rest, true)
    else
      var i := end - rest[0].off;
      if i >= |rest[0].data| then Eat(rest[1..], end, pullOk)
      else if !pullOk then (rest, false)
      else ([Piece(end, rest[0].hdr, rest[0].data[i..])] + rest[1..], true)
  }

  /** What is left of the newcomer once the piece before it kept its bytes. */
  function AfterPrevious(ps: seq<Piece>, x: Piece): (y: Piece)
    ensures y.End() == if y.off >= x.End() then y.off else x.End()
    ensures x.off <= y.off
  {
    var k := Slot(ps, x.off);
    if k > 0 && ps[k - 1].End() > x.off then
      if x.End() <= ps[k - 1].End() then Piece(ps[k - 1].End(), x.hdr, [])
      else Piece(ps[k - 1].End(), x.hdr, x.data[ps[k - 1].End() - x.off..])
    else x
  }

  /** The queue once a trimmed newcomer went in after k pieces. */
  function Grown(q: Queue, k: nat, y: Piece, rest: seq<Piece>, ecn: nat): Queue
    requires k <= |q.pieces|
  {
    q.(pieces := q.pieces[..k] + [y] + rest,
       meat := q.meat - Total(q.pieces[k..]) + Total(rest) + |y.data|,
       ecn := q.ecn + {ecn}, firstIn := q.firstIn || y.off == 0)
  }

  /** Find the place of a checked fragment, settle overlaps, insert, test for completion. */
  function Link(q: Queue, x: Piece, ecn: nat, env: Env, bad: set<nat> -> bool): (Queue, Verdict) {
    var k := Slot(q.pieces, x.off);
    var y := AfterPrevious(q.pieces, x);
    if y != x && y.data == [] then (q, Dropped(Invalid))
    else if y != x && !env.pullSelf then (q, Dropped(NoMemory))
    else Settle(q, k, y, ecn, env, bad)
  }

  /** Clear the way for a trimmed newcomer that goes in after k pieces, and insert it. */
  function Settle(q: Queue, k: nat, y: Piece, ecn: nat, env: Env, bad: set<nat> -> bool): (Queue, Verdict)
    requires k <= |q.pieces|
  {
    var (rest, ok) := Eat(q.pieces[k..], y.End(), env.pullNext);
    if ok then Finish(Grown(q, k, y, rest, ecn), k > 0, env, bad)
    else
      (q.(pieces := q.pieces[..k] + rest, meat := q.meat - Total(q.pieces[k..]) + Total(rest)), Dropped(NoMemory))
  }

  /** The completion test after an insertion. */
  function Finish(q: Queue, swapHead: bool, env: Env, bad: set<nat> -> bool): (Queue, Verdict) {
    if q.firstIn && q.lastIn && q.meat == q.len then Reassemble(q, swapHead, env, bad)
    else (q, InProgress)
  }

  /** ip_frag_reasm: the queue is killed first, whatever happens afterwards. */
  function Reassemble(q: Queue, swapHead: bool, env: Env, bad: set<nat> -> bool): (Queue, Verdict) {
    var dead := q.(complete := true);
    if bad(q.ecn) then (dead, Dropped(Invalid))
    else if swapHead && !env.clone then (dead, Dropped(NoMemory))
    else if (if q.pieces == [] then 0 else q.pieces[0].hdr) + q.len > MAX_IP_PACKET then (dead, Dropped(TooBig))
    else if !env.unclone then (dead, Dropped(NoMemory))
    else (dead.(pieces := []), Delivered(Glue(q.pieces)))
  }

  /** ip_frag_queue as a whole. */
  function Receive(q: Queue, f: Fragment, env: Env, bad: set<nat> -> bool): (Queue, Verdict) {
    if q.complete then (q, Dropped(NoEntry))
    else if env.stale && q.pieces != [] && !env.timerArmed then (q.(complete := true), Dropped(TimedOut))
    else
      var q0 := if env.stale && q.pieces != [] then Reinit(q) else q;
      match NoteEnd(q0, f)
      case Refused => (q0, Dropped(Invalid))
      case Noted(q1) => Examine(q1, f, env, bad)
  }

  /** A fragment whose end was recorded: drop it if empty, cut it to size and link it in. */
  function Examine(q: Queue, f: Fragment, env: Env, bad: set<nat> -> bool): (Queue, Verdict) {
    if f.End() == f.Off() then (q, Dropped(Invalid))
    else if !env.pullHeader || !env.trim then (q, Dropped(NoMemory))
    else Link(q, f.Body(), f.ecn, env, bad)
  }

  // ---------------------------------------------------------------- the queue invariant

  lemma {:induction false} EatKeeps(rest: seq<Piece>, end: nat, pullOk: bool, limit: nat)
    requires Disjoint(rest) && Within(rest, limit)
    ensures var (r, ok) := Eat(rest, end, pullOk);
      && Disjoint(r) && Within(r, limit)
      && (r != [] && rest != [] ==> rest[0].off <= r[0].off)
      && (ok && r != [] ==> end <= r[0].off)
      && (!ok ==> r != [])
  {
    if rest != [] && rest[0].off < end {
      var i := end - rest[0].off;
      if i >= |rest[0].data| {
        EatKeeps(rest[1..], end, pullOk, limit);
      } else if pullOk {
        assert [Piece(end, rest[0].hdr, rest[0].data[i..])] + rest[1..] == Eat(rest, end, pullOk).0;
        JoinSorted([Piece(end, rest[0].hdr, rest[0].data[i..])], rest[1..], limit);
      }
    }
  }

  /** The piece in front always ends at or before the trimmed newcomer. */
  lemma AfterPreviousFits(ps: seq<Piece>, x: Piece, limit: nat)
    requires Disjoint(ps) && Within(ps, limit) && x.data != []
    ensures var k := Slot(ps, x.off);
      var y := AfterPrevious(ps, x);
      && (k > 0 ==> ps[k - 1].End() <= y.off)
      && (k > 0 ==> y.off > 0)
      && (y.data != [] ==> y.End() == x.End())
      && (y.data == [] ==> y != x)
  {
  }

  /** Inserting the trimmed newcomer between what is left on both sides. */
  lemma SpliceKeeps(front: seq<Piece>, y: Piece, rest: seq<Piece>, limit: nat)
    requires Disjoint(front) && Within(front, limit) && Disjoint(rest) && Within(rest, limit)
    requires y.data != [] && y.End() <= limit
    requires front != [] ==> front[|front| - 1].End() <= y.off
    requires rest != [] ==> y.End() <= rest[0].off
    ensures Disjoint(front + [y] + rest) && Within(front + [y] + rest, limit)
    ensures Total(front + [y] + rest) == Total(front) + |y.data| + Total(rest)
  {
    JoinSorted(front, [y], limit);
    JoinSorted(front + [y], rest, limit);
    TotalConcat(front + [y], rest);
    TotalConcat(front, [y]);
    TotalOne(y);
  }

  lemma GrownSound(q: Queue, k: nat, y: Piece, ecn: nat)
    requires Sound(q) && !q.complete && k <= |q.pieces|
    requires y.data != [] && y.End() <= q.len
    requires k > 0 ==> q.pieces[k - 1].End() <= y.off
    ensures Sound(Grown(q, k, y, Eat(q.pieces[k..], y.End(), true).0, ecn))
  {
    var front, back := q.pieces[..k], q.pieces[k..];
    var rest := Eat(back, y.End(), true).0;
    SplitSorted(q.pieces, k, q.len);
    EatSucceeds(back, y.End());
    EatKeeps(back, y.End(), true, q.len);
    SpliceKeeps(front, y, rest, q.len);
    TotalSplit(q.pieces, k);
    GrownFirst(q, k, y, rest, ecn);
  }

  lemma GrownFirst(q: Queue, k: nat, y: Piece, rest: seq<Piece>, ecn: nat)
    requires k <= |q.pieces|
    requires q.pieces != [] && q.pieces[0].off == 0 ==> q.firstIn
    ensures var g := Grown(q, k, y, rest, ecn); g.pieces[0].off == 0 ==> g.firstIn
  {
    assert Grown(q, k, y, rest, ecn).pieces[0] == if k == 0 then y else q.pieces[0];
  }

  lemma {:induction false} EatSucceeds(rest: seq<Piece>, end: nat)
    ensures Eat(rest, end, true).1
  {
    if rest != [] && rest[0].off < end && end - rest[0].off >= |rest[0].data| {
      EatSucceeds(rest[1..], end);
    }
  }

  /** When eating succeeds, the pull result did not matter. */
  lemma {:induction false} EatIgnoresPull(rest: seq<Piece>, end: nat, pullOk: bool)
    requires Eat(rest, end, pullOk).1
    ensures Eat(rest, end, pullOk) == Eat(rest, end, true)
  {
    if rest != [] && rest[0].off < end && end - rest[0].off >= |rest[0].data| {
      EatIgnoresPull(rest[1..], end, pullOk);
    }
  }

  /** A failed pull leaves the newcomer out but the queue consistent. */
  lemma StuckSound(q: Queue, k: nat, end: nat)
    requires Sound(q) && !q.complete && k <= |q.pieces|
    ensures var rest := Eat(q.pieces[k..], end, false).0;
      Sound(q.(pieces := q.pieces[..k] + rest, meat := q.meat - Total(q.pieces[k..]) + Total(rest)))
  {
    var front, back := q.pieces[..k], q.pieces[k..];
    var rest := Eat(back, end, false).0;
    SplitSorted(q.pieces, k, q.len);
    EatKeeps(back, end, false, q.len);
    TotalSplit(q.pieces, k);
    TotalConcat(front, rest);
    JoinSorted(front, rest, q.len);
    if front + rest != [] { StuckFirst(q.pieces, k, rest); }
  }

  lemma StuckFirst(ps: seq<Piece>, k: nat, rest: seq<Piece>)
    requires k <= |ps| && ps[..k] + rest != [] && (rest != [] ==> ps[k..] != [] && ps[k].off <= rest[0].off)
    ensures ps != [] && ps[0].off <= (ps[..k] + rest)[0].off
  {
    if k == 0 { assert ps[k..] == ps; }
  }

  lemma SettleKeeps(q: Queue, k: nat, y: Piece, ecn: nat, env: Env, bad: set<nat> -> bool)
    requires Sound(q) && !q.complete && k <= |q.pieces|
    requires y.data != [] && y.End() <= q.len
    requires k > 0 ==> q.pieces[k - 1].End() <= y.off
    ensures Sound(Settle(q, k, y, ecn, env, bad).0)
  {
    var (rest, ok) := Eat(q.pieces[k..], y.End(), env.pullNext);
    if ok {
      EatIgnoresPull(q.pieces[k..], y.End(), env.pullNext);
      GrownSound(q, k, y, ecn);
      FinishKeeps(Grown(q, k, y, rest, ecn), k > 0, env, bad);
    } else {
      EatSucceeds(q.pieces[k..], y.End());
      StuckSound(q, k, y.End());
    }
  }

  lemma LinkKeeps(q: Queue, x: Piece, ecn: nat, env: Env, bad: set<nat> -> bool)
    requires Sound(q) && !q.complete && x.data != [] && x.End() <= q.len
    ensures Sound(Link(q, x, ecn, env, bad).0)
  {
    var k := Slot(q.pieces, x.off);
    var y := AfterPrevious(q.pieces, x);
    AfterPreviousFits(q.pieces, x, q.len);
    if y.data != [] && (y == x || env.pullSelf) {
      SettleKeeps(q, k, y, ecn, env, bad);
    }
  }

  lemma FinishKeeps(q: Queue, swapHead: bool, env: Env, bad: set<nat> -> bool)
    requires Sound(q) && !q.complete
    ensures Sound(Finish(q, swapHead, env, bad).0)
  {
  }

  lemma TotalSplit(ps: seq<Piece>, k: nat)
    requires k <= |ps|
    ensures Total(ps) == Total(ps[..k]) + Total(ps[k..])
  {
    assert ps[..k] + ps[k..] == ps;
    TotalConcat(ps[..k], ps[k..]);
  }

  /** Main result: every call keeps the invariant, whatever the fragment and whichever
      kernel service fails, through rejection, trimming, replacement and reinit. */
  lemma ReceiveKeepsSound(q: Queue, f: Fragment, env: Env, bad: set<nat> -> bool)
    requires Sound(q)
    ensures Sound(Receive(q, f, env, bad).0)
  {
    if !q.complete && !(env.stale && q.pieces != [] && !env.timerArmed) {
      var q0 := if env.stale && q.pieces != [] then Reinit(q) else q;
      match NoteEnd(q0, f) {
        case Refused =>
        case Noted(q1) =>
          if f.End() != f.Off() {
            LinkKeeps(q1, f.Body(), f.ecn, env, bad);
          }
      }
    }
  }

  datatype Step = Step(fragment: Fragment, env: Env)

  /** The queue after a run of calls. */
  function Run(q: Queue, steps: seq<Step>, bad: set<nat> -> bool): Queue {
    if steps == [] then q
    else
      var last := steps[|steps| - 1];
      Receive(Run(q, steps[..|steps| - 1], bad), last.fragment, last.env, bad).0
  }

  /** Safety over whole runs: in every reachable live queue the counter never exceeds the
      length, and it equals the length exactly when the pieces fill [0, len) without a gap; so
      the completion test holds exactly when the last fragment is known and no position is
      missing. */
  lemma ReachableCounterTest(ecn: nat, steps: seq<Step>, bad: set<nat> -> bool)
    ensures var q := Run(NewQueue(ecn), steps, bad);
      && Sound(q)
      && (!q.complete ==>
        && q.meat <= q.len && (q.meat == q.len <==> Tiles(q.pieces, 0, q.len))
        && (q.firstIn && q.lastIn && q.meat == q.len <==> q.lastIn && q.len > 0 && CoversAll(q.pieces, q.len)))
  {
    RunSound(ecn, steps, bad);
    RunFirst(ecn, steps, bad);
    var q := Run(NewQueue(ecn), steps, bad);
    if !q.complete {
      CounterMeansComplete(q.pieces, q.len);
      if q.len > 0 && CoversAll(q.pieces, q.len) { FirstIsThere(q); }
    }
  }

  lemma FirstIsThere(q: Queue)
    requires Sound(q) && q.len > 0 && CoversAll(q.pieces, q.len)
    ensures q.firstIn
  {
    assert Covered(q.pieces, 0);
    var i :| 0 <= i < |q.pieces| && Holds(q.pieces[i], 0);
    assert q.pieces[0].off == 0;
  }

  lemma ReceiveKeepsFirst(q: Queue, f: Fragment, env: Env, bad: set<nat> -> bool)
    requires q.firstIn ==> q.len > 0
    ensures var r := Receive(q, f, env, bad).0; r.firstIn ==> r.len > 0
  {
    if !q.complete && !(env.stale && q.pieces != [] && !env.timerArmed) {
      var q0 := if env.stale && q.pieces != [] then Reinit(q) else q;
      match NoteEnd(q0, f) {
        case Refused =>
        case Noted(q1) =>
          LinkLength(q1, f.Body(), f.ecn, env, bad);
      }
    }
  }

  lemma LinkLength(q: Queue, x: Piece, ecn: nat, env: Env, bad: set<nat> -> bool)
    ensures Link(q, x, ecn, env, bad).0.len == q.len
  {
  }

  lemma {:induction false} RunFirst(ecn: nat, steps: seq<Step>, bad: set<nat> -> bool)
    ensures var q := Run(NewQueue(ecn), steps, bad); q.firstIn ==> q.len > 0
  {
    if steps != [] {
      var before := steps[..|steps| - 1];
      RunFirst(ecn, before, bad);
      ReceiveKeepsFirst(Run(NewQueue(ecn), before, bad), steps[|steps| - 1].fragment, steps[|steps| - 1].env, bad);
    }
  }

  lemma {:induction false} RunSound(ecn: nat, steps: seq<Step>, bad: set<nat> -> bool)
    ensures Sound(Run(NewQueue(ecn), steps, bad))
  {
    if steps != [] {
      var before := steps[..|steps| - 1];
      RunSound(ecn, before, bad);
      ReceiveKeepsSound(Run(NewQueue(ecn), before, bad),
        steps[|steps| - 1].fragment, steps[|steps| - 1].env, bad);
    }
  }

  // ------------------------------------------------------- which bytes a fragment leaves

  /** The queue shows byte b at position p. */
  ghost predicate ShowsByte(ps: seq<Piece>, p: int, b: bv8) {
    exists i :: 0 <= i < |ps| && Holds(ps[i], p) && ps[i].data[p - ps[i].off] == b
  }

  /** Some piece that starts before off reaches over position p. */
  ghost predicate HeldFromBefore(ps: seq<Piece>, off: nat, p: int) {
    exists i :: 0 <= i < |ps| && ps[i].off < off && Holds(ps[i], p)
  }

  lemma ShowsByteConcat(a: seq<Piece>, b: seq<Piece>, p: int, v: bv8)
    ensures ShowsByte(a + b, p, v) <==> ShowsByte(a, p, v) || ShowsByte(b, p, v)
  {
    var c := a + b;
    if ShowsByte(c, p, v) {
      var i :| 0 <= i < |c| && Holds(c[i], p) && c[i].data[p - c[i].off] == v;
      if i < |a| { assert a[i] == c[i]; } else { assert b[i - |a|] == c[i]; }
    }
    if ShowsByte(a, p, v) {
      var i :| 0 <= i < |a| && Holds(a[i], p) && a[i].data[p - a[i].off] == v;
      assert c[i] == a[i];
    }
    if ShowsByte(b, p, v) {
      var i :| 0 <= i < |b| && Holds(b[i], p) && b[i].data[p - b[i].off] == v;
      assert c[i + |a|] == b[i];
    }
  }

  lemma CutShows(x: Piece, end: nat, p: int, v: bv8)
    requires x.off < end < x.End()
    ensures ShowsByte([Piece(end, x.hdr, x.data[end - x.off..])], p, v) <==> p >= end && ShowsByte([x], p, v)
  {
    ShowsByteOne(x, p, v);
    ShowsByteOne(Piece(end, x.hdr, x.data[end - x.off..]), p, v);
  }

  lemma {:induction false} EatShows(rest: seq<Piece>, end: nat, limit: nat, p: int, v: bv8)
    requires Disjoint(rest) && Within(rest, limit)
    ensures Eat(rest, end, true).1
    ensures ShowsByte(Eat(rest, end, true).0, p, v) <==> p >= end && ShowsByte(rest, p, v)
  {
    if rest == [] {
    } else {
      var head, tail := rest[0], rest[1..];
      assert rest == [head] + tail;
      ShowsByteConcat([head], tail, p, v);
      if head.off >= end {
        if ShowsByte(rest, p, v) {
          var i :| 0 <= i < |rest| && Holds(rest[i], p);
          assert head.off <= rest[i].off;
        }
      } else if end - head.off >= |head.data| {
        EatShows(tail, end, limit, p, v);
        assert p >= end ==> !ShowsByte([head], p, v);
      } else {
        var cut := Piece(end, head.hdr, head.data[end - head.off..]);
        ShowsByteConcat([cut], tail, p, v);
        CutShows(head, end, p, v);
        if ShowsByte(tail, p, v) {
          var i :| 0 <= i < |tail| && Holds(tail[i], p);
          assert tail[i] == rest[i + 1];
        }
      }
    }
  }

  /** The newcomer as trimmed shows its own bytes except where a piece that started before
      it already holds the position. */
  lemma TrimmedShows(ps: seq<Piece>, x: Piece, limit: nat, p: int, v: bv8)
    requires Disjoint(ps) && Within(ps, limit) && x.data != []
    ensures ShowsByte([AfterPrevious(ps, x)], p, v) <==>
      Holds(x, p) && x.data[p - x.off] == v && !HeldFromBefore(ps, x.off, p)
  {
    var k := Slot(ps, x.off);
    var y := AfterPrevious(ps, x);
    if ShowsByte([y], p, v) {
      assert Holds(y, p);
      forall i | 0 <= i < |ps| && ps[i].off < x.off
        ensures !Holds(ps[i], p)
      {
        SlotSplits(ps, x.off, i);
        if i < k - 1 { BeforeAfter(ps, i, k - 1); }
      }
    }
    if Holds(x, p) && x.data[p - x.off] == v && !HeldFromBefore(ps, x.off, p) {
      if k > 0 {
        assert !(ps[k - 1].off < x.off && Holds(ps[k - 1], p));
      }
      assert Holds([y][0], p);
    }
  }

  /** The byte at position p once an insertion was answered: in the queue, or in the datagram if it
      was the last one missing. */
  ghost predicate ShownAfter(q: Queue, a: Verdict, p: int, v: bv8) {
    if a.Delivered? then 0 <= p < |a.datagram| && a.datagram[p] == v else ShowsByte(q.pieces, p, v)
  }

  /** Main result, for arbitrary and possibly contradictory fragments.  A fragment that is not
      dropped leaves position p with its own byte if it holds p and no piece that started before
      it does, and every other position with what it showed before (nothing, if the queue was
      stale and started afresh).  That is so for the datagram as well, if the fragment completes
      it. */
  lemma OverlapRule(q: Queue, f: Fragment, env: Env, bad: set<nat> -> bool, p: int, v: bv8)
    requires Sound(q) && !Receive(q, f, env, bad).1.Dropped?
    ensures var ps := if env.stale then [] else q.pieces;
      ShownAfter(Receive(q, f, env, bad).0, Receive(q, f, env, bad).1, p, v) <==>
      if Holds(f.Body(), p) && !HeldFromBefore(ps, f.Off(), p) then f.Body().data[p - f.Off()] == v
      else ShowsByte(ps, p, v)
  {
    ReceiveIsLink(q, f, env, bad);
    LinkOverlap(NoteEnd(Started(q, env), f).queue, f.Body(), f.ecn, env, bad, p, v);
  }

  /** The queue that a fragment meets. */
  function Started(q: Queue, env: Env): Queue {
    if env.stale && q.pieces != [] then Reinit(q) else q
  }

  /** A fragment that is not dropped has its end noted and is linked in. */
  lemma ReceiveIsLink(q: Queue, f: Fragment, env: Env, bad: set<nat> -> bool)
    requires Sound(q) && !Receive(q, f, env, bad).1.Dropped?
    ensures NoteEnd(Started(q, env), f).Noted?
    ensures var q1 := NoteEnd(Started(q, env), f).queue;
      && Receive(q, f, env, bad) == Link(q1, f.Body(), f.ecn, env, bad)
      && Sound(q1) && !q1.complete && f.Body().data != [] && f.Body().End() <= q1.len
      && q1.pieces == if env.stale then [] else q.pieces
  {
    NoteKeeps(Started(q, env), f);
  }

  lemma NoteKeeps(q: Queue, f: Fragment)
    requires Sound(q) && !q.complete && NoteEnd(q, f).Noted?
    ensures Sound(NoteEnd(q, f).queue) && f.End() <= NoteEnd(q, f).queue.len && NoteEnd(q, f).queue.pieces == q.pieces
  {
  }

  lemma LinkOverlap(q: Queue, x: Piece, ecn: nat, env: Env, bad: set<nat> -> bool, p: int, v: bv8)
    requires Sound(q) && !q.complete && x.data != [] && x.End() <= q.len
    requires !Link(q, x, ecn, env, bad).1.Dropped?
    ensures ShownAfter(Link(q, x, ecn, env, bad).0, Link(q, x, ecn, env, bad).1, p, v) <==>
      if Holds(x, p) && !HeldFromBefore(q.pieces, x.off, p) then x.data[p - x.off] == v
      else ShowsByte(q.pieces, p, v)
  {
    LinkProgress(q, x, ecn, env, bad);
    LinkShows(q, x, ecn, env, bad, p, v);
    MergedShows(q.pieces, x, q.len, p, v);
  }

  lemma LinkShows(q: Queue, x: Piece, ecn: nat, env: Env, bad: set<nat> -> bool, p: int, v: bv8)
    requires Sound(q) && !q.complete && x.data != [] && x.End() <= q.len
    requires !Link(q, x, ecn, env, bad).1.Dropped?
    ensures ShownAfter(Link(q, x, ecn, env, bad).0, Link(q, x, ecn, env, bad).1, p, v) <==> ShowsByte(Merged(q.pieces, x), p, v)
  {
    LinkProgress(q, x, ecn, env, bad);
    if Link(q, x, ecn, env, bad).1.Delivered? {
      GlueShows(Merged(q.pieces, x), 0, q.len, p, v);
    }
  }

  /** A position of a glued tiling shows the byte of the piece that holds it. */
  lemma {:induction false} GlueShows(ps: seq<Piece>, lo: nat, hi: nat, p: int, v: bv8)
    requires Tiles(ps, lo, hi)
    ensures lo <= hi && |Glue(ps)| == hi - lo
    ensures ShowsByte(ps, p, v) <==> lo <= p < hi && Glue(ps)[p - lo] == v
  {
    if ps != [] {
      var mid := ps[0].End();
      GlueShows(ps[1..], mid, hi, p, v);
      assert ps == [ps[0]] + ps[1..];
      ShowsByteConcat([ps[0]], ps[1..], p, v);
      ShowsByteOne(ps[0], p, v);
    }
  }

  lemma ShowsByteOne(x: Piece, p: int, v: bv8)
    ensures ShowsByte([x], p, v) <==> Holds(x, p) && x.data[p - x.off] == v
  {
    assert [x][0] == x;
  }

  lemma SettleProgress(q: Queue, k: nat, y: Piece, ecn: nat, env: Env, bad: set<nat> -> bool)
    requires k <= |q.pieces| && !Settle(q, k, y, ecn, env, bad).1.Dropped?
    ensures Settle(q, k, y, ecn, env, bad) == Finish(Grown(q, k, y, Eat(q.pieces[k..], y.End(), true).0, ecn), k > 0, env, bad)
  {
    EatIgnoresPull(q.pieces[k..], y.End(), env.pullNext);
  }

  lemma LinkProgress(q: Queue, x: Piece, ecn: nat, env: Env, bad: set<nat> -> bool)
    requires Sound(q) && !q.complete && x.data != [] && x.End() <= q.len
    requires !Link(q, x, ecn, env, bad).1.Dropped?
    ensures AfterPrevious(q.pieces, x).data != []
    ensures var (r, a) := Link(q, x, ecn, env, bad);
      if a.Delivered? then Tiles(Merged(q.pieces, x), 0, q.len) && a.datagram == Glue(Merged(q.pieces, x))
      else r.pieces == Merged(q.pieces, x)
  {
    var k, y := Slot(q.pieces, x.off), AfterPrevious(q.pieces, x);
    AfterPreviousFits(q.pieces, x, q.len);
    SettleProgress(q, k, y, ecn, env, bad);
    GrownSound(q, k, y, ecn);
    var g := Grown(q, k, y, Eat(q.pieces[k..], y.End(), true).0, ecn);
    CounterMeansComplete(g.pieces, g.len);
  }

  /** The list after a successful insertion. */
  function Merged(ps: seq<Piece>, x: Piece): seq<Piece> {
    var k := Slot(ps, x.off);
    var y := AfterPrevious(ps, x);
    ps[..k] + [y] + Eat(ps[k..], y.End(), true).0
  }

  lemma SlotSplits(ps: seq<Piece>, off: nat, i: nat)
    requires Disjoint(ps) && i < |ps|
    ensures ps[i].off < off <==> i < Slot(ps, off)
  {
    var k := Slot(ps, off);
    if k < i { BeforeAfter(ps, k, i); }
  }

  lemma BeforeAfter(ps: seq<Piece>, i: nat, j: nat)
    requires Disjoint(ps) && i < j < |ps|
    ensures ps[i].off <= ps[i].End() <= ps[j].off
  {
  }

  lemma ShownIsCovered(ps: seq<Piece>, p: int, v: bv8)
    ensures ShowsByte(ps, p, v) ==> Covered(ps, p)
  {
  }

  lemma HeldByFront(ps: seq<Piece>, off: nat, p: int)
    ensures HeldFromBefore(ps, off, p) ==> Disjoint(ps) ==> Covered(ps[..Slot(ps, off)], p)
    ensures Covered(ps[..Slot(ps, off)], p) ==> HeldFromBefore(ps, off, p)
  {
    var k := Slot(ps, off);
    if HeldFromBefore(ps, off, p) && Disjoint(ps) {
      var i :| 0 <= i < |ps| && ps[i].off < off && Holds(ps[i], p);
      SlotSplits(ps, off, i);
      assert Holds(ps[..k][i], p);
    }
    if Covered(ps[..k], p) {
      var i :| 0 <= i < k && Holds(ps[..k][i], p);
      assert ps[i].off < off && Holds(ps[i], p);
    }
  }

  lemma FrontOrBack(ps: seq<Piece>, off: nat, p: int)
    requires Disjoint(ps)
    ensures Covered(ps[Slot(ps, off)..], p) ==> off <= p && !Covered(ps[..Slot(ps, off)], p)
  {
    var k := Slot(ps, off);
    if Covered(ps[k..], p) {
      var j :| 0 <= j < |ps| - k && Holds(ps[k..][j], p);
      assert ps[k].off <= ps[k + j].off;
      forall i | 0 <= i < k
        ensures !Holds(ps[..k][i], p)
      {
        BeforeAfter(ps, i, k + j);
      }
    }
  }

  lemma SplitShows(ps: seq<Piece>, k: nat, p: int, v: bv8)
    requires k <= |ps|
    ensures ShowsByte(ps, p, v) <==> ShowsByte(ps[..k], p, v) || ShowsByte(ps[k..], p, v)
  {
    assert ps == ps[..k] + ps[k..];
    ShowsByteConcat(ps[..k], ps[k..], p, v);
  }

  lemma SpliceShows(front: seq<Piece>, y: Piece, rest: seq<Piece>, p: int, v: bv8)
    ensures ShowsByte(front + [y] + rest, p, v) <==>
      ShowsByte(front, p, v) || ShowsByte([y], p, v) || ShowsByte(rest, p, v)
  {
    ShowsByteConcat(front + [y], rest, p, v);
    ShowsByteConcat(front, [y], p, v);
  }

  lemma MergedShows(ps: seq<Piece>, x: Piece, limit: nat, p: int, v: bv8)
    requires Disjoint(ps) && Within(ps, limit) && x.data != []
    requires AfterPrevious(ps, x).data != []
    ensures ShowsByte(Merged(ps, x), p, v) <==>
      if Holds(x, p) && !HeldFromBefore(ps, x.off, p) then x.data[p - x.off] == v
      else ShowsByte(ps, p, v)
  {
    var k := Slot(ps, x.off);
    var y := AfterPrevious(ps, x);
    var front, back := ps[..k], ps[k..];
    var rest := Eat(back, y.End(), true).0;
    assert y.End() == x.End() by { AfterPreviousFits(ps, x, limit); }
    SplitSorted(ps, k, limit);
    SplitShows(ps, k, p, v);
    SpliceShows(front, y, rest, p, v);
    EatShows(back, y.End(), limit, p, v);
    TrimmedShows(ps, x, limit, p, v);
    HeldByFront(ps, x.off, p);
    FrontOrBack(ps, x.off, p);
    ShownIsCovered(front, p, v);
    ShownIsCovered(back, p, v);
  }
}
