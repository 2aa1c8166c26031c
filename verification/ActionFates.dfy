/** What becomes of packets in a run of the executor: each is given up exactly once, no packet but
    the run's own and its clones is touched, and what an output sends stays sent. */
module ActionFates {
  import opened Wrappers
  import opened ActionTrace

  // ------------------------------------------------------ every packet is given up once

  function One(p: nat, q: nat): nat {
    if p == q then 1 else 0
  }

  /** How often a run settles or leaks packet q. */
  ghost function Gone(r: Run, q: nat): nat
    decreases r
  {
    GoneOf(r.turns, q) + if r.turns != [] && r.turns[|r.turns| - 1].done then 0 else One(r.skb, q)
  }

  ghost function GoneOf(turns: seq<Turn>, q: nat): nat
    decreases turns
  {
    if turns == [] then 0 else GoneOf(turns[..|turns| - 1], q) + GoneIn(turns[|turns| - 1], q)
  }

  ghost function GoneIn(t: Turn, q: nat): nat
    decreases t
  {
    match t.step
    case Simple => if t.action.Output? then One(t.Packet(), q) else 0
    case NoMemory => 0
    case NotTaken => if t.last then One(t.skb, q) else 0
    case NoKey => if t.done then One(t.skb, q) else 0
    case CtFreed => One(t.skb, q)
    case CtStolen => One(t.skb, q)
    case _ => GoneAside(t.Packet(), t.step, q)
  }

  ghost function GoneAside(p: nat, step: Step, q: nat): nat
    decreases step
  {
    match step
    case Ran(run) => Gone(run, q)
    case Postponed => 0
    case _ => One(p, q)
  }

  /** How often packet q is in the queue. */
  ghost function Waits(ws: seq<Work>, q: nat): nat {
    if ws == [] then 0 else Waits(ws[..|ws| - 1], q) + One(ws[|ws| - 1].skb, q)
  }

  lemma {:induction false} WaitsJoin(a: seq<Work>, b: seq<Work>, q: nat)
    ensures Waits(a + b, q) == Waits(a, q) + Waits(b, q)
    decreases b
  {
    if b == [] {
      assert a + b == a;
    } else {
      WaitsJoin(a, b[..|b| - 1], q);
      assert (a + b)[..|a + b| - 1] == a + b[..|b| - 1];
    }
  }

  /** Packet q, owned so many times at s or cloned between s and t, has been given up so many
      times, or waits in the queue. */
  ghost predicate Balanced(owned: nat, s: Snapshot, t: Snapshot, gone: nat, put: seq<Work>, q: nat) {
    s.next <= t.next && owned + (if s.next <= q < t.next then 1 else 0) == gone + Waits(put, q)
  }

  lemma BalancedJoin(o: nat, more: nat, s: Snapshot, t: Snapshot, u: Snapshot, gone: nat, later: nat, put: seq<Work>,
                     puts: seq<Work>, q: nat)
    requires Balanced(o, s, t, gone, put, q) && Balanced(more, t, u, later, puts, q)
    ensures Balanced(o + more, s, u, gone + later, put + puts, q)
  {
    WaitsJoin(put, puts, q);
  }

  /** A run gives up its packet and every clone made during it exactly once, and no other packet:
      it settles it, leaks it for want of a key, or puts it into the queue. */
  lemma {:induction false} GivenUpOnce(r: Run, dp: Datapath, q: nat)
    requires Follows(r, dp)
    ensures Balanced(One(r.skb, q), r.start.s, r.end.s, Gone(r, q), Puts(r), q)
    decreases r
  {
    ChainBalanced(r.skb, r.list, r.start, r.turns, dp, q);
  }

  lemma {:induction false} ChainBalanced(skb: nat, list: seq<Action>, start: Moment, turns: seq<Turn>, dp: Datapath, q: nat)
    requires |turns| <= |list| && Chained(skb, list, start, turns, dp)
    ensures Balanced(if turns != [] && turns[|turns| - 1].done then One(skb, q) else 0,
                     start.s, Reached(start, turns).s, GoneOf(turns, q), PutsOf(turns), q)
    decreases turns
  {
    if turns != [] {
      var n := |turns| - 1;
      var t := turns[n];
      ChainBalanced(skb, list, start, turns[..n], dp, q);
      TurnBalanced(t, dp, q);
      BalancedJoin(0, Owned(t, q), start.s, t.before.s, t.after.s, GoneOf(turns[..n], q), GoneIn(t, q), PutsOf(turns[..n]),
                   PutsIn(t), q);
    }
  }

  ghost function Owned(t: Turn, q: nat): nat {
    if t.done then One(t.skb, q) else 0
  }

  lemma {:induction false} TurnBalanced(t: Turn, dp: Datapath, q: nat)
    requires Legal(t, dp)
    ensures Balanced(Owned(t, q), t.before.s, t.after.s, GoneIn(t, q), PutsIn(t), q)
    decreases t, 1
  {
    match t.action
    case Recirc(id) => RecircBalanced(t, id, dp, q);
    case Sample(probability, exec, list) => SampleBalanced(t, probability, exec, list, dp, q);
    case _ =>
  }

  lemma {:induction false} RecircBalanced(t: Turn, id: nat, dp: Datapath, q: nat)
    requires Recirculates(t, id, dp)
    ensures Balanced(Owned(t, q), t.before.s, t.after.s, GoneIn(t, q), PutsIn(t), q)
    decreases t, 0
  {
    if !t.step.NoKey? && !t.step.NoMemory? {
      AsideBalanced(t.Taken(), t.Packet(), t.after.key.(recircId := id), None, t.step, t.err, t.after.s, dp, q);
    }
  }

  lemma {:induction false} SampleBalanced(t: Turn, probability: nat, exec: bool, list: seq<Action>, dp: Datapath, q: nat)
    requires Samples(t, probability, exec, list, dp)
    ensures Balanced(Owned(t, q), t.before.s, t.after.s, GoneIn(t, q), PutsIn(t), q)
    decreases t, 0
  {
    if !t.step.NotTaken? && !t.step.NoMemory? {
      if exec {
        GivenUpOnce(t.step.run, dp, q);
      } else {
        AsideBalanced(t.Taken(), t.Packet(), t.before.key, Some(list), t.step, t.err, t.after.s, dp, q);
      }
    }
  }

  lemma {:induction false} AsideBalanced(s: Snapshot, p: nat, k: Key, work: Option<seq<Action>>, step: Step, err: bool,
                                         u: Snapshot, dp: Datapath, q: nat)
    requires Aside(s, p, k, work, step, err, u, dp)
    ensures Balanced(One(p, q), s, u, GoneAside(p, step, q), PutsAside(step, u), q)
    ensures step.Ran? || step.Missed? || step.TooDeep? || step.Postponed? || step.Full?
    decreases step, 1
  {
    if step.Ran? {
      AboveBalanced(s, p, k, step, u, dp, q);
    }
  }

  lemma {:induction false} AboveBalanced(s: Snapshot, p: nat, k: Key, step: Step, u: Snapshot, dp: Datapath, q: nat)
    requires step.Ran? && Above(s, p, k, step, u, dp)
    ensures Balanced(One(p, q), s, u, Gone(step.run, q), Puts(step.run), q)
    decreases step, 0
  {
    GivenUpOnce(step.run, dp, q);
  }

  // ------------------------------------------------------ who owns a packet

  /** The packet is in the hands of a running call. */
  ghost predicate Holds(s: Snapshot, p: nat) {
    p in s.fate && s.fate[p] == Held && p !in s.leaks
  }

  ghost predicate IsQueued(s: Snapshot, q: nat) {
    q in s.fate && s.fate[q] == Queued
  }

  /** Packet q is numbered below next; the queue holds it once if its fate is to wait there and
      otherwise not at all; and it is unsettled if it has been leaked. */
  ghost predicate Sound(s: Snapshot, q: nat) {
    && (q in s.fate ==> q < s.next)
    && Waits(s.pending, q) == (if IsQueued(s, q) then 1 else 0)
    && (q in s.leaks ==> q in s.fate && s.fate[q] == Held)
  }

  ghost predicate Tidy(s: Snapshot) {
    forall q: nat :: Sound(s, q)
  }

  /** Nobody has to look after packet q any more: it is settled, waits in the queue, or has been
      leaked. */
  ghost predicate Over(s: Snapshot, q: nat) {
    q in s.fate && (s.fate[q].Settled() || s.fate[q] == Queued || q in s.leaks)
  }

  /** What becomes of packet q between s and t: if it was ours to give up, or is a clone made
      meanwhile, it is over; any other packet is left alone. */
  ghost predicate Fates(s: Snapshot, t: Snapshot, ours: bool, q: nat) {
    && Sound(t, q)
    && (ours || s.next <= q < t.next ==> Over(t, q))
    && (!ours && q in s.fate ==> q in t.fate && t.fate[q] == s.fate[q] && (q in t.leaks <==> q in s.leaks))
    && (!ours && q in t.fate && q !in s.fate ==> s.next <= q)
  }

  lemma FatesJoin(s: Snapshot, t: Snapshot, u: Snapshot, ours: bool, q: nat)
    requires Fates(s, t, false, q) && Fates(t, u, ours, q) && s.next <= t.next <= u.next && t.leaks <= u.leaks
    ensures Fates(s, u, ours, q)
  {
  }

  /** A run touches its own packet and clones of its making and no other: at the end these are
      settled, wait in the queue or have been leaked for want of a key. */
  lemma {:induction false} RunFates(r: Run, dp: Datapath, q: nat)
    requires Follows(r, dp) && Tidy(r.start.s) && Holds(r.start.s, r.skb)
    ensures Fates(r.start.s, r.end.s, q == r.skb, q)
    decreases r
  {
    ChainFates(r.skb, r.list, r.start, r.turns, dp, q);
    ChainLater(r.skb, r.list, r.start, r.turns, dp);
  }

  lemma {:induction false} ChainFates(skb: nat, list: seq<Action>, start: Moment, turns: seq<Turn>, dp: Datapath, q: nat)
    requires |turns| <= |list| && Chained(skb, list, start, turns, dp) && Tidy(start.s) && Holds(start.s, skb)
    ensures Fates(start.s, Reached(start, turns).s, turns != [] && turns[|turns| - 1].done && q == skb, q)
    decreases turns, 1
  {
    if turns != [] {
      var n := |turns| - 1;
      var t := turns[n];
      ChainTidy(skb, list, start, turns[..n], dp);
      ChainFates(skb, list, start, turns[..n], dp, q);
      TurnFates(t, dp, q);
      ChainLater(skb, list, start, turns[..n], dp);
      TurnLater(t, dp);
      FatesJoin(start.s, t.before.s, t.after.s, t.done && q == skb, q);
    }
  }

  lemma {:induction false} RunTidy(r: Run, dp: Datapath)
    requires Follows(r, dp) && Tidy(r.start.s) && Holds(r.start.s, r.skb)
    ensures Tidy(r.end.s)
  {
    forall q: nat ensures Sound(r.end.s, q) {
      RunFates(r, dp, q);
    }
  }

  lemma {:induction false} ChainTidy(skb: nat, list: seq<Action>, start: Moment, turns: seq<Turn>, dp: Datapath)
    requires |turns| <= |list| && Chained(skb, list, start, turns, dp) && Tidy(start.s) && Holds(start.s, skb)
    ensures Tidy(Reached(start, turns).s)
    ensures turns == [] || !turns[|turns| - 1].done ==> Holds(Reached(start, turns).s, skb)
    decreases turns, 2
  {
    forall q: nat ensures Sound(Reached(start, turns).s, q) {
      ChainFates(skb, list, start, turns, dp, q);
    }
    ChainFates(skb, list, start, turns, dp, skb);
  }

  lemma {:induction false} TurnFates(t: Turn, dp: Datapath, q: nat)
    requires Legal(t, dp) && Tidy(t.before.s) && Holds(t.before.s, t.skb)
    ensures Fates(t.before.s, t.after.s, t.done && q == t.skb, q)
    decreases t, 1
  {
    assert Sound(t.before.s, q) && Sound(t.before.s, t.before.s.next);
    match t.action
    case Recirc(id) => RecircFates(t, id, dp, q);
    case Sample(probability, exec, list) => SampleFates(t, probability, exec, list, dp, q);
    case _ =>
  }

  lemma TakenTidy(t: Turn)
    requires Tidy(t.before.s) && Holds(t.before.s, t.skb)
    ensures Tidy(t.Taken()) && Holds(t.Taken(), t.Packet())
  {
    var s, u := t.before.s, t.Taken();
    assert Sound(s, s.next);
    forall q: nat ensures Sound(u, q) {
      assert Sound(s, q);
    }
  }

  lemma TakenFates(t: Turn, q: nat)
    requires Tidy(t.before.s) && Holds(t.before.s, t.skb) && t.done == t.last && t.Taken().next <= t.after.s.next
    requires Fates(t.Taken(), t.after.s, q == t.Packet(), q)
    ensures Fates(t.before.s, t.after.s, t.done && q == t.skb, q)
  {
    assert Sound(t.before.s, q) && Sound(t.before.s, t.before.s.next) && Sound(t.before.s, t.skb);
  }

  lemma {:induction false} RecircFates(t: Turn, id: nat, dp: Datapath, q: nat)
    requires Recirculates(t, id, dp) && Tidy(t.before.s) && Holds(t.before.s, t.skb)
    ensures Fates(t.before.s, t.after.s, t.done && q == t.skb, q)
    decreases t, 0
  {
    assert Sound(t.before.s, q);
    if !t.step.NoKey? && !t.step.NoMemory? {
      TakenTidy(t);
      AsideFates(t.Taken(), t.Packet(), t.after.key.(recircId := id), None, t.step, t.err, t.after.s, dp, q);
      AsideLater(t.Taken(), t.Packet(), t.after.key.(recircId := id), None, t.step, t.err, t.after.s, dp);
      TakenFates(t, q);
    }
  }

  lemma {:induction false} SampleFates(t: Turn, probability: nat, exec: bool, list: seq<Action>, dp: Datapath, q: nat)
    requires Samples(t, probability, exec, list, dp) && Tidy(t.before.s) && Holds(t.before.s, t.skb)
    ensures Fates(t.before.s, t.after.s, t.done && q == t.skb, q)
    decreases t, 0
  {
    assert Sound(t.before.s, q);
    if !t.step.NotTaken? && !t.step.NoMemory? {
      TakenTidy(t);
      if exec {
        RunFates(t.step.run, dp, q);
        RunLater(t.step.run, dp);
      } else {
        AsideFates(t.Taken(), t.Packet(), t.before.key, Some(list), t.step, t.err, t.after.s, dp, q);
        AsideLater(t.Taken(), t.Packet(), t.before.key, Some(list), t.step, t.err, t.after.s, dp);
      }
      TakenFates(t, q);
    }
  }

  lemma {:induction false} AsideFates(s: Snapshot, p: nat, k: Key, work: Option<seq<Action>>, step: Step, err: bool,
                                      u: Snapshot, dp: Datapath, q: nat)
    requires Aside(s, p, k, work, step, err, u, dp) && Tidy(s) && Holds(s, p)
    ensures Fates(s, u, q == p, q)
    decreases step, 1
  {
    assert Sound(s, q) && Sound(s, p);
    if step.Ran? {
      AboveFates(s, p, k, step, u, dp, q);
    } else if step.Postponed? {
      WaitsJoin(s.pending, [Work(p, k, work)], q);
    }
  }

  lemma {:induction false} AboveFates(s: Snapshot, p: nat, k: Key, step: Step, u: Snapshot, dp: Datapath, q: nat)
    requires step.Ran? && Above(s, p, k, step, u, dp) && Tidy(s) && Holds(s, p)
    ensures Fates(s, u, q == p, q)
    decreases step, 0
  {
    RaisedTidy(s, s.Raise());
    RunFates(step.run, dp, q);
  }

  lemma RaisedTidy(s: Snapshot, u: Snapshot)
    requires Tidy(s) && u.fate == s.fate && u.pending == s.pending && u.next == s.next && u.leaks == s.leaks
    ensures Tidy(u)
  {
    forall q: nat ensures Sound(u, q) {
      assert Sound(s, q);
    }
  }

  // ------------------------------------------------------ what an output sends stays sent

  /** How an output action leaves its packet: sent to the port if it takes it, otherwise released;
      or there was no memory for the clone, so that there is no packet. */
  ghost predicate Stands(t: Turn, port: nat, s: Snapshot, dp: Datapath) {
    if t.step.NoMemory? then !t.last && t.after.s.refused == t.before.s.refused + 1
    else t.Packet() in s.fate && s.fate[t.Packet()] == if dp.Takes(port, t.Packet()) then Sent(port) else Released
  }

  /** For every output action carried out in a run, whatever happens to the others: at the end of
      the run its packet is sent to the port the action names if that takes it, and released
      otherwise, unless there was no memory for that clone. */
  lemma {:induction false} OutputStands(r: Run, dp: Datapath, i: nat)
    requires Follows(r, dp) && Tidy(r.start.s) && Holds(r.start.s, r.skb)
    requires i < |r.turns| && r.turns[i].action.Output?
    ensures Stands(r.turns[i], r.turns[i].action.port, r.end.s, dp)
  {
    ChainTidy(r.skb, r.list, r.start, r.turns, dp);
    ChainStands(r.skb, r.list, r.start, r.turns, dp, i);
  }

  lemma {:induction false} ChainStands(skb: nat, list: seq<Action>, start: Moment, turns: seq<Turn>, dp: Datapath, i: nat)
    requires |turns| <= |list| && Chained(skb, list, start, turns, dp) && Tidy(start.s) && Holds(start.s, skb)
    requires i < |turns| && turns[i].action.Output?
    ensures Stands(turns[i], turns[i].action.port, Reached(start, turns).s, dp)
    decreases turns
  {
    var n := |turns| - 1;
    ChainTidy(skb, list, start, turns[..n], dp);
    if i < n {
      ChainStands(skb, list, start, turns[..n], dp, i);
      TurnFates(turns[n], dp, turns[i].Packet());
    } else {
      TurnStands(turns[n], dp);
    }
  }

  lemma {:induction false} TurnStands(t: Turn, dp: Datapath)
    requires Legal(t, dp) && t.action.Output?
    ensures Stands(t, t.action.port, t.after.s, dp)
  {
  }
}
