/** Which action of a run of the executor brought an event about: nothing is sent or leaked but by
    an action that says so, and an action that says a packet is leaked has leaked it. */
module ActionEvents {
  import opened Wrappers
  import opened ActionTrace

  // ------------------------------------------------------ nothing happens unsaid

  /** Something that happens to packet q. */
  datatype Event = Sends(q: nat, port: nat) | Leaks(q: nat)

  ghost predicate Happened(s: Snapshot, t: Snapshot, e: Event) {
    match e
    case Sends(q, port) => q in t.fate && t.fate[q] == Sent(port) && !(q in s.fate && s.fate[q] == Sent(port))
    case Leaks(q) => q in t.leaks && q !in s.leaks
  }

  /** The run, or one inside it, has the action that brings the event about: an output of the packet
      to the port; or a recirculation of the packet as the last action, or connection tracking of
      it, for which the flow key could not be extracted. */
  ghost predicate Told(r: Run, e: Event)
    decreases r
  {
    ToldOf(r.turns, e)
  }

  ghost predicate ToldOf(turns: seq<Turn>, e: Event)
    decreases turns
  {
    turns != [] && (ToldOf(turns[..|turns| - 1], e) || ToldIn(turns[|turns| - 1], e))
  }

  ghost predicate ToldIn(t: Turn, e: Event)
    decreases t
  {
    (match e
     case Sends(q, port) => t.action == Output(port) && t.Packet() == q
     case Leaks(q) => t.step.NoKey? && t.skb == q && (t.action.Ct? || (t.action.Recirc? && t.last)))
    || (t.step.Ran? && Told(t.step.run, e))
  }

  /** Nothing is sent but by an output action, and nothing is leaked but for want of a key. */
  lemma {:induction false} AsTold(r: Run, dp: Datapath, e: Event)
    requires Follows(r, dp) && Happened(r.start.s, r.end.s, e)
    ensures Told(r, e)
    decreases r
  {
    ChainAsTold(r.skb, r.list, r.start, r.turns, dp, e);
  }

  lemma {:induction false} ChainAsTold(skb: nat, list: seq<Action>, start: Moment, turns: seq<Turn>, dp: Datapath, e: Event)
    requires |turns| <= |list| && Chained(skb, list, start, turns, dp)
    requires Happened(start.s, Reached(start, turns).s, e)
    ensures ToldOf(turns, e)
    decreases turns
  {
    var n := |turns| - 1;
    if Happened(turns[n].before.s, turns[n].after.s, e) {
      TurnAsTold(turns[n], dp, e);
    } else {
      ChainAsTold(skb, list, start, turns[..n], dp, e);
    }
  }

  lemma {:induction false} TurnAsTold(t: Turn, dp: Datapath, e: Event)
    requires Legal(t, dp) && Happened(t.before.s, t.after.s, e)
    ensures ToldIn(t, e)
    decreases t, 1
  {
    match t.action
    case Recirc(id) => RecircAsTold(t, id, dp, e);
    case Sample(probability, exec, list) => SampleAsTold(t, probability, exec, list, dp, e);
    case _ =>
  }

  lemma {:induction false} RecircAsTold(t: Turn, id: nat, dp: Datapath, e: Event)
    requires t.action == Recirc(id) && Recirculates(t, id, dp) && Happened(t.before.s, t.after.s, e)
    ensures ToldIn(t, e)
    decreases t, 0
  {
    if !t.step.NoKey? {
      AsideAsTold(t.Taken(), t.Packet(), t.after.key.(recircId := id), None, t.step, t.err, t.after.s, dp, e);
    }
  }

  lemma {:induction false} SampleAsTold(t: Turn, probability: nat, exec: bool, list: seq<Action>, dp: Datapath, e: Event)
    requires Samples(t, probability, exec, list, dp) && Happened(t.before.s, t.after.s, e)
    ensures t.step.Ran? && Told(t.step.run, e)
    decreases t, 0
  {
    if exec {
      AsTold(t.step.run, dp, e);
    } else {
      AsideAsTold(t.Taken(), t.Packet(), t.before.key, Some(list), t.step, t.err, t.after.s, dp, e);
    }
  }

  lemma {:induction false} AsideAsTold(s: Snapshot, p: nat, k: Key, work: Option<seq<Action>>, step: Step, err: bool,
                                     u: Snapshot, dp: Datapath, e: Event)
    requires Aside(s, p, k, work, step, err, u, dp) && Happened(s, u, e)
    ensures step.Ran? && Told(step.run, e)
    decreases step, 1
  {
    assert step.Ran?;
    AboveAsTold(s, p, k, step, u, dp, e);
  }

  lemma {:induction false} AboveAsTold(s: Snapshot, p: nat, k: Key, step: Step, u: Snapshot, dp: Datapath, e: Event)
    requires step.Ran? && Above(s, p, k, step, u, dp) && Happened(s, u, e)
    ensures Told(step.run, e)
    decreases step, 0
  {
    AsTold(step.run, dp, e);
  }

  /** The converse for leaks: a packet whose action failed so has been leaked for good. */
  lemma {:induction false} ToldIsLeaked(r: Run, dp: Datapath, q: nat)
    requires Follows(r, dp) && Told(r, Leaks(q))
    ensures q in r.end.s.leaks
    decreases r
  {
    ChainToldIsLeaked(r.skb, r.list, r.start, r.turns, dp, q);
  }

  lemma {:induction false} ChainToldIsLeaked(skb: nat, list: seq<Action>, start: Moment, turns: seq<Turn>, dp: Datapath,
                                             q: nat)
    requires |turns| <= |list| && Chained(skb, list, start, turns, dp) && ToldOf(turns, Leaks(q))
    ensures q in Reached(start, turns).s.leaks
    decreases turns
  {
    var n := |turns| - 1;
    TurnLater(turns[n], dp);
    if ToldIn(turns[n], Leaks(q)) {
      TurnToldIsLeaked(turns[n], dp, q);
    } else {
      ChainToldIsLeaked(skb, list, start, turns[..n], dp, q);
    }
  }

  lemma {:induction false} TurnToldIsLeaked(t: Turn, dp: Datapath, q: nat)
    requires Legal(t, dp) && ToldIn(t, Leaks(q))
    ensures q in t.after.s.leaks
    decreases t, 1
  {
    match t.action
    case Recirc(id) =>
      if t.step.Ran? {
        AsideToldIsLeaked(t.Taken(), t.Packet(), t.after.key.(recircId := id), None, t.step, t.err, t.after.s, dp, q);
      }
    case Sample(probability, exec, list) => SampleToldIsLeaked(t, probability, exec, list, dp, q);
    case _ =>
  }

  lemma {:induction false} SampleToldIsLeaked(t: Turn, probability: nat, exec: bool, list: seq<Action>, dp: Datapath,
                                              q: nat)
    requires Samples(t, probability, exec, list, dp) && t.step.Ran? && Told(t.step.run, Leaks(q))
    ensures q in t.after.s.leaks
    decreases t, 0
  {
    if exec {
      ToldIsLeaked(t.step.run, dp, q);
    } else {
      AsideToldIsLeaked(t.Taken(), t.Packet(), t.before.key, Some(list), t.step, t.err, t.after.s, dp, q);
    }
  }

  lemma {:induction false} AsideToldIsLeaked(s: Snapshot, p: nat, k: Key, work: Option<seq<Action>>, step: Step, err: bool,
                                             u: Snapshot, dp: Datapath, q: nat)
    requires Aside(s, p, k, work, step, err, u, dp) && step.Ran? && Told(step.run, Leaks(q))
    ensures q in u.leaks
    decreases step, 1
  {
    AboveToldIsLeaked(s, p, k, step, u, dp, q);
  }

  lemma {:induction false} AboveToldIsLeaked(s: Snapshot, p: nat, k: Key, step: Step, u: Snapshot, dp: Datapath, q: nat)
    requires step.Ran? && Above(s, p, k, step, u, dp) && Told(step.run, Leaks(q))
    ensures q in u.leaks
    decreases step, 0
  {
    ToldIsLeaked(step.run, dp, q);
  }
}
