/** The outermost execution for a packet: its action list, then the queue of deferred work.  Each
    piece of work is done once, in order; each packet is settled exactly once, or left unsettled
    exactly when its flow key could not be extracted again. */
module ActionHandling {
  import opened Wrappers
  import opened ActionTrace
  import opened ActionFates
  import opened ActionEvents

  // ------------------------------------------------------ working off the queue

  /** One piece of deferred work: the oldest, on the key stored with it. */
  datatype Service = Service(work: Work, before: Snapshot, step: Step, after: Snapshot)

  ghost predicate Served(v: Service, dp: Datapath) {
    && v.before.pending != [] && v.work == v.before.pending[0]
    && match v.work.actions
       case Some(list) =>
         && v.step.Ran? && Follows(v.step.run, dp) && v.step.run.skb == v.work.skb && v.step.run.list == list
         && v.step.run.start == Moment(v.before.Serve(), v.work.key) && v.step.run.end.s == v.after
       case None => LookedUp(v.before.Serve(), v.work.skb, v.work.key, v.step, v.after, dp)
  }

  ghost predicate Serving(s: Snapshot, vs: seq<Service>, t: Snapshot, dp: Datapath) {
    if vs == [] then t == s
    else
      var n := |vs| - 1;
      Serving(s, vs[..n], vs[n].before, dp) && Served(vs[n], dp) && vs[n].after == t
  }

  /** The work served; the work put into the queue meanwhile; how often packet q was settled or
      leaked meanwhile. */
  ghost function Works(vs: seq<Service>): seq<Work> {
    if vs == [] then [] else Works(vs[..|vs| - 1]) + [vs[|vs| - 1].work]
  }

  ghost function PutsMeanwhile(vs: seq<Service>): seq<Work> {
    if vs == [] then [] else PutsMeanwhile(vs[..|vs| - 1]) + PutsAside(vs[|vs| - 1].step, vs[|vs| - 1].after)
  }

  ghost function GoneMeanwhile(vs: seq<Service>, q: nat): nat {
    if vs == [] then 0
    else GoneMeanwhile(vs[..|vs| - 1], q) + GoneAside(vs[|vs| - 1].work.skb, vs[|vs| - 1].step, q)
  }

  /** The outermost execution for a packet: the list at level 1, then the queue until it is empty,
      then the queue is reset. */
  ghost predicate Handles(s: Snapshot, run: Run, vs: seq<Service>, t: Snapshot, dp: Datapath) {
    && Follows(run, dp) && run.start.s == s.Raise()
    && Serving(run.end.s, vs, t.(level := 1, tail := |vs|), dp)
    && t.level == 0 && t.tail == 0 && t.pending == []
  }

  /** From s to t one more piece of work has been taken out of the queue. */
  ghost predicate OneLess(s: Snapshot, t: Snapshot, put: seq<Work>) {
    s.pending != [] && Later(s.(tail := s.tail + 1, pending := s.pending[1..]), t, put, 1)
  }

  lemma {:induction false} ServedLater(v: Service, dp: Datapath)
    requires Served(v, dp) && v.before.level == 1
    ensures OneLess(v.before, v.after, PutsAside(v.step, v.after))
  {
    if v.step.Ran? {
      if v.work.actions.None? {
        AboveLater(v.before.Serve(), v.work.skb, v.work.key, v.step, v.after, dp);
      } else {
        RunLater(v.step.run, dp);
      }
    }
  }

  lemma {:induction false} ServedBalanced(v: Service, dp: Datapath, q: nat)
    requires Served(v, dp)
    ensures Balanced(One(v.work.skb, q), v.before, v.after, GoneAside(v.work.skb, v.step, q), PutsAside(v.step, v.after), q)
  {
    if v.step.Ran? {
      if v.work.actions.None? {
        AboveBalanced(v.before.Serve(), v.work.skb, v.work.key, v.step, v.after, dp, q);
      } else {
        GivenUpOnce(v.step.run, dp, q);
      }
    }
  }

  /** What is served is what waits at first and what is put into the queue meanwhile, in order. */
  lemma {:induction false} ServedInOrder(s: Snapshot, vs: seq<Service>, t: Snapshot, dp: Datapath)
    requires Serving(s, vs, t, dp) && s.level == 1 && s.Head() < DEFERRED_ACTION_FIFO_SIZE
    ensures Works(vs) + t.pending == s.pending + PutsMeanwhile(vs) && |Works(vs)| == |vs|
    ensures t.level == 1 && t.tail == s.tail + |vs| && t.Head() < DEFERRED_ACTION_FIFO_SIZE && s.next <= t.next
    ensures OnlyFailureLeaks(s, t) && s.peak <= t.peak <= Max(s.peak, OVS_RECURSION_LIMIT - 1)
    decreases vs
  {
    if vs != [] {
      var v := vs[|vs| - 1];
      ServedInOrder(s, vs[..|vs| - 1], v.before, dp);
      ServedLater(v, dp);
      OneMoreServed(Works(vs[..|vs| - 1]), v.before.pending, t.pending, s.pending, PutsMeanwhile(vs[..|vs| - 1]),
                    PutsAside(v.step, v.after));
    }
  }

  lemma OneMoreServed(served: seq<Work>, queue: seq<Work>, left: seq<Work>, first: seq<Work>, puts: seq<Work>, put: seq<Work>)
    requires queue != [] && served + queue == first + puts && left == queue[1..] + put
    ensures served + [queue[0]] + left == first + (puts + put)
  {
    assert served + [queue[0]] + queue[1..] == served + queue;
    assert served + [queue[0]] + left == served + queue + put;
    assert first + (puts + put) == first + puts + put;
  }

  lemma {:induction false} ServingBalanced(s: Snapshot, vs: seq<Service>, t: Snapshot, dp: Datapath, q: nat)
    requires Serving(s, vs, t, dp)
    ensures Balanced(Waits(Works(vs), q), s, t, GoneMeanwhile(vs, q), PutsMeanwhile(vs), q)
    decreases vs
  {
    if vs != [] {
      var v, ws := vs[|vs| - 1], vs[..|vs| - 1];
      ServingBalanced(s, ws, v.before, dp, q);
      ServedBalanced(v, dp, q);
      BalancedJoin(Waits(Works(ws), q), One(v.work.skb, q), s, v.before, v.after, GoneMeanwhile(ws, q),
                   GoneAside(v.work.skb, v.step, q), PutsMeanwhile(ws), PutsAside(v.step, v.after), q);
      WaitsJoin(Works(ws), [v.work], q);
    }
  }

  /** The oldest packet in the queue is in hand again. */
  lemma ServeTidy(s: Snapshot)
    requires Tidy(s) && s.pending != []
    ensures Tidy(s.Serve()) && Holds(s.Serve(), s.pending[0].skb) && IsQueued(s, s.pending[0].skb)
  {
    var t, p := s.Serve(), s.pending[0].skb;
    assert s.pending == [s.pending[0]] + s.pending[1..];
    forall q: nat ensures Sound(t, q) {
      assert Sound(s, q) && Sound(s, p);
      WaitsJoin([s.pending[0]], s.pending[1..], q);
      WaitsJoin([s.pending[0]], s.pending[1..], p);
    }
    WaitsJoin([s.pending[0]], s.pending[1..], p);
    assert Sound(s, p);
  }

  lemma {:induction false} ServedFates(v: Service, dp: Datapath, q: nat)
    requires Served(v, dp) && Tidy(v.before)
    ensures Fates(v.before, v.after, q == v.work.skb, q) && IsQueued(v.before, v.work.skb)
  {
    var s := v.before.Serve();
    ServeTidy(v.before);
    assert Sound(s, q);
    if v.work.actions.Some? {
      RunFates(v.step.run, dp, q);
    } else if v.step.Ran? {
      AboveFates(s, v.work.skb, v.work.key, v.step, v.after, dp, q);
    }
  }

  /** Working off the queue touches the packets in it and clones made meanwhile, and no other. */
  lemma {:induction false} ServingFates(s: Snapshot, vs: seq<Service>, t: Snapshot, dp: Datapath, q: nat)
    requires Serving(s, vs, t, dp) && Tidy(s) && s.level == 1 && s.Head() < DEFERRED_ACTION_FIFO_SIZE
    ensures Fates(s, t, IsQueued(s, q), q)
    decreases vs, 0
  {
    assert Sound(s, q);
    if vs != [] {
      var v, ws := vs[|vs| - 1], vs[..|vs| - 1];
      ServingTidy(s, ws, v.before, dp);
      ServingFates(s, ws, v.before, dp, q);
      ServedFates(v, dp, q);
      ServedInOrder(s, ws, v.before, dp);
      ServedLater(v, dp);
      ServedFatesJoin(s, v, q);
    }
  }

  lemma ServedFatesJoin(s: Snapshot, v: Service, q: nat)
    requires Fates(s, v.before, IsQueued(s, q), q) && s.leaks <= v.before.leaks && s.next <= v.before.next
    requires Fates(v.before, v.after, q == v.work.skb, q) && IsQueued(v.before, v.work.skb)
    requires v.before.leaks <= v.after.leaks && v.before.next <= v.after.next
    ensures Fates(s, v.after, IsQueued(s, q), q)
  {
  }

  lemma {:induction false} ServingTidy(s: Snapshot, vs: seq<Service>, t: Snapshot, dp: Datapath)
    requires Serving(s, vs, t, dp) && Tidy(s) && s.level == 1 && s.Head() < DEFERRED_ACTION_FIFO_SIZE
    ensures Tidy(t)
    decreases vs, 1
  {
    forall q: nat ensures Sound(t, q) {
      ServingFates(s, vs, t, dp, q);
    }
  }

  /** Packet q after the handling of skb: if it is skb or a clone made meanwhile, it is settled or
      has been leaked; any other packet is left alone. */
  ghost predicate Accounted(s: Snapshot, t: Snapshot, skb: nat, q: nat) {
    && Sound(t, q)
    && (q == skb || s.next <= q < t.next ==> q in t.fate && (t.fate[q].Settled() || q in t.leaks))
    && (q in s.fate && q != skb ==> q in t.fate && t.fate[q] == s.fate[q])
  }

  ghost predicate AllAccounted(s: Snapshot, t: Snapshot, skb: nat) {
    forall q: nat :: Accounted(s, t, skb, q)
  }

  lemma {:induction false} HandledFates(s: Snapshot, run: Run, vs: seq<Service>, t: Snapshot, dp: Datapath, q: nat)
    requires Handles(s, run, vs, t, dp) && s.level == s.tail == 0 && s.pending == [] && Tidy(s) && Holds(s, run.skb)
    ensures Accounted(s, t, run.skb, q)
  {
    var m := t.(level := 1, tail := |vs|);
    RaisedTidy(s, run.start.s);
    RunTidy(run, dp);
    RunFates(run, dp, q);
    RunLater(run, dp);
    ServingFates(run.end.s, vs, m, dp, q);
    ServedInOrder(run.end.s, vs, m, dp);
    assert Sound(s, q) && Sound(run.end.s, q);
  }

  /** Over the whole handling of a packet every packet is accounted for. */
  lemma {:induction false} AllHandled(s: Snapshot, run: Run, vs: seq<Service>, t: Snapshot, dp: Datapath)
    requires Handles(s, run, vs, t, dp) && s.level == s.tail == 0 && s.pending == [] && Tidy(s) && Holds(s, run.skb)
    ensures AllAccounted(s, t, run.skb) && Tidy(t)
  {
    forall q: nat ensures Accounted(s, t, run.skb, q) {
      HandledFates(s, run, vs, t, dp, q);
    }
    forall q: nat ensures Sound(t, q) {
      assert Accounted(s, t, run.skb, q);
    }
  }

  /** Over the whole handling of a packet, for every flow table: at most nine pieces of work are
      deferred, each is done once, in the order in which they were deferred; the packet and every
      clone made of it is settled or leaked exactly once, and no other packet is; packets are
      leaked only for want of a key; and no level above 3 is reached. */
  lemma {:induction false} HandledInFull(s: Snapshot, run: Run, vs: seq<Service>, t: Snapshot, dp: Datapath, q: nat)
    requires Handles(s, run, vs, t, dp) && s.level == s.tail == 0 && s.pending == []
    ensures Works(vs) == Puts(run) + PutsMeanwhile(vs) && |vs| < DEFERRED_ACTION_FIFO_SIZE
    ensures Gone(run, q) + GoneMeanwhile(vs, q) == One(run.skb, q) + if s.next <= q < t.next then 1 else 0
    ensures OnlyFailureLeaks(s, t) && t.peak <= Max(s.peak, OVS_RECURSION_LIMIT - 1)
  {
    var m := t.(level := 1, tail := |vs|);
    RunLater(run, dp);
    ServedInOrder(run.end.s, vs, m, dp);
    assert Works(vs) == Works(vs) + m.pending;
    assert run.end.s.pending == Puts(run);
    GivenUpOnce(run, dp, q);
    ServingBalanced(run.end.s, vs, m, dp, q);
    WaitsJoin(Puts(run), PutsMeanwhile(vs), q);
  }

  /** The event is told by the run of the outermost list or while the queue is worked off. */
  ghost predicate ToldAnywhere(run: Run, vs: seq<Service>, e: Event) {
    Told(run, e) || ToldMeanwhile(vs, e)
  }

  ghost predicate ToldMeanwhile(vs: seq<Service>, e: Event) {
    exists i :: 0 <= i < |vs| && vs[i].step.Ran? && Told(vs[i].step.run, e)
  }

  /** And nothing is sent or leaked meanwhile but by an action that says so. */
  lemma {:induction false} HandledAsTold(s: Snapshot, run: Run, vs: seq<Service>, t: Snapshot, dp: Datapath, e: Event)
    requires Handles(s, run, vs, t, dp) && Happened(s, t, e)
    ensures ToldAnywhere(run, vs, e)
  {
    if Happened(run.start.s, run.end.s, e) {
      AsTold(run, dp, e);
    } else {
      ServingAsTold(run.end.s, vs, t.(level := 1, tail := |vs|), dp, e);
    }
  }

  lemma {:induction false} ServingAsTold(s: Snapshot, vs: seq<Service>, t: Snapshot, dp: Datapath, e: Event)
    requires Serving(s, vs, t, dp) && Happened(s, t, e)
    ensures ToldMeanwhile(vs, e)
    decreases vs
  {
    var n := |vs| - 1;
    var v := vs[n];
    if Happened(v.before, v.after, e) {
      ServedAsTold(v, dp, e);
    } else {
      ServingAsTold(s, vs[..n], v.before, dp, e);
      var i :| 0 <= i < n && vs[..n][i].step.Ran? && Told(vs[..n][i].step.run, e);
      assert vs[i].step.Ran?;
    }
  }

  lemma {:induction false} ServedAsTold(v: Service, dp: Datapath, e: Event)
    requires Served(v, dp) && Happened(v.before, v.after, e)
    ensures v.step.Ran? && Told(v.step.run, e)
  {
    var s := v.before.Serve();
    assert Happened(s, v.after, e);
    if v.work.actions.None? {
      assert v.step.Ran?;
      AboveAsTold(s, v.work.skb, v.work.key, v.step, v.after, dp, e);
    } else {
      AsTold(v.step.run, dp, e);
    }
  }

  lemma {:induction false} ServingToldIsLeaked(s: Snapshot, vs: seq<Service>, t: Snapshot, dp: Datapath, q: nat)
    requires Serving(s, vs, t, dp) && s.level == 1 && s.Head() < DEFERRED_ACTION_FIFO_SIZE
    requires q in s.leaks || ToldMeanwhile(vs, Leaks(q))
    ensures q in t.leaks
    decreases vs
  {
    if vs == [] {
    } else {
      var n := |vs| - 1;
      var v := vs[n];
      ServedInOrder(s, vs[..n], v.before, dp);
      ServedLater(v, dp);
      if v.step.Ran? && Told(v.step.run, Leaks(q)) {
        ServedToldIsLeaked(v, dp, q);
      } else {
        if ToldMeanwhile(vs, Leaks(q)) {
          var i :| 0 <= i < |vs| && vs[i].step.Ran? && Told(vs[i].step.run, Leaks(q));
          assert vs[..n][i] == vs[i];
        }
        ServingToldIsLeaked(s, vs[..n], v.before, dp, q);
      }
    }
  }

  lemma {:induction false} ServedToldIsLeaked(v: Service, dp: Datapath, q: nat)
    requires Served(v, dp) && v.step.Ran? && Told(v.step.run, Leaks(q))
    ensures q in v.after.leaks
  {
    if v.work.actions.None? {
      AboveToldIsLeaked(v.before.Serve(), v.work.skb, v.work.key, v.step, v.after, dp, q);
    } else {
      ToldIsLeaked(v.step.run, dp, q);
    }
  }

  /** Exactly when a packet is left unsettled.  After the handling of a packet, it or a clone of it
      is not settled if and only if somewhere its last action was a recirculation, or any action
      of its was connection tracking, for which the flow key could not be extracted. */
  lemma {:induction false} UnsettledExactly(s: Snapshot, run: Run, vs: seq<Service>, t: Snapshot, dp: Datapath, q: nat)
    requires Handles(s, run, vs, t, dp) && s.level == s.tail == 0 && s.pending == [] && Tidy(s) && Holds(s, run.skb)
    requires q == run.skb || s.next <= q < t.next
    ensures q in t.fate
    ensures !t.fate[q].Settled() <==> ToldAnywhere(run, vs, Leaks(q))
  {
    var m := t.(level := 1, tail := |vs|);
    HandledFates(s, run, vs, t, dp, q);
    assert Sound(s, q);
    if ToldAnywhere(run, vs, Leaks(q)) {
      RunLater(run, dp);
      if Told(run, Leaks(q)) {
        ToldIsLeaked(run, dp, q);
      }
      ServingToldIsLeaked(run.end.s, vs, m, dp, q);
    } else if q in t.leaks {
      HandledAsTold(s, run, vs, t, dp, Leaks(q));
    }
  }

  /** The handling of a packet with the one action given, for which its key cannot be extracted. */
  ghost function LostRun(s: Snapshot, p: nat, k: Key, a: Action): Run
    requires a.Ct? || a.Recirc?
  {
    var start := Moment(s.Raise(), k);
    var end := Moment(s.Raise().Fail().Leak(p), k);
    Run(p, [a], start, [Turn(p, a, true, 0, start, NoKey, true, true, end)], true, end)
  }

  /** It does happen: with a key out of date that cannot be extracted again, a connection tracking
      action, or a recirculation that is the last action, leaves the packet unsettled. */
  lemma UnsettledWitness(s: Snapshot, p: nat, k: Key, a: Action, dp: Datapath)
    requires (a.Ct? || a.Recirc?) && !k.valid && s.level == s.tail == 0 && s.pending == [] && Tidy(s) && Holds(s, p)
    ensures var t := s.Raise().Fail().Leak(p).(level := 0);
      && Handles(s, LostRun(s, p, k, a), [], t, dp)
      && t.fate[p] == Held && ToldAnywhere(LostRun(s, p, k, a), [], Leaks(p))
  {
    var r := LostRun(s, p, k, a);
    var t := s.Raise().Fail().Leak(p).(level := 0);
    assert Legal(r.turns[0], dp);
    ChainExtends(p, [a], r.start, [], r.turns[0], dp);
    assert [] + [r.turns[0]] == r.turns;
    assert t.(level := 1, tail := 0) == r.end.s;
    assert ToldIn(r.turns[0], Leaks(p));
    assert ToldOf(r.turns, Leaks(p));
  }
}
