/** What the action executor (actions.c) may do, as a relation on values: a Run is the record of
    one execution of an action list, action by action, with the runs it caused inside; Follows
    says that the record is one the rules allow.  The methods of Executor are proved to leave such
    a record behind.  Of every record it is proved here that the level is restored, that deferred
    work is only appended, and that a list leaves the flow key right if its actions do; more
    follows in ActionFates, ActionEvents and ActionHandling. */
module ActionTrace {
  import opened Wrappers

  const DEFERRED_ACTION_FIFO_SIZE := 10
  const OVS_RECURSION_LIMIT := 4
  const OVS_DEFERRED_ACTION_THRESHOLD := OVS_RECURSION_LIMIT - 2
  const U32_MAX := 0xFFFF_FFFF

  /** Change stands for the actions that rewrite headers: push and pop, set in all its forms. */
  datatype Action =
    | Output(port: nat)
    | Trunc
    | Userspace
    | Hash
    | Recirc(id: nat)
    | Sample(probability: nat, exec: bool, actions: seq<Action>)
    | Ct
    | Change

  datatype Key = Key(fields: nat, recircId: nat, valid: bool)

  /** What the datapath consults: the actions of the flow found for a key, the ports there are, and
      whether a port refuses a packet.  A packet goes to a port at most once, so a function of the
      two covers every reason for it. */
  datatype Datapath = Datapath(flows: Key -> Option<seq<Action>>, ports: set<nat>, refuses: (nat, nat) -> bool)
  {
    predicate Takes(port: nat, p: nat) { port in ports && !refuses(p, port) }
  }

  /** What has become of a packet: someone holds it, it waits in the queue, or it is settled. */
  datatype Fate = Held | Queued | Released | Sent(port: nat) | Stolen {
    predicate Settled() { Released? || Sent? || Stolen? }
  }

  /** Deferred work; no actions means that the packet is to be looked up again. */
  datatype Work = Work(skb: nat, key: Key, actions: Option<seq<Action>>)

  function Max(a: nat, b: nat): nat {
    if a > b then a else b
  }

  /** The state of execution at one moment: the level, how many deferred pieces of work have been
      taken and which wait, the fate of each packet (they are numbered; next is the first unused
      number), which packets nobody holds although they are not settled, whether a flow key could
      not be extracted, how often there was no memory for a clone or no room in the queue,
      and the highest level reached. */
  datatype Snapshot = Snapshot(level: nat, tail: nat, pending: seq<Work>, fate: map<nat, Fate>, next: nat,
                               leaks: set<nat>, failed: bool, refused: nat, peak: nat)
  {
    function Settle(p: nat, f: Fate): Snapshot { this.(fate := fate[p := f]) }
    function Clone(): Snapshot { this.(fate := fate[next := Held], next := next + 1) }
    function Refuse(): Snapshot { this.(refused := refused + 1) }
    function Leak(p: nat): Snapshot { this.(leaks := leaks + {p}) }
    function Fail(): Snapshot { this.(failed := true) }
    function Queue(w: Work): Snapshot { this.(pending := pending + [w], fate := fate[w.skb := Queued]) }
    function Raise(): Snapshot { this.(level := level + 1, peak := Max(peak, level + 1)) }
    function Head(): nat { tail + |pending| }
    function Serve(): Snapshot {
      if pending == [] then this
      else this.(tail := tail + 1, pending := pending[1..], fate := fate[pending[0].skb := Held])
    }
  }

  /** The state and the flow key in use. */
  datatype Moment = Moment(s: Snapshot, key: Key)

  /** How an action went. */
  datatype Step =
    | Simple
    | NoMemory
    | NotTaken
    | NoKey
    | CtFreed
    | CtStolen
    | Ran(run: Run)
    | Missed
    | TooDeep
    | Postponed
    | Full

  /** The packet an action works on and the state in which it has it: skb itself if nothing comes
      after, otherwise a clone. */
  function PacketOf(s: Snapshot, skb: nat, last: bool): nat {
    if last then skb else s.next
  }

  function TakenFrom(s: Snapshot, last: bool): Snapshot {
    if last then s else s.Clone()
  }

  /** One action on packet skb; draw is the random number a sample takes, and done says that the
      packet is out of our hands afterwards. */
  datatype Turn = Turn(skb: nat, action: Action, last: bool, draw: nat, before: Moment, step: Step, done: bool, err: bool, after: Moment)
  {
    function Packet(): nat { PacketOf(before.s, skb, last) }
    function Taken(): Snapshot { TakenFrom(before.s, last) }
    predicate Stops() { done || err }
  }

  /** One execution of an action list on packet skb. */
  datatype Run = Run(skb: nat, list: seq<Action>, start: Moment, turns: seq<Turn>, err: bool, end: Moment)

  /** Where the actions so far have led. */
  function Reached(start: Moment, turns: seq<Turn>): Moment {
    if turns == [] then start else turns[|turns| - 1].after
  }

  // ------------------------------------------------------------------------------- the rules

  /** The run does its actions in order, each on the state and key the one before left, until one
      stops it; at the end a packet not yet given up is released. */
  ghost predicate Follows(r: Run, dp: Datapath)
    decreases r
  {
    && |r.turns| <= |r.list|
    && Chained(r.skb, r.list, r.start, r.turns, dp)
    && var m := Reached(r.start, r.turns);
       if r.turns != [] && r.turns[|r.turns| - 1].done then
         r.end == m && r.err == r.turns[|r.turns| - 1].err
       else
         && r.end == Moment(m.s.Settle(r.skb, Released), m.key)
         && (if r.turns != [] && r.turns[|r.turns| - 1].err then r.err else !r.err && |r.turns| == |r.list|)
  }

  ghost predicate Chained(skb: nat, list: seq<Action>, start: Moment, turns: seq<Turn>, dp: Datapath)
    requires |turns| <= |list|
    decreases turns
  {
    turns == [] ||
    var n := |turns| - 1;
    Chained(skb, list, start, turns[..n], dp) && NextIs(skb, list, start, turns[..n], turns[n], dp)
  }

  /** The turn comes after the others, none of which has stopped the run. */
  ghost predicate NextIs(skb: nat, list: seq<Action>, start: Moment, turns: seq<Turn>, t: Turn, dp: Datapath)
    requires |turns| < |list|
    decreases t, 3
  {
    && (turns != [] ==> !turns[|turns| - 1].Stops())
    && t.skb == skb && t.action == list[|turns|] && t.last == (|turns| == |list| - 1)
    && t.before == Reached(start, turns) && Legal(t, dp)
  }

  /** What one action may do. */
  ghost predicate Legal(t: Turn, dp: Datapath)
    decreases t, 2
  {
    match t.action
    case Output(port) => !t.err && t.done == t.last && t.after.key == t.before.key && Outputs(t.before.s, t.skb, t.last, t.step, t.after.s, port, dp)
    case Trunc => Nothing(t)
    case Userspace => Nothing(t)
    case Hash => Rewrites(t) && !t.err && t.after.key.valid == t.before.key.valid
    case Change => Rewrites(t) && (t.after.key.valid ==> t.before.key.valid)
    case Ct => Tracks(t)
    case Recirc(id) => Recirculates(t, id, dp)
    case Sample(probability, exec, list) => Samples(t, probability, exec, list, dp)
  }

  /** The packet is looked up again under the recirculation id; a key out of date is extracted
      anew first, and if that fails nothing is done with the packet. */
  ghost predicate Recirculates(t: Turn, id: nat, dp: Datapath)
    decreases t, 0
  {
    && t.done == t.last && t.after.key.recircId == t.before.key.recircId
    && (t.before.key.valid ==> t.after.key == t.before.key)
    && (t.after.key.valid <==> !t.step.NoKey?)
    && (if t.step.NoKey? then t.err && t.after.s == if t.last then t.before.s.Fail().Leak(t.skb) else t.before.s.Fail()
        else if t.step.NoMemory? then Skipped(t)
        else Aside(t.Taken(), t.Packet(), t.after.key.(recircId := id), None, t.step, t.err, t.after.s, dp))
  }

  /** With the given probability the actions are run: in place on the key in use, or aside on a
      copy of it. */
  ghost predicate Samples(t: Turn, probability: nat, exec: bool, list: seq<Action>, dp: Datapath)
    decreases t, 1
  {
    && t.done == t.last && ((exec && t.step.Ran?) || t.after.key == t.before.key)
    && t.draw <= U32_MAX && (t.step.NotTaken? <==> probability != U32_MAX && (probability == 0 || t.draw > probability))
    && (if t.step.NotTaken? then
          !t.err && t.after.s == if t.last then t.before.s.Settle(t.skb, Released) else t.before.s
        else if t.step.NoMemory? then Skipped(t)
        else if exec then InPlace(t.Taken(), t.Packet(), t.before.key, list, t.step, t.err, t.after, dp)
        else Aside(t.Taken(), t.Packet(), t.before.key, Some(list), t.step, t.err, t.after.s, dp))
  }

  ghost predicate InPlace(s: Snapshot, p: nat, k: Key, list: seq<Action>, step: Step, err: bool, m: Moment, dp: Datapath)
    decreases step, 0
  {
    && step.Ran? && Follows(step.run, dp) && step.run.skb == p && step.run.list == list
    && step.run.start == Moment(s, k) && step.run.end == m && step.run.err == err
  }

  ghost predicate Nothing(t: Turn) {
    t.step.Simple? && !t.done && !t.err && t.after == t.before
  }

  ghost predicate Rewrites(t: Turn) {
    t.step.Simple? && !t.done && t.after.s == t.before.s && t.after.key.recircId == t.before.key.recircId
  }

  /** No memory for the clone. */
  ghost predicate Skipped(t: Turn) {
    !t.last && !t.err && t.after.s == t.before.s.Refuse()
  }

  /** Handed to the port if it takes the packet, and otherwise released: the packet itself or a
      clone. */
  ghost predicate Outputs(s: Snapshot, skb: nat, last: bool, step: Step, u: Snapshot, port: nat, dp: Datapath) {
    if step.NoMemory? then !last && u == s.Refuse()
    else
      var p := PacketOf(s, skb, last);
      step.Simple? && u == TakenFrom(s, last).Settle(p, if dp.Takes(port, p) then Sent(port) else Released)
  }

  /** Connection tracking: on an error the packet has been freed, and a stolen one is hidden from
      the caller; a packet whose key cannot be extracted again is lost. */
  ghost predicate Tracks(t: Turn) {
    && t.after.key.recircId == t.before.key.recircId
    && (t.after.key.valid <==> !t.step.NoKey?)
    && match t.step {
         case NoKey => !t.before.key.valid && t.done && t.err && t.after.s == t.before.s.Fail().Leak(t.skb)
         case CtFreed => t.done && t.err && t.after.s == t.before.s.Settle(t.skb, Released)
         case CtStolen => t.done && !t.err && t.after.s == t.before.s.Settle(t.skb, Stolen)
         case Simple => !t.done && !t.err && t.after.s == t.before.s
         case _ => false
       }
  }

  /** Packet p on its own copy k of the key: one level up while there are spare keys, otherwise
      into the queue, otherwise dropped.  No actions means a look-up. */
  ghost predicate Aside(s: Snapshot, p: nat, k: Key, work: Option<seq<Action>>, step: Step, err: bool, u: Snapshot,
                        dp: Datapath)
    decreases step, 2
  {
    if s.level > OVS_DEFERRED_ACTION_THRESHOLD then
      && !err
      && (if s.Head() < DEFERRED_ACTION_FIFO_SIZE - 1 then step.Postponed? && u == s.Queue(Work(p, k, work))
          else step.Full? && u == s.Settle(p, Released).Refuse())
    else if work.Some? then
      step.Ran? && step.run.list == work.value && step.run.err == err && Above(s, p, k, step, u, dp)
    else
      !err && LookedUp(s, p, k, step, u, dp)
  }

  /** The actions of the flow found for the key, or the miss reported to user space; execution
      refuses to go more than four levels deep. */
  ghost predicate LookedUp(s: Snapshot, p: nat, k: Key, step: Step, u: Snapshot, dp: Datapath)
    decreases step, 1
  {
    match dp.flows(k)
    case None => step.Missed? && u == s.Settle(p, Released)
    case Some(list) =>
      if s.level >= OVS_RECURSION_LIMIT then step.TooDeep? && u == s.Settle(p, Released)
      else step.Ran? && step.run.list == list && Above(s, p, k, step, u, dp)
  }

  /** A run one level up. */
  ghost predicate Above(s: Snapshot, p: nat, k: Key, step: Step, u: Snapshot, dp: Datapath)
    requires step.Ran?
    decreases step, 0
  {
    && Follows(step.run, dp) && step.run.skb == p && step.run.start == Moment(s.Raise(), k)
    && step.run.end.s == u.(level := u.level + 1)
  }

  // ------------------------------------------------------------- what every run keeps

  /** No packet is forgotten, and a settled packet is never touched again. */
  ghost predicate Kept(f: map<nat, Fate>, g: map<nat, Fate>) {
    forall p :: p in f ==> p in g && (f[p].Settled() ==> g[p] == f[p])
  }

  /** Packets are leaked only when a flow key could not be extracted. */
  ghost predicate OnlyFailureLeaks(s: Snapshot, t: Snapshot) {
    s.leaks <= t.leaks && (s.failed ==> t.failed) && (s.leaks != t.leaks ==> t.failed)
  }

  /** From one moment to a later one of work at level l: the level is restored, exactly the work
      put is appended to the queue, never more than nine pieces, and none is taken; packets are
      leaked only for want of a key, and no level above l and 3 is reached. */
  ghost predicate Later(s: Snapshot, t: Snapshot, put: seq<Work>, l: nat) {
    && s.level == t.level && s.tail == t.tail && t.pending == s.pending + put && s.next <= t.next
    && OnlyFailureLeaks(s, t) && s.refused <= t.refused
    && (s.Head() < DEFERRED_ACTION_FIFO_SIZE ==> t.Head() < DEFERRED_ACTION_FIFO_SIZE)
    && s.peak <= t.peak <= Max(s.peak, Max(l, OVS_RECURSION_LIMIT - 1))
  }

  /** The work a run puts into the queue, in order. */
  ghost function Puts(r: Run): seq<Work>
    decreases r
  {
    PutsOf(r.turns)
  }

  ghost function PutsOf(turns: seq<Turn>): seq<Work>
    decreases turns
  {
    if turns == [] then [] else PutsOf(turns[..|turns| - 1]) + PutsIn(turns[|turns| - 1])
  }

  ghost function PutsIn(t: Turn): seq<Work>
    decreases t
  {
    PutsAside(t.step, t.after.s)
  }

  /** Work postponed is the last of the queue afterwards. */
  ghost function PutsAside(step: Step, u: Snapshot): seq<Work>
    decreases step
  {
    match step
    case Postponed => if u.pending == [] then [] else [u.pending[|u.pending| - 1]]
    case Ran(run) => Puts(run)
    case _ => []
  }

  lemma {:induction false} RunLater(r: Run, dp: Datapath)
    requires Follows(r, dp)
    ensures Later(r.start.s, r.end.s, Puts(r), r.start.s.level)
    decreases r
  {
    ChainLater(r.skb, r.list, r.start, r.turns, dp);
  }

  lemma {:induction false} ChainLater(skb: nat, list: seq<Action>, start: Moment, turns: seq<Turn>, dp: Datapath)
    requires |turns| <= |list| && Chained(skb, list, start, turns, dp)
    ensures Later(start.s, Reached(start, turns).s, PutsOf(turns), start.s.level)
    decreases turns
  {
    if turns != [] {
      var n := |turns| - 1;
      ChainLater(skb, list, start, turns[..n], dp);
      TurnLater(turns[n], dp);
      LaterTransitive(start.s, turns[n].before.s, turns[n].after.s, PutsOf(turns[..n]), PutsIn(turns[n]), start.s.level);
    }
  }

  /** Each turn of a run is one the rules allow, on what the turns before it have left. */
  lemma {:induction false} ChainHas(skb: nat, list: seq<Action>, start: Moment, turns: seq<Turn>, dp: Datapath, i: nat)
    requires |turns| <= |list| && Chained(skb, list, start, turns, dp) && i < |turns|
    ensures turns[i].action == list[i] && turns[i].last == (i == |list| - 1) && Legal(turns[i], dp)
    ensures turns[i].skb == skb && turns[i].before == Reached(start, turns[..i])
    decreases turns
  {
    if i < |turns| - 1 {
      ChainHas(skb, list, start, turns[..|turns| - 1], dp, i);
      assert turns[..|turns| - 1][..i] == turns[..i];
    }
  }

  /** One action more. */
  lemma ChainExtends(skb: nat, list: seq<Action>, start: Moment, turns: seq<Turn>, t: Turn, dp: Datapath)
    requires |turns| < |list| && Chained(skb, list, start, turns, dp)
    requires NextIs(skb, list, start, turns, t, dp)
    ensures Chained(skb, list, start, turns + [t], dp) && Reached(start, turns + [t]) == t.after
  {
    var n, more := |turns|, turns + [t];
    assert more[..n] == turns && more[n] == t && |more| - 1 == n;
    assert n > 0 ==> more[n - 1] == turns[n - 1];
    assert NextIs(skb, list, start, more[..n], more[n], dp);
  }

  lemma LaterTransitive(s: Snapshot, t: Snapshot, u: Snapshot, p: seq<Work>, q: seq<Work>, l: nat)
    requires Later(s, t, p, l) && Later(t, u, q, l)
    ensures Later(s, u, p + q, l)
  {
    assert s.pending + (p + q) == s.pending + p + q;
  }

  lemma {:induction false} TurnLater(t: Turn, dp: Datapath)
    requires Legal(t, dp)
    ensures Later(t.before.s, t.after.s, PutsIn(t), t.before.s.level)
    decreases t, 1
  {
    match t.action
    case Recirc(id) => RecircLater(t, id, dp);
    case Sample(probability, exec, list) => SampleLater(t, probability, exec, list, dp);
    case _ =>
  }

  lemma {:induction false} RecircLater(t: Turn, id: nat, dp: Datapath)
    requires Recirculates(t, id, dp)
    ensures Later(t.before.s, t.after.s, PutsIn(t), t.before.s.level)
    decreases t, 0
  {
    if !t.step.NoKey? && !t.step.NoMemory? {
      AsideLater(t.Taken(), t.Packet(), t.after.key.(recircId := id), None, t.step, t.err, t.after.s, dp);
    }
  }

  lemma {:induction false} SampleLater(t: Turn, probability: nat, exec: bool, list: seq<Action>, dp: Datapath)
    requires Samples(t, probability, exec, list, dp)
    ensures Later(t.before.s, t.after.s, PutsIn(t), t.before.s.level)
    decreases t, 0
  {
    if !t.step.NotTaken? && !t.step.NoMemory? {
      if exec {
        RunLater(t.step.run, dp);
      } else {
        AsideLater(t.Taken(), t.Packet(), t.before.key, Some(list), t.step, t.err, t.after.s, dp);
      }
    }
  }

  lemma {:induction false} AsideLater(s: Snapshot, p: nat, k: Key, work: Option<seq<Action>>, step: Step, err: bool,
                                      u: Snapshot, dp: Datapath)
    requires Aside(s, p, k, work, step, err, u, dp)
    ensures Later(s, u, PutsAside(step, u), s.level)
    decreases step, 1
  {
    if step.Ran? {
      AboveLater(s, p, k, step, u, dp);
    }
  }

  lemma {:induction false} AboveLater(s: Snapshot, p: nat, k: Key, step: Step, u: Snapshot, dp: Datapath)
    requires step.Ran? && s.level < OVS_RECURSION_LIMIT - 1 && Above(s, p, k, step, u, dp)
    ensures Later(s, u, Puts(step.run), s.level)
    decreases step, 0
  {
    RunLater(step.run, dp);
  }

  // ------------------------------------------------------ actions that leave the key right

  /** Actions after which the flow key is still right: those that do not change it
      (actions_may_change_flow in flow_netlink.c), and samples that do not run in place or run
      only such actions. */
  ghost predicate KeepsKey(a: Action) {
    match a
    case Output(port) => true
    case Recirc(id) => true
    case Trunc => true
    case Userspace => true
    case Sample(probability, exec, list) => exec ==> forall i :: 0 <= i < |list| ==> KeepsKey(list[i])
    case _ => false
  }

  ghost predicate AllKeepKey(list: seq<Action>) {
    forall i :: 0 <= i < |list| ==> KeepsKey(list[i])
  }

  lemma {:induction false} RunKeepsKey(r: Run, dp: Datapath)
    requires Follows(r, dp) && AllKeepKey(r.list) && r.start.key.valid
    ensures r.end.key == r.start.key
    decreases r
  {
    ChainKeepsKey(r.skb, r.list, r.start, r.turns, dp);
  }

  lemma {:induction false} ChainKeepsKey(skb: nat, list: seq<Action>, start: Moment, turns: seq<Turn>, dp: Datapath)
    requires |turns| <= |list| && Chained(skb, list, start, turns, dp) && AllKeepKey(list) && start.key.valid
    ensures Reached(start, turns).key == start.key
    decreases turns
  {
    if turns != [] {
      var n := |turns| - 1;
      ChainKeepsKey(skb, list, start, turns[..n], dp);
      TurnKeepsKey(turns[n], dp);
    }
  }

  lemma {:induction false} TurnKeepsKey(t: Turn, dp: Datapath)
    requires Legal(t, dp) && KeepsKey(t.action) && t.before.key.valid
    ensures t.after.key == t.before.key
    decreases t, 1
  {
    match t.action
    case Sample(probability, exec, list) =>
      if exec && t.step.Ran? {
        InPlaceKeepsKey(t, list, dp);
      }
    case _ =>
  }

  lemma {:induction false} InPlaceKeepsKey(t: Turn, list: seq<Action>, dp: Datapath)
    requires InPlace(t.Taken(), t.Packet(), t.before.key, list, t.step, t.err, t.after, dp) && AllKeepKey(list)
    requires t.before.key.valid
    ensures t.after.key == t.before.key
    decreases t, 0
  {
    RunKeepsKey(t.step.run, dp);
  }
}
