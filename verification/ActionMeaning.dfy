/** What executing an action list means, without the machinery of levels, spare keys and deferred
    work: under which key a packet is looked up again, on which draws a sample is taken, and how
    many packets a list sends to a port when nothing fails. */
module ActionMeaning {
  import opened Wrappers
  import opened ActionTrace
  import opened ActionFates
  import opened ActionHandling

  // ------------------------------------------------------ every action of a run, at any depth

  /** The turn is one of the run, or of a run inside it. */
  ghost predicate Within(r: Run, t: Turn)
    decreases r
  {
    WithinTurns(r.turns, t)
  }

  ghost predicate WithinTurns(turns: seq<Turn>, t: Turn)
    decreases turns
  {
    turns != [] && (WithinTurns(turns[..|turns| - 1], t) || WithinTurn(turns[|turns| - 1], t))
  }

  ghost predicate WithinTurn(u: Turn, t: Turn)
    decreases u
  {
    u == t || (u.step.Ran? && Within(u.step.run, t))
  }

  lemma {:induction false} WithinLegal(r: Run, t: Turn, dp: Datapath)
    requires Follows(r, dp) && Within(r, t)
    ensures Legal(t, dp)
    decreases r
  {
    ChainLegal(r.skb, r.list, r.start, r.turns, t, dp);
  }

  lemma {:induction false} ChainLegal(skb: nat, list: seq<Action>, start: Moment, turns: seq<Turn>, t: Turn, dp: Datapath)
    requires |turns| <= |list| && Chained(skb, list, start, turns, dp) && WithinTurns(turns, t)
    ensures Legal(t, dp)
    decreases turns
  {
    var n := |turns| - 1;
    if WithinTurns(turns[..n], t) {
      ChainLegal(skb, list, start, turns[..n], t, dp);
    } else {
      TurnLegal(turns[n], t, dp);
    }
  }

  lemma {:induction false} TurnLegal(u: Turn, t: Turn, dp: Datapath)
    requires Legal(u, dp) && WithinTurn(u, t)
    ensures Legal(t, dp)
    decreases u
  {
    if u != t {
      InsideFollows(u, dp);
      WithinLegal(u.step.run, t, dp);
    }
  }

  /** A run inside another one follows the rules too. */
  lemma InsideFollows(t: Turn, dp: Datapath)
    requires Legal(t, dp) && t.step.Ran?
    ensures Follows(t.step.run, dp)
  {
    match t.action
    case Recirc(id) =>
      AsideFollows(t.Taken(), t.Packet(), t.after.key.(recircId := id), None, t.step, t.err, t.after.s, dp);
    case Sample(probability, exec, list) =>
      if exec {
        InPlaceFollows(t.Taken(), t.Packet(), t.before.key, list, t.step, t.err, t.after, dp);
      } else {
        AsideFollows(t.Taken(), t.Packet(), t.before.key, Some(list), t.step, t.err, t.after.s, dp);
      }
    case _ =>
  }

  lemma AsideFollows(s: Snapshot, p: nat, k: Key, work: Option<seq<Action>>, step: Step, err: bool, u: Snapshot, dp: Datapath)
    requires Aside(s, p, k, work, step, err, u, dp) && step.Ran?
    ensures Follows(step.run, dp)
  {
    AboveFollows(s, p, k, step, u, dp);
  }

  lemma AboveFollows(s: Snapshot, p: nat, k: Key, step: Step, u: Snapshot, dp: Datapath)
    requires step.Ran? && Above(s, p, k, step, u, dp)
    ensures Follows(step.run, dp) && step.run.skb == p && step.run.start == Moment(s.Raise(), k)
    ensures step.run.end.s == u.(level := u.level + 1)
  {
  }

  lemma InPlaceFollows(s: Snapshot, p: nat, k: Key, list: seq<Action>, step: Step, err: bool, m: Moment, dp: Datapath)
    requires InPlace(s, p, k, list, step, err, m, dp)
    ensures Follows(step.run, dp) && step.run.skb == p && step.run.list == list && step.run.start == Moment(s, k) && step.run.end == m
  {
  }

  // ------------------------------------------------------ the actions of one run

  /** No turn but the last one has failed or taken the packet out of our hands. */
  lemma {:induction false} OnlyLastStops(skb: nat, list: seq<Action>, start: Moment, turns: seq<Turn>, dp: Datapath, i: nat)
    requires |turns| <= |list| && Chained(skb, list, start, turns, dp) && i + 1 < |turns|
    ensures !turns[i].done && !turns[i].err
    decreases turns
  {
    var n := |turns| - 1;
    if i + 1 < n { OnlyLastStops(skb, list, start, turns[..n], dp, i); }
  }

  /** The actions are carried out one after the other on the same packet, each on the state and the
      key the one before left.  The first that fails or gives the packet up ends the run, and its
      failure is that of the run; a packet not given up by then is released. */
  lemma {:induction false} InOrder(r: Run, dp: Datapath)
    requires Follows(r, dp)
    ensures |r.turns| <= |r.list|
    ensures forall i :: 0 <= i < |r.turns| ==>
      && r.turns[i].action == r.list[i] && r.turns[i].skb == r.skb && r.turns[i].last == (i == |r.list| - 1)
      && r.turns[i].before == if i == 0 then r.start else r.turns[i - 1].after
    ensures forall i :: 0 <= i < |r.turns| - 1 ==> !r.turns[i].done && !r.turns[i].err
    ensures |r.turns| < |r.list| ==> r.turns != [] && (r.turns[|r.turns| - 1].done || r.turns[|r.turns| - 1].err)
    ensures r.err <==> r.turns != [] && r.turns[|r.turns| - 1].err
    ensures var m := if r.turns == [] then r.start else r.turns[|r.turns| - 1].after;
      r.end == if r.turns != [] && r.turns[|r.turns| - 1].done then m else Moment(m.s.(fate := m.s.fate[r.skb := Released]), m.key)
  {
    forall i | 0 <= i < |r.turns|
      ensures r.turns[i].action == r.list[i] && r.turns[i].skb == r.skb && r.turns[i].last == (i == |r.list| - 1)
      ensures r.turns[i].before == if i == 0 then r.start else r.turns[i - 1].after
    {
      ChainHas(r.skb, r.list, r.start, r.turns, dp, i);
    }
    forall i | 0 <= i < |r.turns| - 1
      ensures !r.turns[i].done && !r.turns[i].err
    {
      OnlyLastStops(r.skb, r.list, r.start, r.turns, dp, i);
    }
  }

  // ------------------------------------------------------ recirculation

  /** A look-up under key k leads to this step for packet p. */
  ghost predicate LooksUp(p: nat, k: Key, step: Step, dp: Datapath) {
    match step
    case Ran(run) => run.skb == p && run.start.key == k && dp.flows(k) == Some(run.list)
    case Missed => dp.flows(k).None?
    case _ => false
  }

  /** A recirculated packet, or its clone, is looked up under the key of the packet with the
      recirculation id of the action: at once on the first two levels, and above them as soon as
      its turn comes in the queue, unless nine pieces of work have been deferred already. */
  ghost predicate UnderId(t: Turn, id: nat, dp: Datapath) {
    var k := Key(t.after.key.fields, id, true);
    && t.after.key.recircId == t.before.key.recircId && (t.before.key.valid ==> t.after.key == t.before.key)
    && match t.step
       case NoKey => !t.before.key.valid && t.err
       case NoMemory => !t.last
       case Postponed => t.before.s.level > 2 && t.after.s.pending == t.before.s.pending + [Work(t.Packet(), k, None)]
       case Full => t.before.s.level > 2 && t.before.s.Head() >= 9
       case _ => t.before.s.level <= 2 && LooksUp(t.Packet(), k, t.step, dp)
  }

  lemma {:induction false} LookedUpUnder(s: Snapshot, p: nat, k: Key, step: Step, u: Snapshot, dp: Datapath)
    requires LookedUp(s, p, k, step, u, dp) && s.level < OVS_RECURSION_LIMIT
    ensures LooksUp(p, k, step, dp)
    ensures step.Ran? ==> step.run.start.s == s.Raise() && step.run.end.s == u.(level := u.level + 1)
  {
    if step.Ran? { AboveFollows(s, p, k, step, u, dp); }
  }

  lemma {:induction false} AsideUnder(s: Snapshot, p: nat, k: Key, step: Step, err: bool, u: Snapshot, dp: Datapath)
    requires Aside(s, p, k, None, step, err, u, dp)
    ensures match step
      case Postponed => s.level > 2 && u.pending == s.pending + [Work(p, k, None)]
      case Full => s.level > 2 && s.Head() >= 9
      case _ => s.level <= 2 && LooksUp(p, k, step, dp)
    ensures step.Ran? ==> step.run.start.s == s.Raise() && step.run.end.s == u.(level := u.level + 1)
  {
    if s.level <= OVS_DEFERRED_ACTION_THRESHOLD { LookedUpUnder(s, p, k, step, u, dp); }
  }

  lemma {:induction false} RecircUnderId(r: Run, t: Turn, dp: Datapath)
    requires Follows(r, dp) && Within(r, t) && t.action.Recirc?
    ensures UnderId(t, t.action.id, dp)
  {
    WithinLegal(r, t, dp);
    if !t.step.NoKey? && !t.step.NoMemory? {
      AsideUnder(t.Taken(), t.Packet(), t.after.key.(recircId := t.action.id), t.step, t.err, t.after.s, dp);
    }
  }

  /** Work that waits in the queue is done under the key stored with it: it is looked up, or its
      actions are run. */
  lemma ServedUnderKey(v: Service, dp: Datapath)
    requires Served(v, dp) && v.before.level == 1
    ensures v.work.actions.None? ==> LooksUp(v.work.skb, v.work.key, v.step, dp)
    ensures v.work.actions.Some? ==>
      v.step.Ran? && v.step.run.skb == v.work.skb && v.step.run.start.key == v.work.key && v.step.run.list == v.work.actions.value
  {
    if v.work.actions.None? { LookedUpUnder(v.before.Serve(), v.work.skb, v.work.key, v.step, v.after, dp); }
  }

  // ------------------------------------------------------ actions on the packet in hand

  /** Connection tracking on a key out of date extracts it anew, and loses the packet if that fails;
      otherwise it hands the packet on, or has freed it, which is an error, or has stolen it, which
      is none. */
  ghost predicate Tracked(t: Turn) {
    match t.step
    case NoKey => !t.before.key.valid && t.done && t.err && t.skb in t.after.s.leaks
    case CtFreed => t.done && t.err && t.after.s == t.before.s.(fate := t.before.s.fate[t.skb := Released])
    case CtStolen => t.done && !t.err && t.after.s == t.before.s.(fate := t.before.s.fate[t.skb := Stolen])
    case Simple => !t.done && !t.err && t.after.s == t.before.s && t.after.key.valid
    case _ => false
  }

  /** The other actions leave the packet in hand and everything else alone; of the key, hashing keeps
      the validity, and none makes a key valid or touches its recirculation id. */
  ghost predicate HandsOn(t: Turn) {
    && !t.done && t.after.s == t.before.s && t.after.key.recircId == t.before.key.recircId
    && (t.action.Change? || !t.err)
    && (if t.action.Trunc? || t.action.Userspace? then t.after.key == t.before.key
        else if t.action.Hash? then t.after.key.valid == t.before.key.valid
        else t.after.key.valid ==> t.before.key.valid)
  }

  lemma {:induction false} PacketInHand(r: Run, t: Turn, dp: Datapath)
    requires Follows(r, dp) && Within(r, t)
    ensures t.action.Ct? ==> Tracked(t)
    ensures t.action.Trunc? || t.action.Userspace? || t.action.Hash? || t.action.Change? ==> HandsOn(t)
  {
    WithinLegal(r, t, dp);
  }

  // ------------------------------------------------------ sampling

  /** The number of draws, of the 2^32 there are, on which a sample is taken. */
  function Chances(probability: nat): nat {
    if probability == 0 then 0 else probability + 1
  }

  /** A sample is taken on exactly so many draws; then its actions run on the packet or a clone,
      under the key of the packet, in place or one level up or from the queue. */
  ghost predicate Sampled(t: Turn, probability: nat, exec: bool, list: seq<Action>) {
    && t.draw < 0x1_0000_0000 && (t.draw < Chances(probability) <==> !t.step.NotTaken?)
    && match t.step
       case NotTaken => !t.err && t.after.key == t.before.key
       case NoMemory => !t.last && t.after.key == t.before.key
       case Ran(run) =>
         && run.skb == t.Packet() && run.list == list && run.start.key == t.before.key
         && run.start.s.level == t.before.s.level + (if exec then 0 else 1)
         && t.after.key == if exec then run.end.key else t.before.key
       case Postponed =>
         && !exec && t.before.s.level > 2 && t.after.key == t.before.key
         && t.after.s.pending == t.before.s.pending + [Work(t.Packet(), t.before.key, Some(list))]
       case Full => !exec && t.before.s.level > 2 && t.before.s.Head() >= 9
       case _ => false
  }

  lemma {:induction false} AsideRuns(s: Snapshot, p: nat, k: Key, list: seq<Action>, step: Step, err: bool, u: Snapshot, dp: Datapath)
    requires Aside(s, p, k, Some(list), step, err, u, dp)
    ensures match step
      case Ran(run) => run.skb == p && run.list == list && run.start == Moment(s.Raise(), k)
      case Postponed => s.level > 2 && u.pending == s.pending + [Work(p, k, Some(list))]
      case Full => s.level > 2 && s.Head() >= 9
      case _ => false
  {
    if step.Ran? { AboveFollows(s, p, k, step, u, dp); }
  }

  lemma {:induction false} SampledByChance(r: Run, t: Turn, dp: Datapath)
    requires Follows(r, dp) && Within(r, t) && t.action.Sample?
    ensures Sampled(t, t.action.probability, t.action.exec, t.action.actions)
  {
    WithinLegal(r, t, dp);
    var list := t.action.actions;
    if !t.step.NotTaken? && !t.step.NoMemory? {
      if t.action.exec {
        InPlaceFollows(t.Taken(), t.Packet(), t.before.key, list, t.step, t.err, t.after, dp);
      } else {
        AsideRuns(t.Taken(), t.Packet(), t.before.key, list, t.step, t.err, t.after.s, dp);
      }
    }
  }

  // ------------------------------------------------------ what is postponed is served

  /** The turn is one of the run of the outermost list, or of a run while the queue is worked off. */
  ghost predicate WithinAnywhere(run: Run, vs: seq<Service>, t: Turn) {
    Within(run, t) || exists i :: 0 <= i < |vs| && vs[i].step.Ran? && Within(vs[i].step.run, t)
  }

  /** The work the turn puts into the queue is among the work the run puts there. */
  lemma {:induction false} WithinPuts(r: Run, t: Turn)
    requires Within(r, t) && t.step.Postponed? && t.after.s.pending != []
    ensures t.after.s.pending[|t.after.s.pending| - 1] in Puts(r)
    decreases r
  {
    ChainPuts(r.turns, t);
  }

  lemma {:induction false} ChainPuts(turns: seq<Turn>, t: Turn)
    requires WithinTurns(turns, t) && t.step.Postponed? && t.after.s.pending != []
    ensures t.after.s.pending[|t.after.s.pending| - 1] in PutsOf(turns)
    decreases turns
  {
    var n := |turns| - 1;
    if WithinTurns(turns[..n], t) {
      ChainPuts(turns[..n], t);
    } else {
      TurnPuts(turns[n], t);
    }
  }

  lemma {:induction false} TurnPuts(u: Turn, t: Turn)
    requires WithinTurn(u, t) && t.step.Postponed? && t.after.s.pending != []
    ensures t.after.s.pending[|t.after.s.pending| - 1] in PutsIn(u)
    decreases u
  {
    if u != t { WithinPuts(u.step.run, t); }
  }

  lemma {:induction false} MeanwhileHas(vs: seq<Service>, i: nat, w: Work)
    requires i < |vs| && w in PutsAside(vs[i].step, vs[i].after)
    ensures w in PutsMeanwhile(vs)
    decreases vs
  {
    if i < |vs| - 1 { MeanwhileHas(vs[..|vs| - 1], i, w); }
  }

  lemma {:induction false} WorksHas(vs: seq<Service>, w: Work)
    requires w in Works(vs)
    ensures exists i :: 0 <= i < |vs| && vs[i].work == w
    decreases vs
  {
    var n := |vs| - 1;
    if w in Works(vs[..n]) {
      WorksHas(vs[..n], w);
      var i :| 0 <= i < n && vs[..n][i].work == w;
      assert vs[i].work == w;
    } else {
      assert vs[n].work == w;
    }
  }

  /** The look-up that a recirculation puts off. */
  ghost function LookUp(t: Turn): Work
    requires t.action.Recirc?
  {
    Work(t.Packet(), Key(t.after.key.fields, t.action.id, true), None)
  }

  /** A look-up put off is done, under the key with the recirculation id, before the handling of
      the outermost packet ends. */
  lemma {:induction false} PostponedIsServed(s: Snapshot, run: Run, vs: seq<Service>, u: Snapshot, t: Turn, dp: Datapath)
    requires Handles(s, run, vs, u, dp) && s.level == s.tail == 0 && s.pending == []
    requires WithinAnywhere(run, vs, t) && t.action.Recirc? && t.step.Postponed?
    ensures exists i :: 0 <= i < |vs| && vs[i].work == LookUp(t) && LooksUp(t.Packet(), vs[i].work.key, vs[i].step, dp)
  {
    var m := u.(level := 1, tail := |vs|);
    RunLater(run, dp);
    HandledInFull(s, run, vs, u, dp, 0);
    PostponedIsWork(run, vs, m, t, dp);
    WorksHas(vs, LookUp(t));
    var i :| 0 <= i < |vs| && vs[i].work == LookUp(t);
    ServingHas(run.end.s, vs, m, dp, i);
    ServedUnderKey(vs[i], dp);
  }

  lemma {:induction false} PostponedIsWork(run: Run, vs: seq<Service>, m: Snapshot, t: Turn, dp: Datapath)
    requires Follows(run, dp) && Serving(run.end.s, vs, m, dp) && run.end.s.level == 1
    requires run.end.s.Head() < DEFERRED_ACTION_FIFO_SIZE && Works(vs) == Puts(run) + PutsMeanwhile(vs)
    requires WithinAnywhere(run, vs, t) && t.action.Recirc? && t.step.Postponed?
    ensures LookUp(t) in Works(vs)
  {
    if Within(run, t) {
      RecircUnderId(run, t, dp);
      WithinPuts(run, t);
    } else {
      var i :| 0 <= i < |vs| && vs[i].step.Ran? && Within(vs[i].step.run, t);
      ServingHas(run.end.s, vs, m, dp, i);
      ServedFollows(vs[i], dp);
      RecircUnderId(vs[i].step.run, t, dp);
      WithinPuts(vs[i].step.run, t);
      MeanwhileHas(vs, i, LookUp(t));
    }
  }

  lemma {:induction false} ServingHas(s: Snapshot, vs: seq<Service>, t: Snapshot, dp: Datapath, i: nat)
    requires Serving(s, vs, t, dp) && i < |vs| && s.level == 1 && s.Head() < DEFERRED_ACTION_FIFO_SIZE
    ensures Served(vs[i], dp) && vs[i].before.level == 1
    decreases vs
  {
    var n := |vs| - 1;
    if i < n {
      ServingHas(s, vs[..n], vs[n].before, dp, i);
    } else {
      ServedInOrder(s, vs[..n], vs[n].before, dp);
    }
  }

  lemma ServedFollows(v: Service, dp: Datapath)
    requires Served(v, dp) && v.step.Ran?
    ensures Follows(v.step.run, dp)
  {
    if v.work.actions.None? { AboveFollows(v.before.Serve(), v.work.skb, v.work.key, v.step, v.after, dp); }
  }

  // ------------------------------------------------------ the meaning of a list

  function Plus(a: Option<nat>, b: Option<nat>): Option<nat> {
    if a.Some? && b.Some? then Some(a.value + b.value) else None
  }

  /** How many packets the list sends to the port: one for each output to it, and what the lists
      of samples and of flows found by recirculation send.  None if the list, or one it leads to,
      rewrites the packet, tracks connections or samples by chance, or if recirculation leads more
      than n lists deep. */
  function Sends(list: seq<Action>, k: Key, port: nat, n: nat, dp: Datapath): Option<nat>
    decreases n, list
  {
    if list == [] then Some(0)
    else Plus(Sends(list[..|list| - 1], k, port, n, dp), SendsOne(list[|list| - 1], k, port, n, dp))
  }

  function SendsOne(a: Action, k: Key, port: nat, n: nat, dp: Datapath): Option<nat>
    decreases n, a
  {
    match a
    case Output(p) => Some(if p == port && port in dp.ports then 1 else 0)
    case Trunc => Some(0)
    case Userspace => Some(0)
    case Recirc(id) =>
      var found := dp.flows(k.(recircId := id));
      if found.None? then Some(0) else if n == 0 then None else Sends(found.value, k.(recircId := id), port, n - 1, dp)
    case Sample(probability, exec, list) =>
      if probability == 0 then Some(0) else if probability == U32_MAX then Sends(list, k, port, n, dp) else None
    case _ => None
  }

  /** A greater n makes no difference once there is an answer. */
  lemma {:induction false} SendsStay(list: seq<Action>, k: Key, port: nat, n: nat, m: nat, dp: Datapath)
    requires n <= m && Sends(list, k, port, n, dp).Some?
    ensures Sends(list, k, port, m, dp) == Sends(list, k, port, n, dp)
    decreases n, list
  {
    if list != [] {
      SendsStay(list[..|list| - 1], k, port, n, m, dp);
      SendsOneStays(list[|list| - 1], k, port, n, m, dp);
    }
  }

  lemma {:induction false} SendsOneStays(a: Action, k: Key, port: nat, n: nat, m: nat, dp: Datapath)
    requires n <= m && SendsOne(a, k, port, n, dp).Some?
    ensures SendsOne(a, k, port, m, dp) == SendsOne(a, k, port, n, dp)
    decreases n, a
  {
    match a
    case Recirc(id) =>
      var found := dp.flows(k.(recircId := id));
      if found.Some? { SendsStay(found.value, k.(recircId := id), port, n - 1, m - 1, dp); }
    case Sample(probability, exec, list) =>
      if probability == U32_MAX { SendsStay(list, k, port, n, m, dp); }
    case _ =>
  }

  /** What waiting work sends. */
  function SendsLater(w: Work, port: nat, n: nat, dp: Datapath): Option<nat> {
    match w.actions
    case Some(list) => Sends(list, w.key, port, n, dp)
    case None => SendsOne(Recirc(w.key.recircId), w.key, port, n, dp)
  }

  function SendsAll(ws: seq<Work>, port: nat, n: nat, dp: Datapath): Option<nat> {
    if ws == [] then Some(0) else Plus(SendsAll(ws[..|ws| - 1], port, n, dp), SendsLater(ws[|ws| - 1], port, n, dp))
  }

  lemma {:induction false} SendsAllJoin(a: seq<Work>, b: seq<Work>, port: nat, n: nat, dp: Datapath)
    ensures SendsAll(a + b, port, n, dp) == Plus(SendsAll(a, port, n, dp), SendsAll(b, port, n, dp))
    decreases b
  {
    if b == [] {
      assert a + b == a;
    } else {
      SendsAllJoin(a, b[..|b| - 1], port, n, dp);
      assert (a + b)[..|a + b| - 1] == a + b[..|b| - 1];
    }
  }

  // ------------------------------------------------------ counting the packets sent

  /** How many of the packets numbered below n have been sent to the port. */
  function SentTo(fate: map<nat, Fate>, port: nat, n: nat): nat {
    if n == 0 then 0
    else SentTo(fate, port, n - 1) + if n - 1 in fate && fate[n - 1] == Sent(port) then 1 else 0
  }

  ghost function SentBy(s: Snapshot, port: nat): nat {
    SentTo(s.fate, port, s.next)
  }

  lemma {:induction false} SentChanges(f: map<nat, Fate>, p: nat, x: Fate, port: nat, n: nat)
    requires p in f ==> f[p] != Sent(port)
    ensures SentTo(f[p := x], port, n) == SentTo(f, port, n) + if p < n && x == Sent(port) then 1 else 0
  {
    if n > 0 { SentChanges(f, p, x, port, n - 1); }
  }

  lemma CloneSendsNothing(s: Snapshot, port: nat)
    requires Tidy(s)
    ensures SentBy(s.Clone(), port) == SentBy(s, port)
  {
    assert Sound(s, s.next);
    SentChanges(s.fate, s.next, Held, port, s.next);
  }

  lemma SettleSends(s: Snapshot, p: nat, f: Fate, port: nat)
    requires Tidy(s) && Holds(s, p)
    ensures SentBy(s.Settle(p, f), port) == SentBy(s, port) + if f == Sent(port) then 1 else 0
  {
    assert Sound(s, p);
    SentChanges(s.fate, p, f, port, s.next);
  }

  // ------------------------------------------------------ a list sends what it means

  ghost predicate Accepting(port: nat, dp: Datapath) {
    forall p: nat :: !dp.refuses(p, port)
  }

  /** What has been sent, with what waits, has grown by so much. */
  ghost predicate Grown(s: Snapshot, t: Snapshot, put: seq<Work>, more: Option<nat>, port: nat, n: nat, dp: Datapath) {
    var due := SendsAll(put, port, n, dp);
    && (forall i :: 0 <= i < |put| ==> put[i].key.valid)
    && more.Some? && due.Some? && SentBy(t, port) + due.value == SentBy(s, port) + more.value
  }

  lemma GrownJoin(s: Snapshot, t: Snapshot, u: Snapshot, p: seq<Work>, q: seq<Work>, a: Option<nat>, b: Option<nat>,
                  port: nat, n: nat, dp: Datapath)
    requires Grown(s, t, p, a, port, n, dp) && Grown(t, u, q, b, port, n, dp)
    ensures Grown(s, u, p + q, Plus(a, b), port, n, dp)
  {
    SendsAllJoin(p, q, port, n, dp);
  }

  lemma {:induction false} RunSends(r: Run, port: nat, n: nat, dp: Datapath)
    requires Follows(r, dp) && Tidy(r.start.s) && Holds(r.start.s, r.skb) && r.start.key.valid && Accepting(port, dp)
    requires r.end.s.refused == r.start.s.refused && Sends(r.list, r.start.key, port, n, dp).Some?
    ensures Grown(r.start.s, r.end.s, Puts(r), Sends(r.list, r.start.key, port, n, dp), port, n, dp)
    ensures !r.err && r.end.key == r.start.key
    decreases r
  {
    ChainLater(r.skb, r.list, r.start, r.turns, dp);
    ChainTidy(r.skb, r.list, r.start, r.turns, dp);
    SendsFront(r.list, |r.turns|, r.start.key, port, n, dp);
    ChainSends(r.skb, r.list, r.start, r.turns, port, n, dp);
    assert r.list[..|r.list|] == r.list;
    if r.turns == [] || !r.turns[|r.turns| - 1].done {
      SettleSends(Reached(r.start, r.turns).s, r.skb, Released, port);
    }
  }

  lemma {:induction false} SendsFront(list: seq<Action>, i: nat, k: Key, port: nat, n: nat, dp: Datapath)
    requires i <= |list| && Sends(list, k, port, n, dp).Some?
    ensures Sends(list[..i], k, port, n, dp).Some? && (i > 0 ==> SendsOne(list[i - 1], k, port, n, dp).Some?)
    decreases list
  {
    if i < |list| {
      SendsFront(list[..|list| - 1], i, k, port, n, dp);
      assert list[..|list| - 1][..i] == list[..i];
    } else {
      assert list[..i] == list;
    }
  }

  lemma {:induction false} ChainSends(skb: nat, list: seq<Action>, start: Moment, turns: seq<Turn>, port: nat, n: nat, dp: Datapath)
    requires |turns| <= |list| && Chained(skb, list, start, turns, dp)
    requires Tidy(start.s) && Holds(start.s, skb) && start.key.valid && Accepting(port, dp)
    requires Reached(start, turns).s.refused == start.s.refused && Sends(list[..|turns|], start.key, port, n, dp).Some?
    ensures Grown(start.s, Reached(start, turns).s, PutsOf(turns), Sends(list[..|turns|], start.key, port, n, dp), port, n, dp)
    ensures Reached(start, turns).key == start.key
    ensures turns != [] ==> !turns[|turns| - 1].err && (turns[|turns| - 1].done ==> |turns| == |list|)
    decreases turns
  {
    if turns != [] {
      var m := |turns| - 1;
      var t := turns[m];
      assert list[..|turns|][..m] == list[..m];
      ChainLater(skb, list, start, turns[..m], dp);
      TurnLater(t, dp);
      ChainSends(skb, list, start, turns[..m], port, n, dp);
      ChainTidy(skb, list, start, turns[..m], dp);
      TurnSends(t, port, n, dp);
      GrownJoin(start.s, t.before.s, t.after.s, PutsOf(turns[..m]), PutsIn(t), Sends(list[..m], start.key, port, n, dp),
                SendsOne(t.action, start.key, port, n, dp), port, n, dp);
    }
  }

  lemma {:induction false} TurnSends(t: Turn, port: nat, n: nat, dp: Datapath)
    requires Legal(t, dp) && Tidy(t.before.s) && Holds(t.before.s, t.skb) && t.before.key.valid && Accepting(port, dp)
    requires t.after.s.refused == t.before.s.refused && SendsOne(t.action, t.before.key, port, n, dp).Some?
    ensures Grown(t.before.s, t.after.s, PutsIn(t), SendsOne(t.action, t.before.key, port, n, dp), port, n, dp)
    ensures t.after.key == t.before.key && !t.err && (t.done ==> t.last)
    decreases t, 1
  {
    match t.action
    case Output(p) =>
      TakenTidy(t);
      CloneSendsNothing(t.before.s, port);
      SettleSends(t.Taken(), t.Packet(), if dp.Takes(p, t.Packet()) then Sent(p) else Released, port);
    case Recirc(id) => RecircSends(t, id, port, n, dp);
    case Sample(probability, exec, list) => SampleSends(t, probability, exec, list, port, n, dp);
    case _ =>
  }

  lemma {:induction false} RecircSends(t: Turn, id: nat, port: nat, n: nat, dp: Datapath)
    requires Recirculates(t, id, dp) && Tidy(t.before.s) && Holds(t.before.s, t.skb) && t.before.key.valid && Accepting(port, dp)
    requires t.after.s.refused == t.before.s.refused && SendsOne(Recirc(id), t.before.key, port, n, dp).Some?
    ensures Grown(t.before.s, t.after.s, PutsIn(t), SendsOne(Recirc(id), t.before.key, port, n, dp), port, n, dp)
    ensures t.after.key == t.before.key && !t.err && (t.done ==> t.last)
    decreases t, 0
  {
    TakenTidy(t);
    CloneSendsNothing(t.before.s, port);
    AsideSends(t.Taken(), t.Packet(), t.after.key.(recircId := id), None, t.step, t.err, t.after.s, port, n, dp);
  }

  lemma {:induction false} SampleSends(t: Turn, probability: nat, exec: bool, list: seq<Action>, port: nat, n: nat, dp: Datapath)
    requires Samples(t, probability, exec, list, dp)
    requires Tidy(t.before.s) && Holds(t.before.s, t.skb) && t.before.key.valid && Accepting(port, dp)
    requires t.after.s.refused == t.before.s.refused && SendsOne(Sample(probability, exec, list), t.before.key, port, n, dp).Some?
    ensures Grown(t.before.s, t.after.s, PutsIn(t), SendsOne(Sample(probability, exec, list), t.before.key, port, n, dp), port, n, dp)
    ensures t.after.key == t.before.key && !t.err && (t.done ==> t.last)
    decreases t, 0
  {
    if t.step.NotTaken? {
      SettleSends(t.before.s, t.skb, Released, port);
    } else {
      TakenTidy(t);
      CloneSendsNothing(t.before.s, port);
      if exec {
        RunSends(t.step.run, port, n, dp);
      } else {
        AsideSends(t.Taken(), t.Packet(), t.before.key, Some(list), t.step, t.err, t.after.s, port, n, dp);
      }
    }
  }

  lemma QueuedSends(s: Snapshot, w: Work, port: nat, n: nat, dp: Datapath)
    requires Tidy(s) && Holds(s, w.skb) && w.key.valid && SendsLater(w, port, n, dp).Some?
    ensures Grown(s, s.Queue(w), [w], SendsLater(w, port, n, dp), port, n, dp)
  {
    assert Sound(s, w.skb);
    SentChanges(s.fate, w.skb, Queued, port, s.next);
    assert [w][..0] == [] && SendsAll([], port, n, dp) == Some(0);
  }

  lemma {:induction false} AsideSends(s: Snapshot, p: nat, k: Key, work: Option<seq<Action>>, step: Step, err: bool, u: Snapshot,
                                      port: nat, n: nat, dp: Datapath)
    requires Aside(s, p, k, work, step, err, u, dp) && Tidy(s) && Holds(s, p) && k.valid && Accepting(port, dp)
    requires u.refused == s.refused && SendsLater(Work(p, k, work), port, n, dp).Some?
    ensures Grown(s, u, PutsAside(step, u), SendsLater(Work(p, k, work), port, n, dp), port, n, dp) && !err
    decreases step, 2
  {
    if s.level > OVS_DEFERRED_ACTION_THRESHOLD {
      QueuedSends(s, Work(p, k, work), port, n, dp);
    } else if work.Some? {
      AboveSends(s, p, k, step, u, port, n, dp);
    } else {
      LookedUpSends(s, p, k, step, u, port, n, dp);
    }
  }

  lemma {:induction false} LookedUpSends(s: Snapshot, p: nat, k: Key, step: Step, u: Snapshot, port: nat, n: nat, dp: Datapath)
    requires LookedUp(s, p, k, step, u, dp) && s.level <= OVS_DEFERRED_ACTION_THRESHOLD
    requires Tidy(s) && Holds(s, p) && k.valid && Accepting(port, dp)
    requires u.refused == s.refused && SendsLater(Work(p, k, None), port, n, dp).Some?
    ensures Grown(s, u, PutsAside(step, u), SendsLater(Work(p, k, None), port, n, dp), port, n, dp)
    decreases step, 1
  {
    assert k.(recircId := k.recircId) == k;
    if step.Missed? {
      SettleSends(s, p, Released, port);
    } else {
      SendsStay(step.run.list, k, port, n - 1, n, dp);
      AboveSends(s, p, k, step, u, port, n, dp);
    }
  }

  lemma {:induction false} AboveSends(s: Snapshot, p: nat, k: Key, step: Step, u: Snapshot, port: nat, n: nat, dp: Datapath)
    requires step.Ran? && Above(s, p, k, step, u, dp)
    requires Tidy(s) && Holds(s, p) && k.valid && Accepting(port, dp)
    requires u.refused == s.refused && Sends(step.run.list, k, port, n, dp).Some?
    ensures Grown(s, u, Puts(step.run), Sends(step.run.list, k, port, n, dp), port, n, dp) && !step.run.err
    decreases step, 0
  {
    RaisedTidy(s, s.Raise());
    RunSends(step.run, port, n, dp);
  }

  /** So many packets will have been sent to the port when what waits is done. */
  ghost predicate Total(s: Snapshot, total: nat, port: nat, n: nat, dp: Datapath) {
    var due := SendsAll(s.pending, port, n, dp);
    && (forall i :: 0 <= i < |s.pending| ==> s.pending[i].key.valid)
    && due.Some? && SentBy(s, port) + due.value == total
  }

  lemma ServeSends(s: Snapshot, port: nat, n: nat, dp: Datapath)
    requires Tidy(s) && s.pending != []
    ensures SentBy(s.Serve(), port) == SentBy(s, port)
    ensures SendsAll(s.pending, port, n, dp)
      == Plus(SendsLater(s.pending[0], port, n, dp), SendsAll(s.pending[1..], port, n, dp))
  {
    ServeTidy(s);
    SentChanges(s.fate, s.pending[0].skb, Held, port, s.next);
    SendsAllJoin([s.pending[0]], s.pending[1..], port, n, dp);
    assert SendsAll([], port, n, dp) == Some(0) && [s.pending[0]][..0] == [];
    assert [s.pending[0]] + s.pending[1..] == s.pending;
  }

  lemma {:induction false} ServedSends(v: Service, total: nat, port: nat, n: nat, dp: Datapath)
    requires Served(v, dp) && Tidy(v.before) && v.before.level == 1 && Accepting(port, dp) && v.after.refused == v.before.refused
    requires Total(v.before, total, port, n, dp)
    ensures Total(v.after, total, port, n, dp)
  {
    var s, w := v.before.Serve(), v.work;
    ServeTidy(v.before);
    ServeSends(v.before, port, n, dp);
    ServedLater(v, dp);
    if w.actions.None? {
      LookedUpSends(s, w.skb, w.key, v.step, v.after, port, n, dp);
    } else {
      RunSends(v.step.run, port, n, dp);
    }
    SendsAllJoin(s.pending, PutsAside(v.step, v.after), port, n, dp);
  }

  /** Working off the queue sends what the work in it means. */
  lemma {:induction false} ServingSends(s: Snapshot, vs: seq<Service>, t: Snapshot, total: nat, port: nat, n: nat, dp: Datapath)
    requires Serving(s, vs, t, dp) && Tidy(s) && s.level == 1 && Accepting(port, dp) && t.refused == s.refused
    requires s.Head() < DEFERRED_ACTION_FIFO_SIZE && Total(s, total, port, n, dp)
    ensures Total(t, total, port, n, dp)
    decreases vs
  {
    if vs != [] {
      var v, ws := vs[|vs| - 1], vs[..|vs| - 1];
      ServedInOrder(s, ws, v.before, dp);
      ServingRefused(s, ws, v.before, dp);
      ServedLater(v, dp);
      ServingTidy(s, ws, v.before, dp);
      ServingSends(s, ws, v.before, total, port, n, dp);
      ServedSends(v, total, port, n, dp);
    }
  }

  lemma {:induction false} ServingRefused(s: Snapshot, vs: seq<Service>, t: Snapshot, dp: Datapath)
    requires Serving(s, vs, t, dp) && s.level == 1 && s.Head() < DEFERRED_ACTION_FIFO_SIZE
    ensures s.refused <= t.refused
    decreases vs
  {
    if vs != [] {
      ServedInOrder(s, vs[..|vs| - 1], vs[|vs| - 1].before, dp);
      ServingRefused(s, vs[..|vs| - 1], vs[|vs| - 1].before, dp);
      ServedLater(vs[|vs| - 1], dp);
    }
  }

  /** What the handling of a packet sends is what its list means: for every flow table, also when
      work is run one level up or deferred, the packets sent to a port are as many as the list
      says, if there is memory for every clone and room in the queue, and the port refuses no
      packet. */
  lemma {:induction false} HandledAsMeant(s: Snapshot, run: Run, vs: seq<Service>, t: Snapshot, port: nat, n: nat, dp: Datapath)
    requires Handles(s, run, vs, t, dp) && s.level == s.tail == 0 && s.pending == [] && Tidy(s) && Holds(s, run.skb)
    requires run.start.key.valid && Accepting(port, dp) && t.refused == s.refused
    requires Sends(run.list, run.start.key, port, n, dp).Some?
    ensures SentBy(t, port) == SentBy(s, port) + Sends(run.list, run.start.key, port, n, dp).value
  {
    var m := t.(level := 1, tail := |vs|);
    RaisedTidy(s, run.start.s);
    RunLater(run, dp);
    RunTidy(run, dp);
    ServedInOrder(run.end.s, vs, m, dp);
    ServingRefused(run.end.s, vs, m, dp);
    RunSends(run, port, n, dp);
    assert run.end.s.pending == Puts(run);
    ServingSends(run.end.s, vs, m, SentBy(s, port) + Sends(run.list, run.start.key, port, n, dp).value, port, n, dp);
  }

  /** What holds after the handling, for every port and depth. */
  ghost predicate AsMeant(s: Snapshot, t: Snapshot, list: seq<Action>, k: Key, dp: Datapath) {
    forall port: nat, n: nat :: k.valid && Accepting(port, dp) && t.refused == s.refused && Sends(list, k, port, n, dp).Some? ==>
      SentBy(t, port) == SentBy(s, port) + Sends(list, k, port, n, dp).value
  }

  lemma {:induction false} AllAsMeant(s: Snapshot, run: Run, vs: seq<Service>, t: Snapshot, dp: Datapath)
    requires Handles(s, run, vs, t, dp) && s.level == s.tail == 0 && s.pending == [] && Tidy(s) && Holds(s, run.skb)
    ensures AsMeant(s, t, run.list, run.start.key, dp)
  {
    var list, k := run.list, run.start.key;
    forall port: nat, n: nat | k.valid && Accepting(port, dp) && t.refused == s.refused && Sends(list, k, port, n, dp).Some?
      ensures SentBy(t, port) == SentBy(s, port) + Sends(list, k, port, n, dp).value
    {
      HandledAsMeant(s, run, vs, t, port, n, dp);
    }
  }

  // ------------------------------------------------------ one recirculation

  lemma {:induction false} NothingToServe(s: Snapshot, vs: seq<Service>, t: Snapshot, dp: Datapath)
    requires Serving(s, vs, t, dp) && s.pending == []
    ensures vs == []
    decreases vs
  {
    if vs != [] { NothingToServe(s, vs[..|vs| - 1], vs[|vs| - 1].before, dp); }
  }

  /** A run of a single action. */
  lemma {:induction false} OneTurn(r: Run, dp: Datapath)
    requires Follows(r, dp) && |r.list| == 1
    ensures |r.turns| == 1 && Legal(r.turns[0], dp) && r.turns[0].action == r.list[0] && r.turns[0].last
    ensures r.turns[0].skb == r.skb && r.turns[0].before == r.start && (r.turns[0].done ==> r.end == r.turns[0].after)
  {
    assert r.turns != [];
    ChainHas(r.skb, r.list, r.start, r.turns, dp, 0);
  }

  lemma {:induction false} OneOutput(r: Run, port: nat, dp: Datapath)
    requires Follows(r, dp) && r.list == [Output(port)]
    ensures r.end.s == r.start.s.Settle(r.skb, if dp.Takes(port, r.skb) then Sent(port) else Released)
  {
    OneTurn(r, dp);
  }

  /** The list recirculates the packet under an id for which the table has a flow that outputs to
      the port, whatever flows there are under other ids. */
  ghost predicate LeadsTo(list: seq<Action>, k: Key, port: nat, dp: Datapath) {
    && |list| == 1 && list[0].Recirc? && k.valid
    && dp.flows(Key(k.fields, list[0].id, true)) == Some([Output(port)])
  }

  /** Then the packet ends up sent to that port if the port takes it, and released otherwise. */
  lemma {:induction false} RecircDelivers(s: Snapshot, run: Run, vs: seq<Service>, t: Snapshot, port: nat, dp: Datapath)
    requires Handles(s, run, vs, t, dp) && s.level == s.tail == 0 && s.pending == []
    requires LeadsTo(run.list, run.start.key, port, dp)
    ensures run.skb in t.fate && t.fate[run.skb] == if dp.Takes(port, run.skb) then Sent(port) else Released
  {
    OneTurn(run, dp);
    var turn := run.turns[0];
    var k := turn.after.key.(recircId := turn.action.id);
    assert WithinTurn(turn, turn);
    RecircUnderId(run, turn, dp);
    InsideFollows(turn, dp);
    OneOutput(turn.step.run, port, dp);
    AsideUnder(turn.Taken(), turn.Packet(), k, turn.step, turn.err, turn.after.s, dp);
    NothingToServe(run.end.s, vs, t.(level := 1, tail := |vs|), dp);
  }

  /** The same for every port. */
  lemma {:induction false} AllDelivered(s: Snapshot, run: Run, vs: seq<Service>, t: Snapshot, dp: Datapath)
    requires Handles(s, run, vs, t, dp) && s.level == s.tail == 0 && s.pending == []
    ensures forall port: nat :: LeadsTo(run.list, run.start.key, port, dp) ==>
      run.skb in t.fate && t.fate[run.skb] == if dp.Takes(port, run.skb) then Sent(port) else Released
  {
    forall port: nat | LeadsTo(run.list, run.start.key, port, dp)
      ensures run.skb in t.fate && t.fate[run.skb] == if dp.Takes(port, run.skb) then Sent(port) else Released
    {
      RecircDelivers(s, run, vs, t, port, dp);
    }
  }
}
