/** The action executor of the datapath (actions.c, and ovs_dp_process_packet of datapath.c):
    a recursive interpreter with a per-CPU level, two spare flow keys and a short queue of
    deferred work.  For every flow table, including one that recirculates for ever, and for every
    outcome of memory allocation, random sampling, header rewriting, key extraction and connection
    tracking, execution ends and is a run that the rules of ActionTrace allow; the spare keys and
    the keys in the queue are never overwritten while in use, and each packet is accounted for. */
module Executor {
  import opened Wrappers
  import opened ActionTrace
  import opened ActionFates
  import opened ActionHandling
  import opened ActionMeaning

  /** A place that holds a flow key. */
  class KeyBox {
    var key: Key
  }

  /** Queue entry; its key is stored beside it. */
  datatype Deferred = Deferred(skb: nat, actions: Option<seq<Action>>)

  /** Length of the work an action list can cause at its own level. */
  function Cost(actions: seq<Action>): nat {
    if actions == [] then 0 else CostOf(actions[0]) + Cost(actions[1..])
  }

  function CostOf(a: Action): (n: nat)
    ensures n > 0
  {
    match a
    case Sample(_, _, actions) => 3 + Cost(actions)
    case _ => 1
  }

  lemma {:induction false} CostHas(actions: seq<Action>, i: nat)
    requires i < |actions|
    ensures CostOf(actions[i]) <= Cost(actions)
  {
    if i > 0 { CostHas(actions[1..], i - 1); }
  }

  lemma CloneTidy(s: Snapshot)
    requires Tidy(s)
    ensures Tidy(s.Clone())
  {
    assert Sound(s, s.next);
    forall q: nat ensures Sound(s.Clone(), q) {
      assert Sound(s, q);
    }
  }

  lemma {:induction false} TurnTidy(t: Turn, dp: Datapath)
    requires Legal(t, dp) && Tidy(t.before.s) && Holds(t.before.s, t.skb)
    ensures Tidy(t.after.s) && (!t.done ==> Holds(t.after.s, t.skb))
  {
    forall q: nat ensures Sound(t.after.s, q) {
      TurnFates(t, dp, q);
    }
    TurnFates(t, dp, t.skb);
  }

  lemma {:induction false} ServedTidy(v: Service, dp: Datapath)
    requires Served(v, dp) && Tidy(v.before)
    ensures Tidy(v.after)
  {
    forall q: nat ensures Sound(v.after, q) {
      ServedFates(v, dp, q);
    }
  }

  lemma SettledTidy(s: Snapshot, p: nat)
    requires Tidy(s) && Holds(s, p)
    ensures Tidy(s.Settle(p, Released))
  {
    forall q: nat ensures Sound(s.Settle(p, Released), q) {
      assert Sound(s, q);
    }
  }

  /** The key that goes with the work: for a look-up it carries the recirculation id. */
  function WorkKey(key: Key, work: Option<seq<Action>>, id: nat): Key {
    if work.Some? then key else key.(recircId := id)
  }

  /** Storage for n flow keys. */
  method Boxes(n: nat) returns (r: seq<KeyBox>)
    ensures |r| == n && forall i :: 0 <= i < n ==> fresh(r[i])
    ensures forall i, j :: 0 <= i < j < n ==> r[i] != r[j]
  {
    r := [];
    while |r| < n
      invariant |r| <= n && forall i :: 0 <= i < |r| ==> fresh(r[i])
      invariant forall i, j :: 0 <= i < j < |r| ==> r[i] != r[j]
    {
      var box := new KeyBox;
      r := r + [box];
    }
  }

  class PerCpu {
    var level: nat
    const keys: seq<KeyBox>
    const fifo: array<Deferred>
    const fifoKeys: seq<KeyBox>
    var head: nat
    var tail: nat
    /** The fate of every packet there has been; they are numbered. */
    var fate: map<nat, Fate>
    var next: nat
    /** The work in the queue, packets leaked, whether a key could not be extracted, how
        often there was no memory for a clone or no room in the queue, and the highest level. */
    ghost var pending: seq<Work>
    ghost var leaks: set<nat>
    ghost var failed: bool
    ghost var refused: nat
    ghost var peak: nat

    ghost function Snap(): Snapshot
      reads this
    {
      Snapshot(level, tail, pending, fate, next, leaks, failed, refused, peak)
    }

    ghost function Now(key: KeyBox): Moment
      reads this, key
    {
      Moment(Snap(), key.key)
    }

    /** The storage of the per-CPU area: ten queue entries with a key each and two more keys,
        all different. */
    ghost predicate Layout()
    {
      && fifo.Length == |fifoKeys| == DEFERRED_ACTION_FIFO_SIZE && |keys| == OVS_DEFERRED_ACTION_THRESHOLD
      && (forall i, j :: 0 <= i < j < |keys| ==> keys[i] != keys[j])
      && (forall i, j :: 0 <= i < j < |fifoKeys| ==> fifoKeys[i] != fifoKeys[j])
      && (forall i, j :: 0 <= i < |keys| && 0 <= j < |fifoKeys| ==> keys[i] != fifoKeys[j])
    }

    /** The queue holds the pending work, keys included. */
    ghost predicate Queue()
      reads `head, `tail, `pending, fifo, fifoKeys
    {
      && Layout()
      && tail <= head < DEFERRED_ACTION_FIFO_SIZE && |pending| == head - tail
      && forall i :: tail <= i < head ==> pending[i - tail] == Work(fifo[i].skb, fifoKeys[i].key, fifo[i].actions)
    }

    /** The packet is in the hands of the running call. */
    ghost predicate Ours(skb: nat)
      reads this, fifo, fifoKeys
    {
      Queue() && Tidy(Snap()) && Holds(Snap(), skb)
    }

    /** The keys that work at level l and above may overwrite, free queue entries included. */
    ghost function Scratch(l: nat): set<KeyBox>
      reads `head
    {
      (set i | 0 <= i < |keys| && i >= l - 1 :: keys[i]) + (set i | head <= i < |fifoKeys| :: fifoKeys[i])
    }

    /** The key a call at level l works on is neither one of those nor in the queue. */
    ghost predicate Apart(key: KeyBox, l: nat)
      reads `tail
    {
      (forall i :: 0 <= i < |keys| && i >= l - 1 ==> key != keys[i]) && (forall i :: tail <= i < |fifoKeys| ==> key != fifoKeys[i])
    }

    constructor ()
      ensures Queue() && Tidy(Snap()) && level == head == tail == peak == 0 && leaks == {} && fate == map[] && pending == [] && !failed
    {
      var k := Boxes(OVS_DEFERRED_ACTION_THRESHOLD);
      var f := Boxes(DEFERRED_ACTION_FIFO_SIZE);
      keys, fifoKeys := k, f;
      fifo := new Deferred[DEFERRED_ACTION_FIFO_SIZE](i => Deferred(0, None));
      level, head, tail, fate, next, pending, leaks, failed := 0, 0, 0, map[], 0, [], {}, false;
      refused, peak := 0, 0;
    }

    // -------------------------------------------------------------------------- packets

    /** kfree_skb, consume_skb, a transmission, or a packet taken over by connection tracking. */
    method Settle(skb: nat, f: Fate)
      requires Queue() && Holds(Snap(), skb) && f.Settled()
      modifies `fate
      ensures Queue() && Snap() == old(Snap()).Settle(skb, f)
    {
      fate := fate[skb := f];
    }

    /** skb_clone, which may fail. */
    method Clone() returns (clone: Option<nat>)
      requires Queue() && Tidy(Snap())
      modifies `fate, `next, `refused
      ensures Queue()
      ensures clone.None? ==> Snap() == old(Snap()).Refuse()
      ensures clone.Some? ==> clone.value == old(next) && clone.value !in old(fate) && Snap() == old(Snap()).Clone()
      ensures clone.Some? ==> Holds(Snap(), clone.value)
      ensures Tidy(Snap())
    {
      var memory: bool := *;
      if memory {
        assert Sound(Snap(), next);
        CloneTidy(Snap());
        clone := Some(next);
        fate, next := fate[next := Held], next + 1;
      } else {
        RaisedTidy(Snap(), Snap().Refuse());
        clone := None;
        refused := refused + 1;
      }
    }

    /** ovs_flow_key_update, which may fail. */
    method FlowKeyUpdate(key: KeyBox) returns (err: bool)
      requires Queue() && Apart(key, OVS_RECURSION_LIMIT)
      modifies key, `failed
      ensures Queue() && key.key.valid == !err && key.key.recircId == old(key.key).recircId
      ensures Snap() == if err then old(Snap()).Fail() else old(Snap())
    {
      err := *;
      var fields: nat := *;
      key.key := key.key.(fields := fields, valid := !err);
      failed := failed || err;
    }

    // ------------------------------------------------------------------------ the queue

    /** action_fifo_put when there is room, with what add_deferred_actions stores. */
    method Put(skb: nat, k: Key, actions: Option<seq<Action>>)
      requires Queue() && Holds(Snap(), skb) && head < DEFERRED_ACTION_FIFO_SIZE - 1
      modifies `head, `fate, `pending, fifo, fifoKeys[head]
      ensures Queue() && Snap() == old(Snap()).Queue(Work(skb, k, actions))
    {
      fifoKeys[head].key := k;
      fifo[head] := Deferred(skb, actions);
      head, fate, pending := head + 1, fate[skb := Queued], pending + [Work(skb, k, actions)];
    }

    /** add_deferred_actions; false when the queue is full. */
    method Defer(skb: nat, key: KeyBox, actions: Option<seq<Action>>) returns (ok: bool)
      requires Queue() && Holds(Snap(), skb)
      modifies `head, `fate, `pending, fifo, Scratch(OVS_DEFERRED_ACTION_THRESHOLD + 1)
      ensures Queue() && (ok <==> old(Snap()).Head() < DEFERRED_ACTION_FIFO_SIZE - 1)
      ensures Snap() == if ok then old(Snap()).Queue(Work(skb, old(key.key), actions)) else old(Snap())
    {
      ok := head < DEFERRED_ACTION_FIFO_SIZE - 1;
      if ok {
        Put(skb, key.key, actions);
      }
    }

    /** The recirculation id goes into the key of the entry put last. */
    method SetRecircId(id: nat)
      requires Queue() && pending != []
      modifies `pending, fifoKeys[head - 1]
      ensures Queue() && pending == old(pending)[..|pending| - 1] + [pending[|pending| - 1]]
      ensures var w := old(pending)[|pending| - 1]; pending[|pending| - 1] == w.(key := w.key.(recircId := id))
    {
      fifoKeys[head - 1].key := fifoKeys[head - 1].key.(recircId := id);
      ghost var w := pending[|pending| - 1];
      pending := pending[..|pending| - 1] + [w.(key := w.key.(recircId := id))];
    }

    /** clone_execute out of spare keys: the work is deferred, or dropped with its packet. */
    method DeferOrDrop(skb: nat, key: KeyBox, work: Option<seq<Action>>, id: nat, dp: Datapath) returns (ghost step: Step)
      requires Queue() && Holds(Snap(), skb) && level > OVS_DEFERRED_ACTION_THRESHOLD
      modifies `head, `fate, `pending, `refused, fifo, Scratch(level)
      ensures Queue() && Aside(old(Snap()), skb, WorkKey(old(key.key), work, id), work, step, false, Snap(), dp)
    {
      var queued := Defer(skb, key, work);
      if queued {
        step := Postponed;
        if work.None? {
          SetRecircId(id);
        }
      } else {
        step := Full;
        Settle(skb, Released);
        refused := refused + 1;
      }
    }

    /** action_fifo_get: the oldest queued packet is in our hands again. */
    method Get() returns (da: Deferred)
      requires Queue() && tail < head
      modifies `tail, `fate, `pending
      ensures Queue() && tail == old(tail) + 1
      ensures old(pending) != [] && Work(da.skb, fifoKeys[old(tail)].key, da.actions) == old(pending)[0]
      ensures Snap() == old(Snap()).Serve()
    {
      da := fifo[tail];
      fate := fate[da.skb := Held];
      tail, pending := tail + 1, pending[1..];
    }

    // ------------------------------------------------------------------------ execution

    /** do_execute_actions. */
    method DoExecuteActions(skb: nat, key: KeyBox, actions: seq<Action>, dp: Datapath) returns (err: bool, ghost run: Run)
      requires Ours(skb) && 1 <= level <= OVS_RECURSION_LIMIT && Apart(key, level)
      modifies this, fifo, key, Scratch(level)
      ensures Queue() && Follows(run, dp) && run == Run(skb, actions, old(Now(key)), run.turns, err, Now(key))
      decreases OVS_RECURSION_LIMIT + 1 - level, 1, 2 * Cost(actions) + 3
    {
      ghost var start, turns: seq<Turn> := Now(key), [];
      var i := 0;
      while i < |actions|
        invariant i == |turns| <= |actions|
        invariant Ours(skb) && level == old(level) && tail == old(tail) && head >= old(head)
        invariant Chained(skb, actions, start, turns, dp) && Reached(start, turns) == Now(key)
        invariant i > 0 ==> !turns[i - 1].Stops()
      {
        CostHas(actions, i);
        var done;
        done, err, turns := ExecuteNext(skb, key, actions, i, dp, start, turns);
        if done {
          run := Run(skb, actions, start, turns, err, Now(key));
          return;
        }
        if err {
          Settle(skb, Released);
          run := Run(skb, actions, start, turns, err, Now(key));
          return;
        }
        i := i + 1;
      }
      Settle(skb, Released);
      err := false;
      run := Run(skb, actions, start, turns, err, Now(key));
    }

    /** One turn of the loop. */
    method ExecuteNext(skb: nat, key: KeyBox, actions: seq<Action>, i: nat, dp: Datapath, ghost start: Moment, ghost turns: seq<Turn>)
      returns (done: bool, err: bool, ghost more: seq<Turn>)
      requires Ours(skb) && 1 <= level <= OVS_RECURSION_LIMIT && Apart(key, level)
      requires i == |turns| < |actions| && Chained(skb, actions, start, turns, dp) && Reached(start, turns) == Now(key)
      requires i > 0 ==> !turns[i - 1].Stops()
      modifies this, fifo, key, Scratch(level)
      ensures Queue() && level == old(level) && tail == old(tail) && head >= old(head) && (!done ==> Ours(skb))
      ensures |more| == i + 1 && Chained(skb, actions, start, more, dp) && Reached(start, more) == Now(key)
      ensures more[i].done == done && more[i].err == err
      decreases OVS_RECURSION_LIMIT + 1 - level, 1, 2 * CostOf(actions[i]) + 2
    {
      ghost var before := Now(key);
      ghost var step;
      ghost var draw;
      done, err, step, draw := ExecuteOne(skb, key, actions[i], i == |actions| - 1, dp);
      ghost var turn := Turn(skb, actions[i], i == |actions| - 1, draw, before, step, done, err, Now(key));
      TurnLater(turn, dp);
      TurnTidy(turn, dp);
      ChainExtends(skb, actions, start, turns, turn, dp);
      more := turns + [turn];
    }

    /** One action; done says that the packet is out of our hands. */
    method ExecuteOne(skb: nat, key: KeyBox, a: Action, last: bool, dp: Datapath)
      returns (done: bool, err: bool, ghost step: Step, ghost draw: nat)
      requires Ours(skb) && 1 <= level <= OVS_RECURSION_LIMIT && Apart(key, level)
      modifies this, fifo, key, Scratch(level)
      ensures Queue() && Legal(Turn(skb, a, last, draw, old(Now(key)), step, done, err, Now(key)), dp)
      decreases OVS_RECURSION_LIMIT + 1 - level, 1, 2 * CostOf(a) + 1
    {
      done, err, step, draw := false, false, Simple, 0;
      match a {
        case Output(port) =>
          step := ExecuteOutput(skb, port, last, dp);
          done := last;
        case Trunc =>
        case Userspace =>
        case Hash =>
          var hash: nat := *;
          key.key := key.key.(fields := hash);
        case Recirc(id) =>
          err, step := ExecuteRecirc(skb, key, id, last, dp);
          done := last;
        case Sample(probability, exec, actions) =>
          err, step, draw := ExecuteSample(skb, key, probability, exec, actions, last, dp);
          done := last;
        case Ct =>
          done, err, step := ExecuteCt(skb, key, last);
        case Change =>
          err := *;
          var fields: nat, valid: bool := *, *;
          key.key := key.key.(fields := fields, valid := key.key.valid && valid);
      }
    }

    /** The output action: the packet itself goes if nothing comes after, otherwise a clone. */
    method ExecuteOutput(skb: nat, port: nat, last: bool, dp: Datapath) returns (ghost step: Step)
      requires Ours(skb)
      modifies `fate, `next, `refused
      ensures Queue() && Outputs(old(Snap()), skb, last, step, Snap(), port, dp)
    {
      step := Simple;
      if last {
        DoOutput(skb, port, dp);
      } else {
        var clone := Clone();
        if clone.Some? {
          DoOutput(clone.value, port, dp);
        } else {
          step := NoMemory;
        }
      }
    }

    /** do_output: handed to the port, or dropped if there is none or it refuses the packet. */
    method DoOutput(skb: nat, port: nat, dp: Datapath)
      requires Queue() && Holds(Snap(), skb)
      modifies `fate
      ensures Queue() && Snap() == old(Snap()).Settle(skb, if dp.Takes(port, skb) then Sent(port) else Released)
    {
      if port in dp.ports {
        if dp.refuses(skb, port) {
          Settle(skb, Released);
        } else {
          Settle(skb, Sent(port));
        }
      } else {
        Settle(skb, Released);
      }
    }

    /** The connection tracking action: on an error the packet has been freed, and a stolen one
        is hidden from the caller. */
    method ExecuteCt(skb: nat, key: KeyBox, last: bool) returns (done: bool, err: bool, ghost step: Step)
      requires Ours(skb) && Apart(key, OVS_RECURSION_LIMIT)
      modifies `fate, `leaks, `failed, key
      ensures Queue() && Tracks(Turn(skb, Ct, last, 0, old(Now(key)), step, done, err, Now(key)))
    {
      if !key.key.valid {
        err := FlowKeyUpdate(key);
        if err {
          leaks := leaks + {skb};
          return true, true, NoKey;
        }
      }
      var fields: nat, freed: bool, stolen: bool := *, *, *;
      key.key := key.key.(fields := fields);
      if freed {
        Settle(skb, Released);
        return true, true, CtFreed;
      }
      if stolen {
        Settle(skb, Stolen);
        return true, false, CtStolen;
      }
      return false, false, Simple;
    }

    /** sample: with the given probability run the actions on the packet or on a clone. */
    method ExecuteSample(skb: nat, key: KeyBox, probability: nat, exec: bool, actions: seq<Action>, last: bool, dp: Datapath)
      returns (err: bool, ghost step: Step, ghost draw: nat)
      requires Ours(skb) && 1 <= level <= OVS_RECURSION_LIMIT && Apart(key, level)
      modifies this, fifo, key, Scratch(level)
      ensures Queue()
      ensures Samples(Turn(skb, Sample(probability, exec, actions), last, draw, old(Now(key)), step, last, err, Now(key)),
                      probability, exec, actions, dp)
      decreases OVS_RECURSION_LIMIT + 1 - level, 1, 2 * Cost(actions) + 6
    {
      var random: nat :| random <= U32_MAX;
      draw := random;
      if probability != U32_MAX && (probability == 0 || random > probability) {
        if last {
          Settle(skb, Released);
        }
        return false, NotTaken, draw;
      }
      if exec {
        err, step := ExecuteHere(skb, key, actions, last, dp);
      } else {
        err, step := CloneExecute(skb, key, Some(actions), 0, last, dp);
      }
    }

    /** execute_recirc.  If the key cannot be extracted again, the packet is not settled here;
        when it was the last action nobody will. */
    method ExecuteRecirc(skb: nat, key: KeyBox, id: nat, last: bool, dp: Datapath) returns (err: bool, ghost step: Step)
      requires Ours(skb) && 1 <= level <= OVS_RECURSION_LIMIT && Apart(key, level)
      modifies this, fifo, key, Scratch(level)
      ensures Queue() && Recirculates(Turn(skb, Recirc(id), last, 0, old(Now(key)), step, last, err, Now(key)), id, dp)
      decreases OVS_RECURSION_LIMIT + 1 - level, 1, 2
    {
      if !key.key.valid {
        err := FlowKeyUpdate(key);
        if err {
          if last {
            leaks := leaks + {skb};
          }
          return true, NoKey;
        }
      }
      err, step := CloneExecute(skb, key, None, id, last, dp);
    }

    /** clone_execute when the key need not be cloned: the actions are known not to change it, or
        nothing comes after them. */
    method ExecuteHere(skb: nat, key: KeyBox, actions: seq<Action>, last: bool, dp: Datapath)
      returns (err: bool, ghost step: Step)
      requires Ours(skb) && 1 <= level <= OVS_RECURSION_LIMIT && Apart(key, level)
      modifies this, fifo, key, Scratch(level)
      ensures Queue()
      ensures if step.NoMemory? then !last && !err && Now(key) == Moment(old(Snap()).Refuse(), old(key.key))
        else InPlace(TakenFrom(old(Snap()), last), PacketOf(old(Snap()), skb, last), old(key.key), actions, step, err, Now(key), dp)
      decreases OVS_RECURSION_LIMIT + 1 - level, 1, 2 * Cost(actions) + 5
    {
      var packet := skb;
      if !last {
        var clone := Clone();
        if clone.None? {
          return false, NoMemory;
        }
        packet := clone.value;
      }
      ghost var run;
      err, run := DoExecuteActions(packet, key, actions, dp);
      step := Ran(run);
    }

    /** clone_execute with its own flow key: run the work one level up while there are spare keys,
        otherwise put it into the queue, otherwise drop it.  The key of the caller is not
        touched. */
    method CloneExecute(skb: nat, key: KeyBox, work: Option<seq<Action>>, id: nat, last: bool, dp: Datapath)
      returns (err: bool, ghost step: Step)
      requires Ours(skb) && 1 <= level <= OVS_RECURSION_LIMIT
      modifies this, fifo, Scratch(level)
      ensures Queue()
      ensures if step.NoMemory? then !last && !err && Snap() == old(Snap()).Refuse()
        else Aside(TakenFrom(old(Snap()), last), PacketOf(old(Snap()), skb, last), WorkKey(old(key.key), work, id), work, step, err,
                   Snap(), dp)
      decreases OVS_RECURSION_LIMIT + 1 - level, 1, if work.Some? then 2 * Cost(work.value) + 5 else 1
    {
      var packet := skb;
      if !last {
        var clone := Clone();
        if clone.None? {
          return false, NoMemory;
        }
        packet := clone.value;
      }
      err, step := RunOrDefer(packet, key, work, id, dp);
    }

    method RunOrDefer(skb: nat, key: KeyBox, work: Option<seq<Action>>, id: nat, dp: Datapath)
      returns (err: bool, ghost step: Step)
      requires Ours(skb) && 1 <= level <= OVS_RECURSION_LIMIT
      modifies this, fifo, Scratch(level)
      ensures Queue() && Aside(old(Snap()), skb, WorkKey(old(key.key), work, id), work, step, err, Snap(), dp)
      decreases OVS_RECURSION_LIMIT + 1 - level, 1, if work.Some? then 2 * Cost(work.value) + 4 else 0
    {
      if level > OVS_DEFERRED_ACTION_THRESHOLD {
        err := false;
        step := DeferOrDrop(skb, key, work, id, dp);
        return;
      }
      var clone := keys[level - 1];
      clone.key := key.key;
      if work.Some? {
        err, step := ExecuteAbove(skb, clone, work.value, dp);
      } else {
        clone.key := clone.key.(recircId := id);
        err := false;
        step := DpProcessPacket(skb, clone, dp);
      }
    }

    /** A sample on its own key runs one level up. */
    method ExecuteAbove(skb: nat, key: KeyBox, actions: seq<Action>, dp: Datapath) returns (err: bool, ghost step: Step)
      requires Ours(skb) && 1 <= level < OVS_RECURSION_LIMIT && Apart(key, level + 1)
      modifies this, fifo, key, Scratch(level + 1)
      ensures Queue() && step.Ran? && step.run.list == actions && step.run.err == err
      ensures Above(old(Snap()), skb, old(key.key), step, Snap(), dp)
      decreases OVS_RECURSION_LIMIT + 1 - level, 0, 0
    {
      ghost var s := Snap();
      level, peak := level + 1, Max(peak, level + 1);
      RaisedTidy(s, Snap());
      ghost var run;
      err, run := DoExecuteActions(skb, key, actions, dp);
      RunLater(run, dp);
      level := level - 1;
      step := Ran(run);
    }

    /** ovs_dp_process_packet: run the actions of the flow, or report the miss to user space. */
    method DpProcessPacket(skb: nat, key: KeyBox, dp: Datapath) returns (ghost step: Step)
      requires Ours(skb) && 1 <= level <= OVS_RECURSION_LIMIT && Apart(key, level + 1)
      modifies this, fifo, key, Scratch(level + 1)
      ensures Queue() && LookedUp(old(Snap()), skb, old(key.key), step, Snap(), dp)
      decreases OVS_RECURSION_LIMIT + 1 - level, 0, 2
    {
      match dp.flows(key.key)
      case None =>
        Settle(skb, Released);
        step := Missed;
      case Some(actions) =>
        var err;
        err, step := ExecuteNested(skb, key, actions, dp);
    }

    /** ovs_execute_actions on behalf of a running one. */
    method ExecuteNested(skb: nat, key: KeyBox, actions: seq<Action>, dp: Datapath) returns (err: bool, ghost step: Step)
      requires Ours(skb) && 1 <= level <= OVS_RECURSION_LIMIT && Apart(key, level + 1)
      modifies this, fifo, key, Scratch(level + 1)
      ensures Queue()
      ensures if old(level) >= OVS_RECURSION_LIMIT then step.TooDeep? && err && Snap() == old(Snap()).Settle(skb, Released)
        else step.Ran? && step.run.list == actions && step.run.err == err && Above(old(Snap()), skb, old(key.key), step, Snap(), dp)
      decreases OVS_RECURSION_LIMIT + 1 - level, 0, 1
    {
      level := level + 1;
      if level > OVS_RECURSION_LIMIT {
        Settle(skb, Released);
        err, step := true, TooDeep;
        level := level - 1;
        return;
      }
      level := level - 1;
      err, step := ExecuteAbove(skb, key, actions, dp);
    }

    /** process_deferred_actions, at level 1. */
    method ProcessDeferredActions(dp: Datapath) returns (ghost vs: seq<Service>)
      requires Queue() && Tidy(Snap()) && level == 1 && tail == 0
      modifies this, fifo, keys, fifoKeys
      ensures Queue() && level == 1 && head == tail == 0 && Serving(old(Snap()), vs, Snap().(tail := |vs|), dp)
      decreases OVS_RECURSION_LIMIT + 1 - level, 2, 1
    {
      ghost var start := Snap();
      vs := [];
      while tail < head
        invariant Queue() && Tidy(Snap()) && level == 1 && tail == |vs| && Serving(start, vs, Snap(), dp)
        decreases DEFERRED_ACTION_FIFO_SIZE - tail
      {
        ghost var v := ProcessOne(dp);
        ServedLater(v, dp);
        ServedTidy(v, dp);
        assert (vs + [v])[..|vs|] == vs;
        vs := vs + [v];
      }
      head, tail := 0, 0;
    }

    /** The oldest entry of the queue, on the key stored with it. */
    method ProcessOne(dp: Datapath) returns (ghost v: Service)
      requires Queue() && Tidy(Snap()) && level == 1 && tail < head
      modifies this, fifo, keys, fifoKeys
      ensures Queue() && Served(v, dp) && v.before == old(Snap()) && v.after == Snap()
      decreases OVS_RECURSION_LIMIT + 1 - level, 2, 0
    {
      ghost var before := Snap();
      ServeTidy(before);
      var key := fifoKeys[tail];
      var da := Get();
      ghost var step;
      if da.actions.Some? {
        ghost var run;
        var err;
        err, run := DoExecuteActions(da.skb, key, da.actions.value, dp);
        step := Ran(run);
      } else {
        step := DpProcessPacket(da.skb, key, dp);
      }
      v := Service(before.pending[0], before, step, Snap());
    }

    /** ovs_execute_actions as the outermost call for a packet.  What it does is a handling the
        rules allow; level and queue are left as they were found, and the packet and all its
        clones are settled, except for those leaked because a flow key could not be extracted; and if nothing
        is refused, what is sent is what the list means. */
    method ExecuteActions(skb: nat, key: KeyBox, actions: seq<Action>, dp: Datapath)
      returns (err: bool, ghost run: Run, ghost vs: seq<Service>)
      requires Ours(skb) && level == head == tail == 0 && Apart(key, 1)
      modifies this, fifo, key, keys, fifoKeys
      ensures Handles(old(Snap()), run, vs, Snap(), dp)
      ensures run.skb == skb && run.list == actions && run.start.key == old(key.key) && run.end.key == key.key && run.err == err
      ensures Queue() && Tidy(Snap()) && level == head == tail == 0 && AllAccounted(old(Snap()), Snap(), skb)
      ensures (leaks != old(leaks) ==> failed) && peak <= Max(old(peak), OVS_RECURSION_LIMIT - 1)
      ensures AsMeant(old(Snap()), Snap(), actions, old(key.key), dp)
      ensures forall port: nat :: LeadsTo(actions, old(key.key), port, dp) ==>
        skb in fate && fate[skb] == if dp.Takes(port, skb) then Sent(port) else Released
    {
      ghost var start := Snap();
      level, peak := 1, Max(peak, 1);
      RaisedTidy(start, Snap());
      err, run := DoExecuteActions(skb, key, actions, dp);
      RunLater(run, dp);
      RunTidy(run, dp);
      vs := ProcessDeferredActions(dp);
      level := 0;
      HandledInFull(start, run, vs, Snap(), dp, skb);
      AllHandled(start, run, vs, Snap(), dp);
      AllAsMeant(start, run, vs, Snap(), dp);
      AllDelivered(start, run, vs, Snap(), dp);
    }

    /** ovs_dp_process_packet for a packet received from a port. */
    method ReceivePacket(skb: nat, key: KeyBox, dp: Datapath)
      requires Ours(skb) && level == head == tail == 0 && Apart(key, 1)
      modifies this, fifo, key, keys, fifoKeys
      ensures Queue() && Tidy(Snap()) && level == head == tail == 0
      ensures dp.flows(old(key.key)).None? ==> Snap() == old(Snap()).Settle(skb, Released)
      ensures forall list :: dp.flows(old(key.key)) == Some(list) ==>
        exists run, vs :: Handles(old(Snap()), run, vs, Snap(), dp) && run.skb == skb && run.list == list
                          && run.start.key == old(key.key)
      ensures forall list :: dp.flows(old(key.key)) == Some(list) ==> AsMeant(old(Snap()), Snap(), list, old(key.key), dp)
    {
      match dp.flows(key.key)
      case None =>
        SettledTidy(Snap(), skb);
        Settle(skb, Released);
      case Some(actions) =>
        ghost var start, k := Snap(), key.key;
        var err;
        ghost var run, vs;
        err, run, vs := ExecuteActions(skb, key, actions, dp);
        assert Handles(start, run, vs, Snap(), dp);
    }
  }
}
