/** The IPv4 reassembly queue on its linked list (linux/compat/ip_fragment.c), proved to
    compute exactly the functions of Ipv4Reassembly. */
module Ipv4Queue {
  import opened Wrappers
  import opened Pieces
  import opened InetFrag
  import opened SkbList
  import opened Ipv4Reassembly

  /** ip_frag_reinit once the timer could be re-armed: free every buffer, start over. */
  method Restart(q: FragQueue)
    requires q.Valid() && q.nodes != [] && !q.complete
    modifies q
    ensures q.Valid() && q.owned == old(q.owned) && Model(q) == Reinit(old(Model(q)))
  {
    var fp := q.fragments;
    ghost var i := 0;
    while fp != null
      invariant i <= |q.nodes| && fp == NodeAt(q.nodes, i)
      decreases |q.nodes| - i
    {
      fp := fp.next;
      i := i + 1;
    }
    q.firstIn, q.lastIn, q.len, q.meat := false, false, 0, 0;
    q.fragments, q.tail, q.ecn := null, null, {};
    q.nodes, q.pieces := [], [];
  }

  /** Check the end of a fragment against the known length and record it. */
  method RecordEnd(q: FragQueue, f: Fragment) returns (ok: bool)
    modifies q`len, q`lastIn
    ensures NoteEnd(old(Model(q)), f) == if ok then Noted(Model(q)) else Refused
    ensures !ok ==> Model(q) == old(Model(q))
  {
    var end := f.End();
    if !f.mf {
      if end < q.len || (q.lastIn && end != q.len) {
        return false;
      }
      q.lastIn := true;
      q.len := end;
    } else if end > q.len {
      if q.lastIn {
        return false;
      }
      q.len := end;
    }
    ok := true;
  }

  // -------------------------------------------------------------- overlap with what follows

  /** Turning the pieces ps with counter m into rs with counter n is what eating up to end
      does to everything from position k on. */
  ghost predicate Eaten(ps: seq<Piece>, m: int, rs: seq<Piece>, n: int, k: nat, end: nat, pullOk: bool) {
    && k <= |ps| && k <= |rs|
    && rs[..k] == ps[..k]
    && n - Total(rs[k..]) == m - Total(ps[k..])
    && Eat(rs[k..], end, pullOk) == Eat(ps[k..], end, pullOk)
  }

  /** The same once the loop is over. */
  ghost predicate DoneEating(ps: seq<Piece>, m: int, rs: seq<Piece>, n: int, k: nat, end: nat, pullOk: bool, ok: bool) {
    && k <= |ps| && k <= |rs|
    && rs[..k] == ps[..k]
    && n - Total(rs[k..]) == m - Total(ps[k..])
    && (rs[k..], ok) == Eat(ps[k..], end, pullOk)
  }

  lemma DropEats(ps: seq<Piece>, m: int, rs: seq<Piece>, n: int, k: nat, end: nat, pullOk: bool)
    requires Eaten(ps, m, rs, n, k, end, pullOk) && k < |rs|
    requires rs[k].off < end && end - rs[k].off >= |rs[k].data|
    ensures Eaten(ps, m, Without(rs, k), n - |rs[k].data|, k, end, pullOk)
  {
    assert rs[k..][0] == rs[k] && rs[k..][1..] == Without(rs, k)[k..];
    assert Without(rs, k)[..k] == rs[..k];
  }

  lemma CutEats(ps: seq<Piece>, m: int, rs: seq<Piece>, n: int, k: nat, end: nat, pullOk: bool)
    requires Eaten(ps, m, rs, n, k, end, pullOk)
    requires k < |rs| && 0 < end - rs[k].off < |rs[k].data|
    ensures var x := rs[k]; var i := end - x.off;
      if pullOk then DoneEating(ps, m, rs[k := Piece(x.off + i, x.hdr, x.data[i..])], n - i, k, end, pullOk, true)
      else DoneEating(ps, m, rs, n, k, end, pullOk, false)
  {
    var x := rs[k];
    var i := end - x.off;
    var ss := rs[k := Piece(x.off + i, x.hdr, x.data[i..])];
    assert rs[k..][0] == rs[k] && ss[k..][1..] == rs[k..][1..];
    assert ss[k..] == [ss[k]] + rs[k..][1..];
    assert ss[..k] == rs[..k];
  }

  lemma StopEats(ps: seq<Piece>, m: int, rs: seq<Piece>, n: int, k: nat, end: nat, pullOk: bool)
    requires Eaten(ps, m, rs, n, k, end, pullOk) && (k < |rs| ==> rs[k].off >= end)
    ensures DoneEating(ps, m, rs, n, k, end, pullOk, true)
  {
  }

  /** Cut the head off the buffer the newcomer overlaps in part. */
  method CutHead(q: FragQueue, node: Skb, i: nat, ghost k: nat)
    requires q.Listed() && k < |q.nodes| && node == q.nodes[k] && i <= |node.data|
    modifies q`meat, q`pieces, node`off, node`data
    ensures q.Listed() && q.meat == old(q.meat) - i
    ensures q.pieces == old(q.pieces)[k := Piece(old(q.pieces[k].off) + i, old(q.pieces[k].hdr), old(q.pieces[k].data)[i..])]
  {
    q.meat := q.meat - i;
    q.Pull(node, i, k);
  }

  /** Free a buffer the newcomer covers completely. */
  method DropCovered(q: FragQueue, prev: Skb?, node: Skb, ghost k: nat, end: nat, ghost pullOk: bool,
                     ghost ps: seq<Piece>, ghost m: int)
    returns (next: Skb?)
    requires q.Listed() && k < |q.nodes| && node.off < end && end - node.off >= |node.data|
    requires prev == NodeAt(q.nodes, k - 1) && node == q.nodes[k]
    requires Eaten(ps, m, q.pieces, q.meat, k, end, pullOk)
    modifies q`fragments, q`meat, q`nodes, q`pieces, q.owned`next
    ensures q.Listed() && k <= |q.nodes| < old(|q.nodes|)
    ensures next == NodeAt(q.nodes, k) && prev == NodeAt(q.nodes, k - 1)
    ensures next != null ==> LastOf(q.nodes) == old(LastOf(q.nodes))
    ensures Eaten(ps, m, q.pieces, q.meat, k, end, pullOk)
  {
    DropEats(ps, m, q.pieces, q.meat, k, end, pullOk);
    q.meat := q.meat - |node.data|;
    next := q.Unlink(prev, node, k);
  }

  /** One turn of the loop over overlapped buffers: drop a covered one and go on, or cut the
      head off a partly covered one and stop, since later ones cannot overlap. */
  method EatOne(q: FragQueue, prev: Skb?, node: Skb, ghost k: nat, end: nat, pullOk: bool, ghost ps: seq<Piece>, ghost m: int)
    returns (next: Skb?, stop: bool)
    requires q.Listed() && k < |q.nodes| && node.off < end
    requires prev == NodeAt(q.nodes, k - 1) && node == q.nodes[k]
    requires Eaten(ps, m, q.pieces, q.meat, k, end, pullOk)
    modifies q`fragments, q`meat, q`nodes, q`pieces, q.owned
    ensures q.Listed() && k <= |q.nodes|
    ensures next == NodeAt(q.nodes, k) && prev == NodeAt(q.nodes, k - 1)
    ensures next != null ==> LastOf(q.nodes) == old(LastOf(q.nodes))
    ensures stop ==> next != null && DoneEating(ps, m, q.pieces, q.meat, k, end, pullOk, pullOk)
    ensures !stop ==> |q.nodes| < old(|q.nodes|) && Eaten(ps, m, q.pieces, q.meat, k, end, pullOk)
  {
    var i := end - node.off;
    if i < |node.data| {
      CutEats(ps, m, q.pieces, q.meat, k, end, pullOk);
      if pullOk {
        CutHead(q, node, i, k);
      }
      next, stop := node, true;
    } else {
      next := DropCovered(q, prev, node, k, end, pullOk, ps, m);
      stop := false;
    }
  }

  /** The loop over the buffers a newcomer ending at end overlaps.  While the last buffer is
      being dropped the tail pointer lags behind; the insertion that follows repairs it. */
  method EatOverlapped(q: FragQueue, prev: Skb?, first: Skb?, ghost k: nat, end: nat, pullOk: bool)
    returns (next: Skb?, ok: bool)
    requires q.Valid() && k <= |q.nodes|
    requires prev == NodeAt(q.nodes, k - 1) && first == NodeAt(q.nodes, k)
    modifies q`fragments, q`meat, q`nodes, q`pieces, q.owned
    ensures q.Listed() && k <= |q.nodes|
    ensures next == NodeAt(q.nodes, k) && prev == NodeAt(q.nodes, k - 1)
    ensures next != null ==> q.tail == LastOf(q.nodes)
    ensures !ok ==> next != null
    ensures DoneEating(old(q.pieces), old(q.meat), q.pieces, q.meat, k, end, pullOk, ok)
  {
    next := first;
    ok := true;
    ghost var ps, m := q.pieces, q.meat;
    while next != null && next.off < end
      invariant q.Listed() && k <= |q.nodes| && ok
      invariant next == NodeAt(q.nodes, k) && prev == NodeAt(q.nodes, k - 1)
      invariant next != null ==> q.tail == LastOf(q.nodes)
      invariant Eaten(ps, m, q.pieces, q.meat, k, end, pullOk)
      decreases |q.nodes|
    {
      var stop;
      next, stop := EatOne(q, prev, next, k, end, pullOk, ps, m);
      if stop {
        return next, pullOk;
      }
    }
    StopEats(ps, m, q.pieces, q.meat, k, end, pullOk);
  }

  // ------------------------------------------------------------------- completion

  /** ip_frag_reasm.  The received buffer becomes the datagram, wherever it sat. */
  method IpFragReasm(q: FragQueue, skb: Skb, prev: Skb?, ghost k: nat, env: Env, bad: set<nat> -> bool)
    returns (v: Verdict)
    requires q.Valid() && k < |q.nodes| && skb == q.nodes[k] && prev == NodeAt(q.nodes, k - 1)
    modifies q`complete, q`fragments, q`tail, q`nodes, q`pieces, q`owned, q.owned
    ensures q.Valid() && (Model(q), v) == Reassemble(old(Model(q)), prev != null, env, bad)
    ensures v.Delivered? ==> skb.data == v.datagram && skb.next == null
  {
    q.complete := true;
    if bad(q.ecn) {
      return Dropped(Invalid);
    }
    var head := q.fragments;
    if prev != null {
      if !env.clone {
        return Dropped(NoMemory);
      }
      head := q.SwapHead(prev, k);
    }
    if head.hdr + q.len > MAX_IP_PACKET {
      return Dropped(TooBig);
    }
    if !env.unclone {
      return Dropped(NoMemory);
    }
    v := Release(q, head);
  }

  /** Glue the list onto its head and let go of it. */
  method Release(q: FragQueue, head: Skb) returns (v: Verdict)
    requires q.Valid() && q.nodes != [] && head == q.nodes[0]
    modifies q`fragments, q`tail, q`nodes, q`pieces, head`data, head`next
    ensures q.Valid() && q.pieces == []
    ensures v == Delivered(Glue(old(q.pieces))) && head.data == v.datagram && head.next == null
  {
    Gather(head, q.nodes, q.pieces);
    v := Delivered(head.data);
    q.fragments, q.tail := null, null;
    q.nodes, q.pieces := [], [];
  }

  /** The queue once the overlap is settled and, if that worked, the buffer is in. */
  ghost function Settled(q: Queue, k: nat, y: Piece, ecn: nat, rs: seq<Piece>, n: int, ok: bool): Queue
    requires k <= |rs|
  {
    if ok then
      q.(pieces := Inserted(rs, k, y), meat := n + |y.data|, ecn := q.ecn + {ecn},
         firstIn := q.firstIn || y.off == 0)
    else q.(pieces := rs, meat := n)
  }

  lemma SettleAfterEating(q: Queue, k: nat, y: Piece, ecn: nat, env: Env, bad: set<nat> -> bool,
                          rs: seq<Piece>, n: int, ok: bool)
    requires DoneEating(q.pieces, q.meat, rs, n, k, y.End(), env.pullNext, ok)
    ensures Settle(q, k, y, ecn, env, bad) ==
      if ok then Finish(Settled(q, k, y, ecn, rs, n, ok), k > 0, env, bad)
      else (Settled(q, k, y, ecn, rs, n, ok), Dropped(NoMemory))
  {
    assert rs == q.pieces[..k] + rs[k..];
  }

  /** Insert the buffer and account for it. */
  method Enter(q: FragQueue, skb: Skb, prev: Skb?, next: Skb?, ghost k: nat, ecn: nat)
    requires q.Listed() && skb !in q.owned && k <= |q.nodes|
    requires prev == NodeAt(q.nodes, k - 1) && next == NodeAt(q.nodes, k)
    requires next != null ==> q.tail == LastOf(q.nodes)
    modifies q`fragments, q`tail, q`nodes, q`pieces, q`owned, q`meat, q`ecn, q`firstIn, q.owned`next, skb`next
    ensures q.Valid() && q.owned == old(q.owned) + {skb}
    ensures k < |q.nodes| && q.nodes[k] == skb && prev == NodeAt(q.nodes, k - 1)
    ensures Model(q) == old(Model(q)).(pieces := Inserted(old(q.pieces), k, skb.View()),
      meat := old(q.meat) + |skb.data|, ecn := old(q.ecn) + {ecn}, firstIn := old(q.firstIn) || skb.off == 0)
  {
    q.meat := q.meat + |skb.data|;
    q.ecn := q.ecn + {ecn};
    if skb.off == 0 {
      q.firstIn := true;
    }
    q.LinkIn(skb, prev, next, k);
  }

  /** The completion test at the end of ip_frag_queue. */
  method Test(q: FragQueue, skb: Skb, prev: Skb?, ghost k: nat, env: Env, bad: set<nat> -> bool) returns (v: Verdict)
    requires q.Valid() && k < |q.nodes| && skb == q.nodes[k] && prev == NodeAt(q.nodes, k - 1)
    modifies q`complete, q`fragments, q`tail, q`nodes, q`pieces, q`owned, q.owned
    ensures q.Valid() && (Model(q), v) == Finish(old(Model(q)), k > 0, env, bad)
    ensures v.Delivered? ==> skb.data == v.datagram && skb.next == null
  {
    if q.firstIn && q.lastIn && q.meat == q.len {
      v := IpFragReasm(q, skb, prev, k, env, bad);
    } else {
      v := InProgress;
    }
  }

  /** Settle the overlap with what follows and insert the buffer. */
  method Admit(q: FragQueue, skb: Skb, prev: Skb?, first: Skb?, ghost k: nat, ecn: nat, pullOk: bool)
    returns (ok: bool, ghost rs: seq<Piece>, ghost n: int)
    requires q.Valid() && k <= |q.nodes| && skb !in q.owned
    requires prev == NodeAt(q.nodes, k - 1) && first == NodeAt(q.nodes, k)
    modifies q`fragments, q`tail, q`nodes, q`pieces, q`owned, q`meat, q`ecn, q`firstIn, q.owned, skb`next
    ensures q.Valid()
    ensures ok ==> k < |q.nodes| && q.nodes[k] == skb && prev == NodeAt(q.nodes, k - 1)
    ensures DoneEating(old(q.pieces), old(q.meat), rs, n, k, old(skb.View()).End(), pullOk, ok)
    ensures Model(q) == Settled(old(Model(q)), k, old(skb.View()), ecn, rs, n, ok)
    ensures q.owned == old(q.owned) + if ok then {skb} else {}
  {
    ghost var q0 := Model(q);
    var next;
    next, ok := EatOverlapped(q, prev, first, k, skb.off + |skb.data|, pullOk);
    rs, n := q.pieces, q.meat;
    assert Model(q) == q0.(pieces := rs, meat := n);
    if ok {
      Enter(q, skb, prev, next, k, ecn);
    }
  }

  /** From the overlap loop to the end of ip_frag_queue: the buffer is already trimmed against
      the one in front of it. */
  method Place(q: FragQueue, skb: Skb, prev: Skb?, first: Skb?, ghost k: nat, ecn: nat,
               env: Env, bad: set<nat> -> bool)
    returns (v: Verdict)
    requires q.Valid() && k <= |q.nodes| && skb !in q.owned
    requires prev == NodeAt(q.nodes, k - 1) && first == NodeAt(q.nodes, k)
    modifies q`fragments, q`tail, q`nodes, q`pieces, q`owned, q`meat, q`ecn, q`firstIn, q`complete, q.owned, skb
    ensures q.Valid()
    ensures (Model(q), v) == Settle(old(Model(q)), k, old(skb.View()), ecn, env, bad)
    ensures v.Delivered? ==> skb.data == v.datagram && skb.next == null
  {
    ghost var q0, y := Model(q), skb.View();
    var ok, rs, n := Admit(q, skb, prev, first, k, ecn, env.pullNext);
    SettleAfterEating(q0, k, y, ecn, env, bad, rs, n, ok);
    if ok {
      v := Test(q, skb, prev, k, env, bad);
    } else {
      v := Dropped(NoMemory);
    }
  }

  /** Keep only what the buffer in front does not already hold. */
  method TrimFront(q: FragQueue, skb: Skb, prev: Skb?, ghost k: nat, env: Env) returns (refused: Option<Errno>)
    requires q.Valid() && Disjoint(q.pieces) && skb !in q.owned && skb.data != []
    requires k == Slot(q.pieces, skb.off) && prev == NodeAt(q.nodes, k - 1)
    modifies skb`data, skb`off
    ensures var x, y := old(skb.View()), AfterPrevious(q.pieces, old(skb.View()));
      if y != x && y.data == [] then refused == Some(Invalid)
      else if y != x && !env.pullSelf then refused == Some(NoMemory)
      else refused == None && skb.View() == y
  {
    refused := None;
    if prev != null {
      assert prev == q.nodes[k - 1];
      var i := prev.off + |prev.data| - skb.off;
      if i > 0 {
        if skb.off + |skb.data| <= skb.off + i {
          return Some(Invalid);
        }
        if !env.pullSelf {
          return Some(NoMemory);
        }
        skb.data := skb.data[i..];
        skb.off := skb.off + i;
      }
    }
  }

  /** From the list search to the end of ip_frag_queue. */
  method Insert(q: FragQueue, skb: Skb, ecn: nat, env: Env, bad: set<nat> -> bool) returns (v: Verdict)
    requires q.Valid() && Disjoint(q.pieces) && skb !in q.owned && skb.data != []
    modifies q`fragments, q`tail, q`nodes, q`pieces, q`owned, q`meat, q`ecn, q`firstIn, q`complete, q.owned, skb
    ensures q.Valid()
    ensures (Model(q), v) == Link(old(Model(q)), old(skb.View()), ecn, env, bad)
    ensures v.Delivered? ==> skb.data == v.datagram && skb.next == null
  {
    var prev, next, k := q.Locate(skb.off);
    var refused := TrimFront(q, skb, prev, k, env);
    if refused.Some? {
      return Dropped(refused.value);
    }
    v := Place(q, skb, prev, next, k, ecn, env, bad);
  }

  method Examined(q: FragQueue, skb: Skb, f: Fragment, env: Env, bad: set<nat> -> bool) returns (v: Verdict)
    requires q.Valid() && Disjoint(q.pieces) && skb !in q.owned
    requires skb.data == f.data && skb.hdr == f.hdr
    modifies q, q.owned, skb
    ensures q.Valid()
    ensures (Model(q), v) == Examine(old(Model(q)), f, env, bad)
    ensures v.Delivered? ==> skb.data == v.datagram && skb.next == null
  {
    if f.End() == f.Off() {
      return Dropped(Invalid);
    }
    if !env.pullHeader || !env.trim {
      return Dropped(NoMemory);
    }
    skb.data := skb.data[..f.End() - f.Off()];
    skb.off := f.Off();
    v := Insert(q, skb, f.ecn, env, bad);
  }

  /** ip_frag_queue.  f describes the packet whose payload sits in skb.  Every outcome of the
      value-level function Receive, including each failure, is produced in place; when the
      datagram is complete it is left in the buffer that was received last. */
  method IpFragQueue(q: FragQueue, skb: Skb, f: Fragment, env: Env, bad: set<nat> -> bool) returns (v: Verdict)
    requires q.Valid() && Sound(Model(q)) && skb !in q.owned
    requires skb.data == f.data && skb.hdr == f.hdr
    modifies q, q.owned, skb
    ensures q.Valid() && Sound(Model(q))
    ensures (Model(q), v) == Receive(old(Model(q)), f, env, bad)
    ensures v.Delivered? ==> skb.data == v.datagram && skb.next == null
  {
    ReceiveKeepsSound(Model(q), f, env, bad);
    if q.complete {
      return Dropped(NoEntry);
    }
    if env.stale && q.fragments != null {
      if !env.timerArmed {
        q.complete := true;
        return Dropped(TimedOut);
      }
      Restart(q);
    }
    var ok := RecordEnd(q, f);
    if !ok {
      return Dropped(Invalid);
    }
    v := Examined(q, skb, f, env, bad);
  }
}
