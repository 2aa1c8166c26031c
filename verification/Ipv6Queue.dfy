/** The IPv6 reassembly queue on its linked list (linux/compat/nf_conntrack_reasm.c), proved to
    compute exactly the functions of Ipv6Reassembly. */
module Ipv6Queue {
  import opened Pieces
  import opened InetFrag
  import opened SkbList
  import opened Ipv6Reassembly

  method RecordEnd(q: FragQueue, f: Fragment) returns (ok: bool)
    modifies q`len, q`lastIn
    ensures NoteEnd(old(Model(q)), f) == if ok then Noted(Model(q)) else Refused
    ensures !ok ==> Model(q) == old(Model(q))
  {
    var end := f.Off() + |f.data|;
    if end > IPV6_MAXPLEN {
      return false;
    }
    if !f.mf {
      if end < q.len || (q.lastIn && end != q.len) {
        return false;
      }
      q.lastIn := true;
      q.len := end;
    } else {
      if end % 8 != 0 {
        return false;
      }
      if end > q.len {
        if q.lastIn {
          return false;
        }
        q.len := end;
      }
    }
    ok := true;
  }

  /** Account for the buffer and hang it in. */
  method Enter(q: FragQueue, skb: Skb, prev: Skb?, next: Skb?, ghost k: nat, ecn: nat)
    requires q.Valid() && skb !in q.owned && k <= |q.nodes|
    requires prev == NodeAt(q.nodes, k - 1) && next == NodeAt(q.nodes, k)
    modifies q`fragments, q`tail, q`nodes, q`pieces, q`owned, q`meat, q`ecn, q`firstIn, q.owned`next, skb`next
    ensures q.Valid() && q.owned == old(q.owned) + {skb}
    ensures k < |q.nodes| && q.nodes[k] == skb
    ensures Model(q) == old(Model(q)).(pieces := Inserted(old(q.pieces), k, skb.View()),
      meat := old(q.meat) + |skb.data|, ecn := old(q.ecn) + {ecn}, firstIn := old(q.firstIn) || skb.off == 0)
  {
    q.meat := q.meat + |skb.data|;
    q.ecn := q.ecn + {ecn};
    if skb.off == 0 {
      q.firstIn := true;
    }
    q.LinkIn(skb, prev, next, k);
  }

  /** The list search and the tests of the two neighbours. */
  method Place(q: FragQueue, skb: Skb) returns (hit: bool, prev: Skb?, next: Skb?, ghost k: nat)
    requires q.Valid() && Disjoint(q.pieces)
    ensures hit <==> HitsNeighbour(q.pieces, skb.View())
    ensures k == Slot(q.pieces, skb.off) && prev == NodeAt(q.nodes, k - 1) && next == NodeAt(q.nodes, k)
  {
    prev, next, k := q.Locate(skb.off);
    hit := || (prev != null && prev.off + |prev.data| > skb.off)
           || (next != null && next.off < skb.off + |skb.data|);
  }

  /** From the list search to the insertion: look at the two neighbours only. */
  method InsertOrKill(q: FragQueue, skb: Skb, f: Fragment) returns (ok: bool, ghost k: nat)
    requires q.Valid() && Disjoint(q.pieces) && skb !in q.owned && skb.View() == f.Raw()
    modifies q, q.owned`next, skb`next
    ensures q.Valid() && (Model(q), ok) == Link(old(Model(q)), f)
    ensures k == Slot(old(q.pieces), f.Off()) && q.owned <= old(q.owned) + {skb}
    ensures ok ==> k < |q.nodes| && q.nodes[k] == skb
  {
    var hit, prev, next;
    hit, prev, next, k := Place(q, skb);
    if hit {
      q.complete := true;
      return false, k;
    }
    Enter(q, skb, prev, next, k, f.ecn);
    ok := true;
  }

  /** nf_ct_frag6_queue. */
  method NfCtFrag6Queue(q: FragQueue, skb: Skb, f: Fragment, env: Env) returns (ok: bool, ghost k: nat)
    requires q.Valid() && Disjoint(q.pieces) && skb !in q.owned
    requires skb.data == f.data && skb.hdr == f.hdr
    modifies q, q.owned`next, skb`next, skb`off
    ensures q.Valid() && (Model(q), ok) == Enqueue(old(Model(q)), f, env)
    ensures k == Slot(old(q.pieces), f.Off()) && q.owned <= old(q.owned) + {skb}
    ensures ok ==> k < |q.nodes| && q.nodes[k] == skb
  {
    k := Slot(q.pieces, f.Off());
    if q.complete {
      return false, k;
    }
    ok := RecordEnd(q, f);
    if !ok || f.data == [] || !env.pull || !env.trim {
      return false, k;
    }
    skb.off := f.Off();
    ok, k := InsertOrKill(q, skb, f);
  }

  /** nf_ct_frag6_reasm; true when the buffer received last has become the datagram. */
  method NfCtFrag6Reasm(q: FragQueue, skb: Skb, ghost k: nat, env: Env, bad: set<nat> -> bool) returns (v: Verdict)
    requires q.Valid() && k < |q.nodes| && skb == q.nodes[k]
    modifies q`complete, q`fragments, q`tail, q`nodes, q`pieces, q.owned
    ensures q.Valid() && (Model(q), v) == Reassemble(old(Model(q)), k > 0, env, bad)
    ensures v.Delivered? ==> skb.data == v.datagram && skb.next == null
  {
    q.complete := true;
    if bad(q.ecn) {
      return InProgress;
    }
    var head := q.fragments;
    if head.hdr - IPV6_HDR_LEN + q.len > IPV6_MAXPLEN {
      return InProgress;
    }
    if !env.unclone {
      return InProgress;
    }
    if head != skb && !env.clone {
      SameOnlyFirst(q.nodes, k);
      return InProgress;
    }
    SameOnlyFirst(q.nodes, k);
    v := Release(q, skb, k);
  }

  lemma SameOnlyFirst(ns: seq<Skb>, k: nat)
    requires Chained(ns) && k < |ns|
    ensures ns[0] == ns[k] <==> k == 0
  {
    if k > 0 { NoRepeats(ns, 0, k); }
  }

  /** Morph the head into the last buffer, glue the list onto it, and let go of it. */
  method Release(q: FragQueue, skb: Skb, ghost k: nat) returns (v: Verdict)
    requires q.Valid() && k < |q.nodes| && skb == q.nodes[k]
    modifies q`fragments, q`tail, q`nodes, q`pieces, q.owned
    ensures q.Valid() && q.pieces == []
    ensures v == Delivered(Glue(old(q.pieces))) && skb.data == v.datagram && skb.next == null
  {
    var head, ns := q.MorphHead(skb, k);
    Gather(head, ns, q.pieces);
    v := Delivered(head.data);
    q.fragments, q.tail := null, null;
    q.nodes, q.pieces := [], [];
  }

  /** rpl_nf_ct_frag6_gather once the queue is found: every outcome of the value-level function
      Receive is produced in place. */
  method NfCtFrag6Gather(q: FragQueue, skb: Skb, f: Fragment, env: Env, bad: set<nat> -> bool) returns (v: Verdict)
    requires q.Valid() && Sound(Model(q)) && skb !in q.owned
    requires skb.data == f.data && skb.hdr == f.hdr
    modifies q, q.owned, skb
    ensures q.Valid() && Sound(Model(q))
    ensures (Model(q), v) == Receive(old(Model(q)), f, env, bad)
    ensures v.Delivered? ==> skb.data == v.datagram && skb.next == null
  {
    ReceiveKeepsSound(Model(q), f, env, bad);
    var ok, k := NfCtFrag6Queue(q, skb, f, env);
    if !ok {
      return Invalid;
    }
    if q.firstIn && q.lastIn && q.meat == q.len {
      v := NfCtFrag6Reasm(q, skb, k, env, bad);
    } else {
      v := InProgress;
    }
  }
}
