/** The singly linked list of received buffers that an inet_frag_queue owns, with the
    in-place surgery the IPv4 and IPv6 reassembly code performs on it. */
module SkbList {
  import opened Pieces
  import opened InetFrag

  /** A socket buffer: list link, payload position, length of its headers, payload. */
  class Skb {
    var next: Skb?
    var off: nat
    var hdr: nat
    var data: Bytes

    constructor (off: nat, hdr: nat, data: Bytes)
      ensures next == null && View() == Piece(off, hdr, data)
    {
      this.next, this.off, this.hdr, this.data := null, off, hdr, data;
    }

    ghost function View(): Piece
      reads `off, `hdr, `data
    {
      Piece(off, hdr, data)
    }
  }

  ghost function NodeAt(ns: seq<Skb>, i: int): Skb? {
    if 0 <= i < |ns| then ns[i] else null
  }

  ghost function LastOf(ns: seq<Skb>): Skb? {
    if ns == [] then null else ns[|ns| - 1]
  }

  /** Each buffer is linked to the one after it and the last to nothing. */
  ghost predicate Chained(ns: seq<Skb>)
    reads ns`next
  {
    forall i {:trigger ns[i].next} :: 0 <= i < |ns| ==> ns[i].next == NodeAt(ns, i + 1)
  }

  /** The buffers hold these pieces. */
  ghost predicate Hold(ns: seq<Skb>, ps: seq<Piece>)
    reads ns`off, ns`hdr, ns`data
  {
    && |ns| == |ps|
    && forall i {:trigger ns[i].off} {:trigger ns[i].hdr} {:trigger ns[i].data} {:trigger ps[i]} ::
      0 <= i < |ns| ==> ns[i].off == ps[i].off && ns[i].hdr == ps[i].hdr && ns[i].data == ps[i].data
  }

  ghost predicate Inside(ns: seq<Skb>, region: set<Skb>) {
    forall i :: 0 <= i < |ns| ==> ns[i] in region
  }

  /** The buffers of a list that ends are distinct. */
  lemma {:induction false} NoRepeats(ns: seq<Skb>, i: nat, j: nat)
    requires Chained(ns) && i < j < |ns|
    ensures ns[i] != ns[j]
    decreases |ns| - j
  {
    if ns[i] == ns[j] {
      assert ns[i].next == NodeAt(ns, i + 1) && ns[j].next == NodeAt(ns, j + 1);
      if j + 1 < |ns| { NoRepeats(ns, i + 1, j + 1); }
    }
  }

  lemma OnlyAt(ns: seq<Skb>, j: nat)
    requires Chained(ns) && j < |ns|
    ensures forall i :: 0 <= i < |ns| && i != j ==> ns[i] != ns[j]
  {
    forall i | 0 <= i < |ns| && i != j
      ensures ns[i] != ns[j]
    {
      if i < j { NoRepeats(ns, i, j); } else { NoRepeats(ns, j, i); }
    }
  }

  // ------------------------------------------------- shapes the surgery produces

  /** Node k moves to the front, the clone fp takes its place, the old front is dropped. */
  ghost function Swapped(ns: seq<Skb>, k: nat, fp: Skb): seq<Skb>
    requires 0 < k < |ns|
  {
    ns[0 := ns[k]][k := fp]
  }

  lemma SwappedChained(ns: seq<Skb>, k: nat, fp: Skb)
    requires 0 < k < |ns| && fp !in ns
    requires forall i {:trigger ns[i].next} :: 0 < i < |ns| && i != k && i != k - 1 ==> ns[i].next == NodeAt(ns, i + 1)
    requires fp.next == NodeAt(ns, k + 1)
    requires ns[k].next == if k == 1 then fp else ns[1]
    requires k > 1 ==> ns[k - 1].next == fp
    ensures Chained(Swapped(ns, k, fp))
  {
    var r := Swapped(ns, k, fp);
    forall i | 0 <= i < |r|
      ensures r[i].next == NodeAt(r, i + 1)
    {
      if i == 0 {
      } else if i == k {
      } else if i == k - 1 {
      } else {
        assert ns[i].next == NodeAt(ns, i + 1);
      }
    }
  }

  lemma SwappedInside(ns: seq<Skb>, k: nat, fp: Skb, region: set<Skb>)
    requires 0 < k < |ns| && Inside(ns, region)
    requires Chained(Swapped(ns, k, fp))
    ensures Inside(Swapped(ns, k, fp), region + {fp})
    ensures LastOf(Swapped(ns, k, fp)) == if fp.next == null then fp else LastOf(ns)
  {
    var r := Swapped(ns, k, fp);
    assert r[k].next == NodeAt(r, k + 1);
  }

  ghost function Inserted<T>(s: seq<T>, k: nat, x: T): (r: seq<T>)
    requires k <= |s|
    ensures |r| == |s| + 1 && r[k] == x
    ensures forall i :: 0 <= i < k ==> r[i] == s[i]
    ensures forall i :: k < i < |r| ==> r[i] == s[i - 1]
  {
    s[..k] + [x] + s[k..]
  }

  ghost function Without<T>(s: seq<T>, k: nat): (r: seq<T>)
    requires k < |s|
    ensures |r| == |s| - 1
    ensures forall i :: 0 <= i < k ==> r[i] == s[i]
    ensures forall i :: k <= i < |r| ==> r[i] == s[i + 1]
  {
    s[..k] + s[k + 1..]
  }

  lemma InsertedChained(ns: seq<Skb>, k: nat, skb: Skb)
    requires k <= |ns|
    requires forall i {:trigger ns[i].next} :: 0 <= i < |ns| && i != k - 1 ==> ns[i].next == NodeAt(ns, i + 1)
    requires k > 0 ==> ns[k - 1].next == skb
    requires skb.next == NodeAt(ns, k)
    ensures Chained(Inserted(ns, k, skb))
  {
    var r := Inserted(ns, k, skb);
    forall i | 0 <= i < |r|
      ensures r[i].next == NodeAt(r, i + 1)
    {
      if i < k - 1 {
        assert r[i] == ns[i] && NodeAt(r, i + 1) == ns[i + 1];
      } else if i > k {
        assert r[i] == ns[i - 1] && NodeAt(r, i + 1) == NodeAt(ns, i);
      } else if i == k {
        assert NodeAt(r, k + 1) == NodeAt(ns, k);
      }
    }
  }

  lemma InsertedInside(ns: seq<Skb>, k: nat, skb: Skb, region: set<Skb>)
    requires k <= |ns| && Inside(ns, region)
    ensures Inside(Inserted(ns, k, skb), region + {skb})
    ensures LastOf(Inserted(ns, k, skb)) == if k == |ns| then skb else LastOf(ns)
    ensures NodeAt(Inserted(ns, k, skb), 0) == if k == 0 then skb else NodeAt(ns, 0)
  {
  }

  lemma WithoutChained(ns: seq<Skb>, k: nat)
    requires k < |ns|
    requires forall i {:trigger ns[i].next} :: 0 <= i < |ns| && i != k - 1 ==> ns[i].next == NodeAt(ns, i + 1)
    requires k > 0 ==> ns[k - 1].next == NodeAt(ns, k + 1)
    ensures Chained(Without(ns, k))
  {
    var r := Without(ns, k);
    forall i | 0 <= i < |r|
      ensures r[i].next == NodeAt(r, i + 1)
    {
      if i >= k {
        assert r[i] == ns[i + 1] && NodeAt(r, i + 1) == NodeAt(ns, i + 2);
      } else if i < k - 1 {
        assert r[i] == ns[i] && NodeAt(r, i + 1) == ns[i + 1];
      } else {
        assert NodeAt(r, k) == NodeAt(ns, k + 1);
      }
    }
  }

  lemma HoldInserted(ns: seq<Skb>, ps: seq<Piece>, k: nat, skb: Skb)
    requires Hold(ns, ps) && k <= |ns|
    ensures Hold(Inserted(ns, k, skb), Inserted(ps, k, skb.View()))
  {
  }

  lemma HoldWithout(ns: seq<Skb>, ps: seq<Piece>, k: nat)
    requires Hold(ns, ps) && k < |ns|
    ensures Hold(Without(ns, k), Without(ps, k))
  {
  }

  /** In a sorted list the last piece alone tells whether a position lies behind all. */
  lemma TailSuffices(ps: seq<Piece>, off: nat)
    requires Disjoint(ps)
    requires ps != [] ==> ps[|ps| - 1].off < off
    ensures Slot(ps, off) == |ps|
  {
    forall i | 0 <= i < |ps|
      ensures ps[i].off < off
    {
      if i < |ps| - 1 { assert ps[i].End() <= ps[|ps| - 1].off; }
    }
    SlotUnique(ps, off, |ps|);
  }

  class FragQueue {
    var fragments: Skb?
    var tail: Skb?
    var len: nat
    var meat: int
    var firstIn: bool
    var lastIn: bool
    var complete: bool
    var ecn: set<nat>
    /** The buffers of the list in order, what they hold, and all buffers ever taken over. */
    ghost var nodes: seq<Skb>
    ghost var pieces: seq<Piece>
    ghost var owned: set<Skb>

    constructor (ecn: nat)
      ensures Valid() && nodes == [] && owned == {} && len == 0 && meat == 0
      ensures !firstIn && !lastIn && !complete && this.ecn == {ecn}
    {
      fragments, tail, len, meat := null, null, 0, 0;
      firstIn, lastIn, complete, this.ecn := false, false, false, {ecn};
      nodes, pieces, owned := [], [], {};
    }

    /** The list proper; the tail pointer may be out of date while the last buffers are
        being replaced. */
    ghost predicate Listed()
      reads `nodes, `pieces, `owned, `fragments, owned
    {
      && Inside(nodes, owned)
      && Chained(nodes) && Hold(nodes, pieces) && fragments == NodeAt(nodes, 0)
    }

    ghost predicate Valid()
      reads `nodes, `pieces, `owned, `fragments, `tail, owned
    {
      Listed() && tail == LastOf(nodes)
    }

    /** Where a fragment at position off belongs: behind the tail in the common case,
        otherwise before the first buffer that starts at or after off. */
    method Locate(off: nat) returns (prev: Skb?, next: Skb?, ghost k: nat)
      requires Valid() && Disjoint(pieces)
      ensures k == Slot(pieces, off)
      ensures prev == NodeAt(nodes, Slot(pieces, off) - 1) && next == NodeAt(nodes, Slot(pieces, off))
    {
      prev := tail;
      if prev == null || prev.off < off {
        next := null;
        k := |nodes|;
        TailSuffices(pieces, off);
        return;
      }
      prev, next, k := Search(off);
    }

    /** Walk from the front to the first buffer that starts at or after off. */
    method Search(off: nat) returns (prev: Skb?, next: Skb?, ghost k: nat)
      requires Listed()
      ensures k == Slot(pieces, off)
      ensures prev == NodeAt(nodes, k - 1) && next == NodeAt(nodes, k)
    {
      prev, next, k := null, fragments, 0;
      while next != null
        invariant k <= |nodes| && next == NodeAt(nodes, k) && prev == NodeAt(nodes, k - 1)
        invariant forall i :: 0 <= i < k ==> pieces[i].off < off
        decreases |nodes| - k
      {
        if next.off >= off {
          break;
        }
        prev, next, k := next, next.next, k + 1;
      }
      SlotUnique(pieces, off, k);
    }

    /** Hang a buffer in between prev and next. */
    method LinkIn(skb: Skb, prev: Skb?, next: Skb?, ghost k: nat)
      requires Listed() && k <= |nodes| && skb !in owned
      requires prev == NodeAt(nodes, k - 1) && next == NodeAt(nodes, k)
      requires next != null ==> tail == LastOf(nodes)
      modifies `fragments, `tail, `nodes, `pieces, `owned, owned`next, skb`next
      ensures Valid() && owned == old(owned) + {skb}
      ensures nodes == Inserted(old(nodes), k, skb) && pieces == Inserted(old(pieces), k, skb.View())
    {
      Hook(skb, prev, next, k);
      HoldInserted(nodes, pieces, k, skb);
      InsertedInside(nodes, k, skb, owned);
      nodes := Inserted(nodes, k, skb);
      pieces := Inserted(pieces, k, skb.View());
      owned := owned + {skb};
    }

    /** The pointer assignments of an insertion. */
    method Hook(skb: Skb, prev: Skb?, next: Skb?, ghost k: nat)
      requires Inside(nodes, owned) && Chained(nodes) && fragments == NodeAt(nodes, 0)
      requires k <= |nodes| && skb !in owned
      requires prev == NodeAt(nodes, k - 1) && next == NodeAt(nodes, k)
      modifies `fragments, `tail, owned`next, skb`next
      ensures Chained(Inserted(nodes, k, skb))
      ensures fragments == if k == 0 then skb else old(fragments)
      ensures tail == if k == |nodes| then skb else old(tail)
    {
      if k > 0 { OnlyAt(nodes, k - 1); }
      skb.next := next;
      if next == null {
        tail := skb;
      }
      if prev != null {
        prev.next := skb;
      } else {
        fragments := skb;
      }
      InsertedChained(nodes, k, skb);
    }

    /** Take the buffer behind prev out of the list. */
    method Unlink(prev: Skb?, node: Skb, ghost k: nat) returns (next: Skb?)
      requires Listed() && k < |nodes|
      requires prev == NodeAt(nodes, k - 1) && node == nodes[k]
      modifies `fragments, `nodes, `pieces, owned`next
      ensures Listed() && nodes == Without(old(nodes), k) && pieces == Without(old(pieces), k)
      ensures next == NodeAt(nodes, k) && prev == NodeAt(nodes, k - 1)
      ensures next != null ==> LastOf(nodes) == old(LastOf(nodes))
    {
      if k > 0 { OnlyAt(nodes, k - 1); }
      next := node.next;
      if prev != null {
        prev.next := next;
      } else {
        fragments := next;
      }
      WithoutChained(nodes, k);
      HoldWithout(nodes, pieces, k);
      nodes := Without(nodes, k);
      pieces := Without(pieces, k);
    }

    /** Pull i bytes off the front of node k. */
    method Pull(node: Skb, i: nat, ghost k: nat)
      requires Listed() && k < |nodes| && node == nodes[k]
      requires i <= |node.data|
      modifies `pieces, node`off, node`data
      ensures Listed()
      ensures var x := old(pieces[k]); pieces == old(pieces)[k := Piece(x.off + i, x.hdr, x.data[i..])]
    {
      OnlyAt(nodes, k);
      node.data := node.data[i..];
      node.off := node.off + i;
      pieces := pieces[k := node.View()];
    }

    /** ip_frag_reasm: turn the just received buffer, which sits behind prev, into the list
        head by cloning it in place and morphing it into the old head. */
    method SwapHead(prev: Skb, ghost k: nat) returns (head: Skb)
      requires Valid() && 0 < k < |nodes| && prev == nodes[k - 1]
      modifies `fragments, `tail, `nodes, `owned, owned
      ensures Valid() && nodes != [] && head == nodes[0] == old(nodes[k])
    {
      head := prev.next;
      var fp := MorphInto(head, fragments, prev, nodes, pieces, k, owned);
      SwappedInside(nodes, k, fp, owned);
      if fp.next == null {
        tail := fp;
      }
      fragments := head;
      nodes := Swapped(nodes, k, fp);
      owned := owned + {fp};
    }

    /** nf_ct_frag6_reasm: the same aim, but the predecessor is searched for, and neither the
        list head nor the tail pointer of the queue is updated. */
    method MorphHead(last: Skb, ghost k: nat) returns (head: Skb, ghost ns: seq<Skb>)
      requires Valid() && k < |nodes| && last == nodes[k]
      modifies owned
      ensures Chained(ns) && ns != [] && head == ns[0] == last && Hold(ns, pieces)
    {
      ns := nodes;
      head := fragments;
      if head != last {
        OnlyAt(nodes, k);
        var iter := head;
        ghost var i := 0;
        while iter.next != last
          invariant i < k && iter == nodes[i]
          decreases k - i
        {
          iter := iter.next;
          i := i + 1;
        }
        var fp := MorphInto(last, head, iter, nodes, pieces, k, owned);
        ns := Swapped(nodes, k, fp);
        head := last;
      }
    }
  }

  ghost function Model(q: FragQueue): Queue
    reads q
  {
    Queue(q.pieces, q.len, q.meat, q.firstIn, q.lastIn, q.complete, q.ecn)
  }

  /** skb_clone and skb_morph around the list links: a clone of node k takes its place behind
      prev, and node k itself becomes a copy of the first node, linked to what followed it. */
  method MorphInto(node: Skb, first: Skb, prev: Skb, ghost ns: seq<Skb>, ghost ps: seq<Piece>, ghost k: nat,
                   ghost region: set<Skb>)
    returns (fp: Skb)
    requires Chained(ns) && Hold(ns, ps) && 0 < k < |ns| && Inside(ns, region)
    requires node == ns[k] && first == ns[0] && prev == ns[k - 1]
    modifies region
    ensures fresh(fp) && Chained(Swapped(ns, k, fp)) && Hold(Swapped(ns, k, fp), ps)
  {
    OnlyAt(ns, k);
    OnlyAt(ns, k - 1);
    fp := new Skb(node.off, node.hdr, node.data);
    fp.next := node.next;
    prev.next := fp;
    node.off, node.hdr, node.data := first.off, first.hdr, first.data;
    node.next := first.next;
    SwappedChained(ns, k, fp);
  }

  lemma {:induction false} GlueAppend(ps: seq<Piece>, n: nat)
    requires n < |ps|
    ensures Glue(ps[..n + 1]) == Glue(ps[..n]) + ps[n].data
  {
    if n == 0 {
      assert ps[..1] == [ps[0]];
    } else {
      assert ps[..n + 1][1..] == ps[1..][..n];
      assert ps[..n][1..] == ps[1..][..n - 1];
      GlueAppend(ps[1..], n - 1);
    }
  }

  /** Make the buffers behind the head its fragment list and take over their payload. */
  method Gather(head: Skb, ghost ns: seq<Skb>, ghost ps: seq<Piece>)
    requires Chained(ns) && Hold(ns, ps) && ns != [] && head == ns[0]
    modifies head`data, head`next
    ensures head.data == Glue(ps) && head.next == null
  {
    OnlyAt(ns, 0);
    var fp := head.next;
    ghost var n := 1;
    GlueAppend(ps, 0);
    assert ps[..0] == [];
    while fp != null
      invariant 1 <= n <= |ns| && fp == NodeAt(ns, n)
      invariant head.data == Glue(ps[..n])
      invariant head.next == old(head.next)
      decreases |ns| - n
    {
      GlueAppend(ps, n);
      head.data := head.data + fp.data;
      fp := fp.next;
      n := n + 1;
    }
    assert ps[..n] == ps;
    head.next := null;
  }
}
