/** IPv4 fragmentation (section 3.2 of RFC 791), rpl_ip_do_fragment of
    linux/compat/ip_output.c: a fast path that sends the buffers of a ready-made fragment list
    and a slow path that copies.  Both are proved to cut the datagram so that the queue of
    Ipv4Reassembly always puts it together again. */
module IpOutput {
  import opened Pieces
  import opened InetFrag
  import opened Ipv4Reassembly
  import opened Ipv4RoundTrip

  const TWO_32 := 0x1_0000_0000

  /** A packet handed to the sender: payload of the first buffer and of the buffers chained to
      it, header length, ECN codepoint, position in 8-byte units and more-fragments bit (set
      when the packet is itself a fragment).  intact says that no buffer is cloned or shared
      and every chained one has room for a header. */
  datatype Packet = Packet(first: Bytes, chain: seq<Bytes>, hlen: nat, ecn: nat,
                           units: nat, mf: bool, intact: bool) {
    function Payload(): Bytes { first + Join(chain) }

    /** ip_is_fragment. */
    predicate IsFragment() { units != 0 || mf }
  }

  function Join(bs: seq<Bytes>): Bytes {
    if bs == [] then [] else bs[0] + Join(bs[1..])
  }

  /** The largest packet that may be sent: what the link takes, or what was received if that is
      less. */
  function LimitOf(mtu: nat, fragMaxSize: nat): nat {
    if fragMaxSize != 0 && fragMaxSize < mtu then fragMaxSize else mtu
  }

  /** Room for data in one fragment, an unsigned subtraction. */
  function DataSpace(mtu: nat, fragMaxSize: nat, hlen: nat): nat {
    (LimitOf(mtu, fragMaxSize) - hlen) % TWO_32
  }

  // -------------------------------------------------------------------- slow path

  /** Length of the next fragment. */
  function NextLen(left: nat, space: nat): (len: nat)
    ensures len <= left && len <= space
    ensures len < left ==> len % 8 == 0
    ensures left > 0 && (space >= 8 || left <= space) ==> len > 0
  {
    var len := if left > space then space else left;
    if len < left then len - len % 8 else len
  }

  /** The fragments of a payload that starts at byte off, while allocations last; the second
      component is false when an allocation failed. */
  function Copy(payload: Bytes, off: nat, mf: bool, space: nat, hlen: nat, ecn: nat, allocs: nat)
    : (r: (seq<Fragment>, bool))
    decreases allocs
  {
    if payload == [] then ([], true)
    else if allocs == 0 then ([], false)
    else
      var len := NextLen(|payload|, space);
      var f := Fragment(off / 8, |payload| > len || mf, hlen, ecn, payload[..len]);
      var (rest, ok) := Copy(payload[len..], off + len, mf, space, hlen, ecn, allocs - 1);
      ([f] + rest, ok)
  }

  lemma CopyStep(skb: Bytes, ptr: nat, len: nat, off: nat, mf: bool, space: nat, hlen: nat, ecn: nat, allocs: nat)
    requires ptr < |skb| && allocs > 0 && len == NextLen(|skb| - ptr, space)
    ensures var (rest, ok) := Copy(skb[ptr + len..], off + len, mf, space, hlen, ecn, allocs - 1);
      Copy(skb[ptr..], off, mf, space, hlen, ecn, allocs) ==
      ([Fragment(off / 8, |skb| - ptr > len || mf, hlen, ecn, skb[ptr..ptr + len])] + rest, ok)
  {
    assert skb[ptr..][..len] == skb[ptr..ptr + len] && skb[ptr..][len..] == skb[ptr + len..];
  }

  lemma ShiftOne(a: seq<Fragment>, x: Fragment, b: seq<Fragment>)
    ensures a + ([x] + b) == (a + [x]) + b
  {
  }

  /** What has been sent and what is still to come. */
  function Prepend(sent: seq<Fragment>, todo: (seq<Fragment>, bool)): (seq<Fragment>, bool) {
    (sent + todo.0, todo.1)
  }

  lemma PrependNone(sent: seq<Fragment>, todo: (seq<Fragment>, bool))
    ensures Prepend([], todo) == todo
    ensures todo.0 == [] ==> Prepend(sent, todo) == (sent, todo.1)
  {
    assert [] + todo.0 == todo.0 && sent + [] == sent;
  }

  lemma CopyEnds(sent: seq<Fragment>, skb: Bytes, ptr: nat, off: nat, mf: bool, space: nat, hlen: nat, ecn: nat, allocs: nat)
    requires ptr <= |skb| && (ptr == |skb| || allocs == 0)
    ensures Prepend(sent, Copy(skb[ptr..], off, mf, space, hlen, ecn, allocs)) == (sent, ptr == |skb|)
  {
    PrependNone(sent, Copy(skb[ptr..], off, mf, space, hlen, ecn, allocs));
  }

  lemma CopyMoves(sent: seq<Fragment>, skb: Bytes, ptr: nat, len: nat, off: nat, mf: bool, space: nat, hlen: nat, ecn: nat,
                  allocs: nat)
    requires ptr < |skb| && allocs > 0 && len == NextLen(|skb| - ptr, space)
    ensures
      var f := Fragment(off / 8, |skb| - ptr > len || mf, hlen, ecn, skb[ptr..ptr + len]);
      Prepend(sent, Copy(skb[ptr..], off, mf, space, hlen, ecn, allocs)) ==
      Prepend(sent + [f], Copy(skb[ptr + len..], off + len, mf, space, hlen, ecn, allocs - 1))
  {
    CopyStep(skb, ptr, len, off, mf, space, hlen, ecn, allocs);
    var f := Fragment(off / 8, |skb| - ptr > len || mf, hlen, ecn, skb[ptr..ptr + len]);
    ShiftOne(sent, f, Copy(skb[ptr + len..], off + len, mf, space, hlen, ecn, allocs - 1).0);
  }

  /** Not beyond the end nor the space, and in whole units except at the end. */
  method FragmentLength(left: nat, space: nat) returns (len: nat)
    ensures len == NextLen(left, space)
  {
    len := left;
    if len > space {
      len := space;
    }
    if len < left {
      len := len - len % 8;
    }
  }

  /** slow_path: skb is the whole packet, header included. */
  method SlowPath(skb: Bytes, hlen: nat, space: nat, units: nat, mf: bool, ecn: nat, allocs: nat)
    returns (sent: seq<Fragment>, ok: bool)
    requires hlen <= |skb|
    ensures (sent, ok) == Copy(skb[hlen..], 8 * units, mf, space, hlen, ecn, allocs)
  {
    var left: nat, ptr: nat, offset: nat := |skb| - hlen, hlen, 8 * units;
    var remaining: nat := allocs;
    sent := [];
    ghost var goal := Copy(skb[hlen..], 8 * units, mf, space, hlen, ecn, allocs);
    PrependNone([], goal);
    while left > 0
      invariant ptr + left == |skb|
      invariant goal == Prepend(sent, Copy(skb[ptr..], offset, mf, space, hlen, ecn, remaining))
      decreases remaining
    {
      var len := FragmentLength(left, space);
      if remaining == 0 {
        CopyEnds(sent, skb, ptr, offset, mf, space, hlen, ecn, remaining);
        return sent, false;
      }
      CopyMoves(sent, skb, ptr, len, offset, mf, space, hlen, ecn, remaining);
      remaining := remaining - 1;
      left := left - len;
      sent := sent + [Fragment(offset / 8, left > 0 || mf, hlen, ecn, skb[ptr..ptr + len])];
      ptr, offset := ptr + len, offset + len;
    }
    ok := true;
    CopyEnds(sent, skb, ptr, offset, mf, space, hlen, ecn, remaining);
  }

  /** Loop step of the slow path can make headway. */
  predicate Progresses(size: nat, space: nat) {
    size <= space || space >= 8
  }

  lemma {:induction false} CopyFinishes(payload: Bytes, off: nat, mf: bool, space: nat, hlen: nat, ecn: nat, allocs: nat)
    requires Progresses(|payload|, space) && allocs >= |payload|
    ensures Copy(payload, off, mf, space, hlen, ecn, allocs).1
    decreases allocs
  {
    if payload != [] {
      var len := NextLen(|payload|, space);
      CopyFinishes(payload[len..], off + len, mf, space, hlen, ecn, allocs - 1);
    }
  }

  lemma {:induction false} CopyIsStuck(payload: Bytes, off: nat, mf: bool, space: nat, hlen: nat, ecn: nat, allocs: nat)
    requires !Progresses(|payload|, space)
    ensures var (sent, ok) := Copy(payload, off, mf, space, hlen, ecn, allocs);
      !ok && |sent| == allocs && forall i :: 0 <= i < |sent| ==> sent[i].data == []
    decreases allocs
  {
    if allocs > 0 {
      assert NextLen(|payload|, space) == 0;
      assert payload[0..] == payload;
      CopyIsStuck(payload, off, mf, space, hlen, ecn, allocs - 1);
    }
  }

  /** The slow path ever finishes exactly when a fragment has room for eight bytes or the
      payload fits; otherwise it emits empty fragments until an allocation fails. */
  lemma SlowPathFinishes(payload: Bytes, off: nat, mf: bool, space: nat, hlen: nat, ecn: nat)
    ensures (exists allocs :: Copy(payload, off, mf, space, hlen, ecn, allocs).1) <==> Progresses(|payload|, space)
  {
    if Progresses(|payload|, space) {
      CopyFinishes(payload, off, mf, space, hlen, ecn, |payload|);
    } else {
      forall allocs: nat
        ensures !Copy(payload, off, mf, space, hlen, ecn, allocs).1
      {
        CopyIsStuck(payload, off, mf, space, hlen, ecn, allocs);
      }
    }
  }

  /** Shape of what the slow path emits when it finishes, relative to a datagram of which the
      payload is the part that starts at off. */
  ghost predicate CopiedPart(f: Fragment, datagram: Bytes, more: bool, space: nat, hlen: nat, ecn: nat) {
    && f.Body().data == f.data != [] && ShowsPart(f.Body(), datagram)
    && f.mf == more && f.hdr == hlen && f.ecn == ecn && |f.data| <= space
  }

  /** The fragments sent carry the bytes from off to end of the datagram, in order. */
  ghost predicate Carry(sent: seq<Fragment>, datagram: Bytes, off: nat, end: nat, mf: bool, space: nat, hlen: nat, ecn: nat) {
    && Tiles(Bodies(sent), off, end)
    && (sent == [] <==> off == end)
    && forall i :: 0 <= i < |sent| ==> CopiedPart(sent[i], datagram, i < |sent| - 1 || mf, space, hlen, ecn)
  }

  /** One step of the slow path on the part of a datagram from off to end. */
  lemma CopySlice(datagram: Bytes, off: nat, end: nat, len: nat, mf: bool, space: nat, hlen: nat, ecn: nat, allocs: nat)
    requires off < end <= |datagram| && allocs > 0 && len == NextLen(end - off, space)
    ensures var (rest, ok) := Copy(datagram[off + len..end], off + len, mf, space, hlen, ecn, allocs - 1);
      Copy(datagram[off..end], off, mf, space, hlen, ecn, allocs) ==
      ([Fragment(off / 8, end - off > len || mf, hlen, ecn, datagram[off..off + len])] + rest, ok)
  {
    var skb := datagram[..end];
    assert skb[off..] == datagram[off..end] && skb[off + len..] == datagram[off + len..end];
    assert skb[off..off + len] == datagram[off..off + len];
    CopyStep(skb, off, len, off, mf, space, hlen, ecn, allocs);
  }

  lemma {:induction false} CopyTiles(datagram: Bytes, off: nat, end: nat, mf: bool, space: nat, hlen: nat, ecn: nat, allocs: nat)
    requires off <= end <= |datagram| && off % 8 == 0
    requires mf ==> end % 8 == 0
    requires Progresses(end - off, space)
    requires Copy(datagram[off..end], off, mf, space, hlen, ecn, allocs).1
    ensures Carry(Copy(datagram[off..end], off, mf, space, hlen, ecn, allocs).0, datagram, off, end, mf, space, hlen, ecn)
    decreases allocs
  {
    if off < end {
      var len := NextLen(end - off, space);
      var f := Fragment(off / 8, end - off > len || mf, hlen, ecn, datagram[off..off + len]);
      CopySlice(datagram, off, end, len, mf, space, hlen, ecn, allocs);
      HeadPart(datagram, off, end, mf, space, hlen, ecn, f, len);
      var rest := Copy(datagram[off + len..end], off + len, mf, space, hlen, ecn, allocs - 1).0;
      if len < end - off {
        CopyTiles(datagram, off + len, end, mf, space, hlen, ecn, allocs - 1);
      } else {
        assert rest == [];
        CarryNothing(datagram, end, mf, space, hlen, ecn);
      }
      ConsCarries(f, rest, datagram, off, off + len, end, mf, space, hlen, ecn);
    }
  }

  lemma CarryNothing(datagram: Bytes, end: nat, mf: bool, space: nat, hlen: nat, ecn: nat)
    ensures Carry([], datagram, end, end, mf, space, hlen, ecn)
  {
  }

  lemma ConsCarries(f: Fragment, rest: seq<Fragment>, datagram: Bytes, off: nat, mid: nat, end: nat, mf: bool, space: nat,
                    hlen: nat, ecn: nat)
    requires f.Body().off == off < f.Body().End() == mid && CopiedPart(f, datagram, mid < end || mf, space, hlen, ecn)
    requires mid <= end && Carry(rest, datagram, mid, end, mf, space, hlen, ecn)
    ensures Carry([f] + rest, datagram, off, end, mf, space, hlen, ecn)
  {
    var sent := [f] + rest;
    ConsTiles(f, rest, off, mid, end);
    forall i | 0 <= i < |sent|
      ensures CopiedPart(sent[i], datagram, i < |sent| - 1 || mf, space, hlen, ecn)
    {
      if i > 0 { assert sent[i] == rest[i - 1]; }
    }
  }

  lemma ConsTiles(f: Fragment, rest: seq<Fragment>, off: nat, mid: nat, end: nat)
    requires f.Body().off == off && f.Body().End() == mid && Tiles(Bodies(rest), mid, end)
    ensures Tiles(Bodies([f] + rest), off, end)
  {
    assert ([f] + rest)[1..] == rest;
    assert Bodies([f] + rest)[1..] == Bodies(rest);
  }

  lemma WholeUnits(off: nat, len: nat)
    requires off % 8 == 0
    ensures 8 * (off / 8) == off
    ensures len % 8 == 0 ==> (off + len) % 8 == 0
  {
  }

  lemma NextLenUnits(off: nat, end: nat, mf: bool, space: nat)
    requires off < end && off % 8 == 0 && (mf ==> end % 8 == 0)
    ensures var len := NextLen(end - off, space);
      len < end - off || mf ==> (off + len) % 8 == 0
  {
    WholeUnits(off, NextLen(end - off, space));
  }

  lemma HeadPart(datagram: Bytes, off: nat, end: nat, mf: bool, space: nat, hlen: nat, ecn: nat, f: Fragment, len: nat)
    requires off < end <= |datagram| && off % 8 == 0 && (mf ==> end % 8 == 0)
    requires Progresses(end - off, space) && len == NextLen(end - off, space)
    requires f == Fragment(off / 8, end - off > len || mf, hlen, ecn, datagram[off..off + len])
    ensures CopiedPart(f, datagram, end - off > len || mf, space, hlen, ecn)
    ensures f.Off() == off && f.End() == off + len
    ensures end - off > len || mf ==> (off + len) % 8 == 0
  {
    WholeUnits(off, len);
    NextLenUnits(off, end, mf, space);
    assert f.Off() == off && f.End() == off + len;
    assert f.Body().data == f.data;
  }

  /** What the slow path makes of a whole datagram is a cut of it. */
  lemma SlowPathCuts(datagram: Bytes, space: nat, hlen: nat, ecn: nat, allocs: nat)
    requires datagram != [] && Progresses(|datagram|, space)
    requires Copy(datagram, 0, false, space, hlen, ecn, allocs).1
    ensures var sent := Copy(datagram, 0, false, space, hlen, ecn, allocs).0;
      && Cut(sent, datagram, hlen, ecn)
      && forall i :: 0 <= i < |sent| ==> 0 < |sent[i].data| <= space
  {
    assert datagram[0..|datagram|] == datagram;
    CopyTiles(datagram, 0, |datagram|, false, space, hlen, ecn, allocs);
    var sent := Copy(datagram, 0, false, space, hlen, ecn, allocs).0;
    forall i | 0 <= i < |sent|
      ensures CutPart(sent[i], i == |sent| - 1, datagram, hlen, ecn)
    {
      assert CopiedPart(sent[i], datagram, i < |sent| - 1 || false, space, hlen, ecn);
    }
    assert CopiedPart(sent[|sent| - 1], datagram, false, space, hlen, ecn);
  }

  /** Cutting a fragment further keeps it part of the same datagram: the pieces agree with the
      datagram and cover exactly what the fragment covered, so a receiver may be sent any
      mixture of the two. */
  lemma RefragmentAgrees(f: Fragment, datagram: Bytes, space: nat, allocs: nat)
    requires Agrees(f, datagram, f.hdr, f.ecn) && f.Body().data == f.data != []
    requires Copy(f.data, f.Off(), f.mf, space, f.hdr, f.ecn, allocs).1
    ensures var sent := Copy(f.data, f.Off(), f.mf, space, f.hdr, f.ecn, allocs).0;
      && AllAgree(sent, datagram, f.hdr, f.ecn)
      && forall p :: Got(sent, p) <==> Holds(f.Body(), p)
  {
    if !Progresses(|f.data|, space) {
      CopyIsStuck(f.data, f.Off(), f.mf, space, f.hdr, f.ecn, allocs);
      assert false;
    }
    assert f.data == datagram[f.Off()..f.End()];
    CopyTiles(datagram, f.Off(), f.End(), f.mf, space, f.hdr, f.ecn, allocs);
    var sent := Copy(f.data, f.Off(), f.mf, space, f.hdr, f.ecn, allocs).0;
    CopiedAgree(f, sent, datagram, space);
    GotTiling(sent, f.Off(), f.End());
  }

  lemma {:induction false} CopiedAgree(f: Fragment, sent: seq<Fragment>, datagram: Bytes, space: nat)
    requires Agrees(f, datagram, f.hdr, f.ecn) && Tiles(Bodies(sent), f.Off(), f.End())
    requires forall i :: 0 <= i < |sent| ==> CopiedPart(sent[i], datagram, i < |sent| - 1 || f.mf, space, f.hdr, f.ecn)
    ensures AllAgree(sent, datagram, f.hdr, f.ecn)
  {
    TilingIsDisjoint(Bodies(sent), f.Off(), f.End());
    if sent != [] { LastEnds(Bodies(sent), f.Off(), f.End()); }
    forall i | 0 <= i < |sent|
      ensures Agrees(sent[i], datagram, f.hdr, f.ecn)
    {
      assert CopiedPart(sent[i], datagram, i < |sent| - 1 || f.mf, space, f.hdr, f.ecn);
      if i < |sent| - 1 {
        BeforeAfter(Bodies(sent), i, |sent| - 1);
        assert CopiedPart(sent[|sent| - 1], datagram, f.mf, space, f.hdr, f.ecn);
      }
    }
  }

  lemma GotTiling(sent: seq<Fragment>, lo: nat, hi: nat)
    requires Tiles(Bodies(sent), lo, hi)
    ensures forall p :: Got(sent, p) <==> lo <= p < hi
  {
    var ps := Bodies(sent);
    TilingIsDisjoint(ps, lo, hi);
    forall p
      ensures Got(sent, p) <==> lo <= p < hi
    {
      if Got(sent, p) {
        var i :| 0 <= i < |sent| && Holds(sent[i].Body(), p);
        assert ps[i] == sent[i].Body();
      }
      if lo <= p < hi {
        TilingCovers(ps, lo, hi, p);
        var i :| 0 <= i < |ps| && Holds(ps[i], p);
        assert sent[i].Body() == ps[i];
      }
    }
  }

  // -------------------------------------------------------------------- fast path

  /** The geometry the fast path insists on. */
  predicate FastPathFits(p: Packet, space: nat) {
    && p.chain != [] && p.intact && !p.IsFragment()
    && |p.first| <= space && |p.first| % 8 == 0
    && forall i :: 0 <= i < |p.chain| ==>
      |p.chain[i]| <= space && (|p.chain[i]| % 8 == 0 || i == |p.chain| - 1)
  }

  /** One fragment per buffer. */
  function Relabel(bufs: seq<Bytes>, off: nat, hlen: nat, ecn: nat): (fs: seq<Fragment>)
    ensures |fs| == |bufs|
    ensures forall i :: 0 <= i < |fs| ==> fs[i].data == bufs[i] && fs[i].mf == (i < |fs| - 1)
  {
    if bufs == [] then []
    else [Fragment(off / 8, |bufs| > 1, hlen, ecn, bufs[0])] + Relabel(bufs[1..], off + |bufs[0]|, hlen, ecn)
  }

  lemma RelabelStep(bufs: seq<Bytes>, i: nat, off: nat, hlen: nat, ecn: nat)
    requires i < |bufs|
    ensures Relabel(bufs[i..], off, hlen, ecn) ==
      [Fragment(off / 8, i < |bufs| - 1, hlen, ecn, bufs[i])] + Relabel(bufs[i + 1..], off + |bufs[i]|, hlen, ecn)
  {
    assert bufs[i..][1..] == bufs[i + 1..];
  }

  lemma RelabelMoves(sent: seq<Fragment>, bufs: seq<Bytes>, i: nat, off: nat, hlen: nat, ecn: nat)
    requires i < |bufs|
    ensures sent + Relabel(bufs[i..], off, hlen, ecn) ==
      (sent + [Fragment(off / 8, i < |bufs| - 1, hlen, ecn, bufs[i])]) + Relabel(bufs[i + 1..], off + |bufs[i]|, hlen, ecn)
  {
    RelabelStep(bufs, i, off, hlen, ecn);
    ShiftOne(sent, Fragment(off / 8, i < |bufs| - 1, hlen, ecn, bufs[i]), Relabel(bufs[i + 1..], off + |bufs[i]|, hlen, ecn));
  }

  lemma RelabelEnds(sent: seq<Fragment>, bufs: seq<Bytes>, off: nat, hlen: nat, ecn: nat)
    ensures [] + Relabel(bufs[0..], off, hlen, ecn) == Relabel(bufs, off, hlen, ecn)
    ensures sent + Relabel(bufs[|bufs|..], off, hlen, ecn) == sent
  {
    assert bufs[0..] == bufs && bufs[|bufs|..] == [];
  }

  /** The sending loop: the header of the next buffer is prepared before the current one goes
      down. */
  method FastPath(p: Packet) returns (sent: seq<Fragment>)
    requires p.chain != []
    ensures sent == Relabel([p.first] + p.chain, 0, p.hlen, p.ecn)
  {
    var bufs := [p.first] + p.chain;
    ghost var goal := Relabel(bufs, 0, p.hlen, p.ecn);
    sent := [];
    var i, offset: nat, units, mf := 0, 0, 0, true;
    RelabelEnds([], bufs, 0, p.hlen, p.ecn);
    while true
      invariant 0 <= i < |bufs| && units == offset / 8 && mf == (i < |bufs| - 1)
      invariant goal == sent + Relabel(bufs[i..], offset, p.hlen, p.ecn)
      decreases |bufs| - i
    {
      RelabelMoves(sent, bufs, i, offset, p.hlen, p.ecn);
      sent := sent + [Fragment(units, mf, p.hlen, p.ecn, bufs[i])];
      offset := offset + |bufs[i]|;
      i := i + 1;
      if i == |bufs| {
        break;
      }
      units, mf := offset / 8, i < |bufs| - 1;
    }
    RelabelEnds(sent, bufs, offset, p.hlen, p.ecn);
  }

  lemma {:induction false} RelabelTiles(bufs: seq<Bytes>, off: nat, hlen: nat, ecn: nat, datagram: Bytes)
    requires bufs != [] && off % 8 == 0
    requires forall i :: 0 <= i < |bufs| - 1 ==> |bufs[i]| % 8 == 0
    requires off + |Join(bufs)| == |datagram| && Join(bufs) == datagram[off..]
    ensures var sent := Relabel(bufs, off, hlen, ecn);
      && Tiles(Bodies(sent), off, |datagram|)
      && forall i :: 0 <= i < |sent| ==> CutPart(sent[i], i == |sent| - 1, datagram, hlen, ecn)
  {
    var rest := Relabel(bufs[1..], off + |bufs[0]|, hlen, ecn);
    var f := Relabel(bufs, off, hlen, ecn)[0];
    assert Relabel(bufs, off, hlen, ecn) == [f] + rest;
    RelabelHead(bufs, off, datagram, f, hlen, ecn);
    if |bufs| > 1 {
      assert datagram[off..][|bufs[0]|..] == datagram[off + |bufs[0]|..];
      RelabelTiles(bufs[1..], off + |bufs[0]|, hlen, ecn, datagram);
    }
    ConsTiles(f, rest, off, off + |bufs[0]|, |datagram|);
  }

  lemma RelabelHead(bufs: seq<Bytes>, off: nat, datagram: Bytes, f: Fragment, hlen: nat, ecn: nat)
    requires bufs != [] && off % 8 == 0 && (|bufs| > 1 ==> |bufs[0]| % 8 == 0)
    requires off + |Join(bufs)| == |datagram| && Join(bufs) == datagram[off..]
    requires f == Fragment(off / 8, |bufs| > 1, hlen, ecn, bufs[0])
    ensures f.Body().off == off && f.Body().End() == off + |bufs[0]| <= |datagram|
    ensures CutPart(f, |bufs| == 1, datagram, hlen, ecn)
    ensures |bufs| == 1 ==> off + |bufs[0]| == |datagram|
  {
    assert Join(bufs) == bufs[0] + Join(bufs[1..]);
    assert bufs[0] == datagram[off..off + |bufs[0]|];
    assert f.Off() == off;
    if f.mf { assert (off + |bufs[0]|) % 8 == 0; }
    assert f.Body().data == f.data;
  }

  lemma FastPathCuts(p: Packet, space: nat)
    requires FastPathFits(p, space) && p.chain[|p.chain| - 1] != []
    ensures Cut(Relabel([p.first] + p.chain, 0, p.hlen, p.ecn), p.Payload(), p.hlen, p.ecn)
  {
    var bufs := [p.first] + p.chain;
    assert bufs[1..] == p.chain;
    assert p.Payload()[0..] == p.Payload();
    RelabelTiles(bufs, 0, p.hlen, p.ecn, p.Payload());
  }

  /** The fast path keeps the promise exactly when the last buffer is not empty. */
  lemma FastPathExact(p: Packet, space: nat, bad: set<nat> -> bool)
    requires FastPathFits(p, space) && p.Payload() != []
    requires p.hlen + |p.Payload()| <= MAX_IP_PACKET && !bad({p.ecn})
    ensures AlwaysArrives(Relabel([p.first] + p.chain, 0, p.hlen, p.ecn), p.Payload(), p.ecn, bad)
      <==> p.chain[|p.chain| - 1] != []
  {
    var bufs := [p.first] + p.chain;
    var sent := Relabel(bufs, 0, p.hlen, p.ecn);
    var datagram := p.Payload();
    if p.chain[|p.chain| - 1] != [] {
      FastPathCuts(p, space);
      CutArrives(sent, datagram, p.hlen, p.ecn, bad);
    } else {
      EmptyLastIsLost(sent, datagram, p.ecn, bad);
      assert Among(sent, sent);
    }
  }

  // ------------------------------------------------------------------ the whole sender

  /** The slow path succeeds only if it can make headway, and always does so with enough memory. */
  lemma SlowPathSucceeds(payload: Bytes, off: nat, mf: bool, space: nat, hlen: nat, ecn: nat, allocs: nat)
    ensures Copy(payload, off, mf, space, hlen, ecn, allocs).1 ==> Progresses(|payload|, space)
    ensures Progresses(|payload|, space) && allocs >= |payload| ==> Copy(payload, off, mf, space, hlen, ecn, allocs).1
  {
    if !Progresses(|payload|, space) {
      CopyIsStuck(payload, off, mf, space, hlen, ecn, allocs);
    } else if allocs >= |payload| {
      CopyFinishes(payload, off, mf, space, hlen, ecn, allocs);
    }
  }

  /** What a whole datagram is sent as: by the fast path with something in the last buffer, or by the
      slow path without running out of memory. */
  ghost predicate SentAs(p: Packet, space: nat, allocs: nat, sent: seq<Fragment>) {
    if FastPathFits(p, space) then
      sent == Relabel([p.first] + p.chain, 0, p.hlen, p.ecn) && p.chain[|p.chain| - 1] != []
    else (sent, true) == Copy(p.Payload(), 0, false, space, p.hlen, p.ecn, allocs)
  }

  /** Either way the fragments are a cut of the datagram. */
  lemma SentCuts(p: Packet, space: nat, allocs: nat, sent: seq<Fragment>)
    requires p.Payload() != [] && SentAs(p, space, allocs, sent)
    ensures Cut(sent, p.Payload(), p.hlen, p.ecn)
  {
    if FastPathFits(p, space) {
      FastPathCuts(p, space);
    } else {
      SlowPathSucceeds(p.Payload(), 0, false, space, p.hlen, p.ecn, allocs);
      SlowPathCuts(p.Payload(), space, p.hlen, p.ecn, allocs);
    }
  }

  datatype Sent = Sent(fragments: seq<Fragment>, ok: bool)

  /** No fragment is larger than the space, and each but the last one leaves less than eight bytes of
      it unused. */
  ghost predicate Filled(sent: seq<Fragment>, space: nat) {
    && (forall i :: 0 <= i < |sent| ==> |sent[i].data| <= space)
    && forall i :: 0 <= i < |sent| - 1 ==> |sent[i].data| + 8 > space
  }

  lemma ConsFilled(f: Fragment, rest: seq<Fragment>, space: nat)
    requires Filled(rest, space) && |f.data| <= space && (rest == [] || |f.data| + 8 > space)
    ensures Filled([f] + rest, space)
  {
  }

  lemma {:induction false} CopyFills(payload: Bytes, off: nat, mf: bool, space: nat, hlen: nat, ecn: nat, allocs: nat)
    ensures Filled(Copy(payload, off, mf, space, hlen, ecn, allocs).0, space)
    decreases allocs
  {
    if payload != [] && allocs > 0 {
      var len := NextLen(|payload|, space);
      CopyFills(payload[len..], off + len, mf, space, hlen, ecn, allocs - 1);
      ConsFilled(Fragment(off / 8, |payload| > len || mf, hlen, ecn, payload[..len]),
                 Copy(payload[len..], off + len, mf, space, hlen, ecn, allocs - 1).0, space);
    }
  }

  /** What is sent, by either path, with a given space for data. */
  ghost predicate Sends(p: Packet, space: nat, allocs: nat, r: Sent) {
    if FastPathFits(p, space) then r == Sent(Relabel([p.first] + p.chain, 0, p.hlen, p.ecn), true)
    else
      var (fs, ok) := Copy(p.Payload(), 8 * p.units, p.mf, space, p.hlen, p.ecn, allocs);
      r == Sent(fs, ok)
  }

  /** The buffers of a whole datagram can be sent as they are: nobody shares them, each with its
      headers is within the limit, and all but the last one are of whole units. */
  predicate Ready(p: Packet, headers: nat, limit: nat) {
    && p.chain != [] && p.intact && p.units == 0 && !p.mf
    && headers + |p.first| <= limit && |p.first| % 8 == 0
    && forall i :: 0 <= i < |p.chain| ==>
      headers + |p.chain[i]| <= limit && (i < |p.chain| - 1 ==> |p.chain[i]| % 8 == 0)
  }

  ghost predicate OnePerBuffer(p: Packet, sent: seq<Fragment>) {
    && |sent| == 1 + |p.chain| && sent[0].data == p.first
    && forall i :: 0 <= i < |p.chain| ==> sent[i + 1].data == p.chain[i]
  }

  /** With room for the headers, no packet sent is larger than the limit; buffers that are ready are
      sent as they are; and otherwise every packet but the last one is filled up to its last
      eight bytes. */
  lemma {:induction false} WithinLimit(p: Packet, headers: nat, limit: nat, allocs: nat, r: Sent)
    requires headers <= limit && Sends(p, (limit - headers) % TWO_32, allocs, r)
    ensures forall i :: 0 <= i < |r.fragments| ==> headers + |r.fragments[i].data| <= limit
    ensures limit < TWO_32 ==>
      if Ready(p, headers, limit) then r.ok && OnePerBuffer(p, r.fragments)
      else forall i :: 0 <= i < |r.fragments| - 1 ==> headers + |r.fragments[i].data| + 8 > limit
  {
    var space := (limit - headers) % TWO_32;
    assert space <= limit - headers;
    if FastPathFits(p, space) {
      var bufs := [p.first] + p.chain;
      forall i | 0 <= i < |bufs| ensures |bufs[i]| <= space {
        assert i > 0 ==> bufs[i] == p.chain[i - 1];
      }
    } else {
      CopyFills(p.Payload(), 8 * p.units, p.mf, space, p.hlen, p.ecn, allocs);
    }
  }

  /** The checks on the buffers before the fast path is taken. */
  method CheckGeometry(p: Packet, space: nat) returns (fits: bool)
    ensures fits <==> FastPathFits(p, space)
  {
    if p.chain == [] || |p.first| > space || |p.first| % 8 != 0 || p.IsFragment() || !p.intact {
      return false;
    }
    var i := 0;
    while i < |p.chain|
      invariant 0 <= i <= |p.chain|
      invariant forall j :: 0 <= j < i ==>
        |p.chain[j]| <= space && (|p.chain[j]| % 8 == 0 || j == |p.chain| - 1)
    {
      if |p.chain[i]| > space || (|p.chain[i]| % 8 != 0 && i != |p.chain| - 1) {
        return false;
      }
      i := i + 1;
    }
    fits := true;
  }

  /** rpl_ip_do_fragment.  No packet sent is larger than the link takes nor than the largest
      fragment received, if that is known, as long as there is room for the header at all. */
  method DoFragment(p: Packet, header: Bytes, mtu: nat, fragMaxSize: nat, allocs: nat) returns (r: Sent)
    requires |header| == p.hlen
    ensures Sends(p, DataSpace(mtu, fragMaxSize, p.hlen), allocs, r)
    ensures p.hlen <= mtu && (fragMaxSize == 0 || p.hlen <= fragMaxSize) ==>
      forall i :: 0 <= i < |r.fragments| ==>
        p.hlen + |r.fragments[i].data| <= mtu && (fragMaxSize == 0 || p.hlen + |r.fragments[i].data| <= fragMaxSize)
    ensures var limit := if fragMaxSize != 0 && fragMaxSize < mtu then fragMaxSize else mtu;
      p.hlen <= limit < TWO_32 ==>
        if Ready(p, p.hlen, limit) then r.ok && OnePerBuffer(p, r.fragments)
        else forall i :: 0 <= i < |r.fragments| - 1 ==> p.hlen + |r.fragments[i].data| + 8 > limit
    ensures var space := DataSpace(mtu, fragMaxSize, p.hlen);
      && (r.ok ==> FastPathFits(p, space) || Progresses(|p.Payload()|, space))
      && (FastPathFits(p, space) || (Progresses(|p.Payload()|, space) && allocs >= |p.Payload()|) ==> r.ok)
      && (r.ok && !p.IsFragment() && !(FastPathFits(p, space) && p.chain[|p.chain| - 1] == []) ==>
        SentAs(p, space, allocs, r.fragments))
  {
    var space := DataSpace(mtu, fragMaxSize, p.hlen);
    var fits := CheckGeometry(p, space);
    if fits {
      var fs := FastPath(p);
      r := Sent(fs, true);
    } else {
      var skb := header + p.Payload();
      assert skb[p.hlen..] == p.Payload();
      var fs, ok := SlowPath(skb, p.hlen, space, p.units, p.mf, p.ecn, allocs);
      SlowPathSucceeds(p.Payload(), 8 * p.units, p.mf, space, p.hlen, p.ecn, allocs);
      r := Sent(fs, ok);
    }
    if p.hlen <= LimitOf(mtu, fragMaxSize) {
      WithinLimit(p, p.hlen, LimitOf(mtu, fragMaxSize), allocs, r);
    }
  }

  /** A packet that is a fragment itself, when it is cut further without running out of memory: what
      is sent agrees with the datagram the fragment is part of, and covers what it covered. */
  lemma {:induction false} FragmentSentOn(p: Packet, space: nat, allocs: nat, r: Sent, datagram: Bytes)
    requires p.IsFragment() && Sends(p, space, allocs, r) && r.ok && p.Payload() != []
    requires var f := Fragment(p.units, p.mf, p.hlen, p.ecn, p.Payload());
      Agrees(f, datagram, p.hlen, p.ecn) && f.Body().data == f.data
    ensures AllAgree(r.fragments, datagram, p.hlen, p.ecn)
    ensures forall pos :: Got(r.fragments, pos) <==> 8 * p.units <= pos < 8 * p.units + |p.Payload()|
  {
    var f := Fragment(p.units, p.mf, p.hlen, p.ecn, p.Payload());
    RefragmentAgrees(f, datagram, space, allocs);
    forall pos ensures Got(r.fragments, pos) <==> 8 * p.units <= pos < 8 * p.units + |p.Payload()| {
      assert Got(r.fragments, pos) <==> Holds(f.Body(), pos);
    }
  }

  /** IPv4 round trip.  A whole datagram of legal size with something in it is sent by either path.
      Whatever the order of arrival and whatever fragments are repeated: the receiving queue
      delivers exactly the datagram at the arrival of the last missing fragment that carries
      something, and delivers nothing at any other arrival. */
  lemma Ipv4RoundTripHolds(p: Packet, mtu: nat, fragMaxSize: nat, allocs: nat, sent: seq<Fragment>, fs: seq<Fragment>,
                           bad: set<nat> -> bool)
    requires !p.IsFragment() && p.Payload() != []
    requires p.hlen + |p.Payload()| <= MAX_IP_PACKET && !bad({p.ecn})
    requires SentAs(p, DataSpace(mtu, fragMaxSize, p.hlen), allocs, sent)
    requires Among(fs, sent) && fs != []
    ensures
      if NoneMissing(fs, sent) && !NoneMissing(fs[..|fs| - 1], sent) then Answer(p.ecn, fs, bad) == Delivered(p.Payload())
      else !Answer(p.ecn, fs, bad).Delivered?
    ensures AlwaysArrives(sent, p.Payload(), p.ecn, bad)
  {
    SentCuts(p, DataSpace(mtu, fragMaxSize, p.hlen), allocs, sent);
    RoundTrip(sent, fs, p.Payload(), p.hlen, p.ecn, bad);
    CutArrives(sent, p.Payload(), p.hlen, p.ecn, bad);
  }

  /** Positions of a legal datagram fit the 13-bit field, so they never spill into the flags. */
  lemma UnitsFit(sent: seq<Fragment>, datagram: Bytes, ihl: nat, ecn: nat)
    requires Cut(sent, datagram, ihl, ecn) && |datagram| <= MAX_IP_PACKET
    ensures forall i :: 0 <= i < |sent| ==> sent[i].units < 0x2000
  {
    TilingIsDisjoint(Bodies(sent), 0, |datagram|);
    forall i | 0 <= i < |sent|
      ensures sent[i].units < 0x2000
    {
      assert Bodies(sent)[i].off <= |datagram|;
    }
  }
}
