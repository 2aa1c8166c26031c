/** IPv6 fragmentation (section 4.5 of RFC 8200), ip6_fragment of linux/compat/ip6_output.c.
    Its two sending loops are those of IpOutput, statement for statement; what differs is the
    size limit and the fragment header. */
module Ip6Output {
  import opened Pieces
  import opened InetFrag
  import IpOutput
  import V4 = Ipv4RoundTrip
  import opened Ipv6Reassembly
  import opened Ipv6RoundTrip

  const FRAG_HDR_LEN := 8
  const IPV6_MIN_MTU := 1280

  datatype Limit = TooBig | Space(space: nat)

  /** How much data one fragment may carry.  hlen is the length of the unfragmentable part. */
  function DataSpace(len: nat, hlen: nat, dstMtu: nat, fragMaxSize: nat, ignoreDf: bool): Limit {
    if !ignoreDf && len > dstMtu then TooBig
    else if fragMaxSize != 0 && fragMaxSize > dstMtu then TooBig
    else
      var mtu :=
        if fragMaxSize == 0 then dstMtu
        else if fragMaxSize < IPV6_MIN_MTU then IPV6_MIN_MTU
        else fragMaxSize;
      Space((mtu - (hlen + FRAG_HDR_LEN)) % IpOutput.TWO_32)
  }

  datatype Sent = Refused | Sent(fragments: seq<Fragment>, ok: bool)

  /** The checks on the path before a packet is cut. */
  method PathSpace(len: nat, hlen: nat, dstMtu: nat, fragMaxSize: nat, ignoreDf: bool) returns (r: Limit)
    ensures r == DataSpace(len, hlen, dstMtu, fragMaxSize, ignoreDf)
  {
    var mtu := dstMtu;
    if !ignoreDf && len > mtu {
      return TooBig;
    }
    if fragMaxSize != 0 {
      if fragMaxSize > mtu {
        return TooBig;
      }
      mtu := fragMaxSize;
      if mtu < IPV6_MIN_MTU {
        mtu := IPV6_MIN_MTU;
      }
    }
    r := Space((mtu - (hlen + FRAG_HDR_LEN)) % IpOutput.TWO_32);
  }

  /** What is sent with a given space for data. */
  ghost predicate Sends(p: IpOutput.Packet, space: nat, allocs: nat, r: Sent) {
    r.Sent? && IpOutput.Sends(p, space, allocs, IpOutput.Sent(r.fragments, r.ok))
  }

  /** The limit of what is sent. */
  lemma LimitKept(p: IpOutput.Packet, dstMtu: nat, fragMaxSize: nat, ignoreDf: bool, allocs: nat, r: Sent)
    requires var limit := DataSpace(p.hlen + |p.Payload()|, p.hlen, dstMtu, fragMaxSize, ignoreDf);
      limit.Space? && Sends(p, limit.space, allocs, r)
    ensures var limit := if fragMaxSize == 0 then dstMtu else if fragMaxSize < 1280 then 1280 else fragMaxSize;
      p.hlen + 8 <= limit ==>
        && (forall i :: 0 <= i < |r.fragments| ==> p.hlen + 8 + |r.fragments[i].data| <= limit)
        && (limit < IpOutput.TWO_32 ==>
             if IpOutput.Ready(p, p.hlen + 8, limit) then r.ok && IpOutput.OnePerBuffer(p, r.fragments)
             else forall i :: 0 <= i < |r.fragments| - 1 ==> p.hlen + 8 + |r.fragments[i].data| + 8 > limit)
  {
    var mtu := if fragMaxSize == 0 then dstMtu else if fragMaxSize < 1280 then 1280 else fragMaxSize;
    if p.hlen + FRAG_HDR_LEN <= mtu {
      IpOutput.WithinLimit(p, p.hlen + FRAG_HDR_LEN, mtu, allocs, IpOutput.Sent(r.fragments, r.ok));
    }
  }

  /** ip6_fragment.  A packet is refused exactly when it is larger than the link takes and may not be
      cut, or came in larger fragments than that; no packet sent is larger than the link takes nor
      than the largest fragment received, but for the minimum every link takes. */
  method Ip6Fragment(p: IpOutput.Packet, header: Bytes, dstMtu: nat, fragMaxSize: nat, ignoreDf: bool, allocs: nat)
    returns (r: Sent)
    requires |header| == p.hlen && !p.IsFragment()
    ensures r.Refused? <==> (!ignoreDf && p.hlen + |p.Payload()| > dstMtu) || fragMaxSize > dstMtu
    ensures match DataSpace(p.hlen + |p.Payload()|, p.hlen, dstMtu, fragMaxSize, ignoreDf)
      case TooBig => r.Refused?
      case Space(space) => Sends(p, space, allocs, r)
    ensures var limit := if fragMaxSize == 0 then dstMtu else if fragMaxSize < 1280 then 1280 else fragMaxSize;
      r.Sent? && p.hlen + 8 <= limit ==>
        && (forall i :: 0 <= i < |r.fragments| ==> p.hlen + 8 + |r.fragments[i].data| <= limit)
        && (limit < IpOutput.TWO_32 ==>
             if IpOutput.Ready(p, p.hlen + 8, limit) then r.ok && IpOutput.OnePerBuffer(p, r.fragments)
             else forall i :: 0 <= i < |r.fragments| - 1 ==> p.hlen + 8 + |r.fragments[i].data| + 8 > limit)
  {
    var limit := PathSpace(p.hlen + |p.Payload()|, p.hlen, dstMtu, fragMaxSize, ignoreDf);
    if limit.TooBig? {
      return Sent.Refused;
    }
    var fits := IpOutput.CheckGeometry(p, limit.space);
    if fits {
      var fs := IpOutput.FastPath(p);
      r := Sent(fs, true);
    } else {
      var skb := header + p.Payload();
      assert skb[p.hlen..] == p.Payload();
      var fs, ok := IpOutput.SlowPath(skb, p.hlen, limit.space, 0, false, p.ecn, allocs);
      r := Sent(fs, ok);
    }
    LimitKept(p, dstMtu, fragMaxSize, ignoreDf, allocs, r);
  }

  /** An IPv4 cut is an IPv6 cut. */
  lemma {:induction false} SameCut(sent: seq<Fragment>, datagram: Bytes, hdr: nat, ecn: nat)
    requires V4.Cut(sent, datagram, hdr, ecn)
    ensures Cut(sent, datagram, hdr, ecn)
  {
    forall i | 0 <= i < |sent|
      ensures sent[i].Body() == sent[i].Raw() && CutPart(sent[i], i == |sent| - 1, datagram, hdr, ecn)
    {
      assert V4.CutPart(sent[i], i == |sent| - 1, datagram, hdr, ecn);
    }
    assert V4.Bodies(sent) == Raws(sent);
  }

  /** IPv6 round trip.  A datagram of legal size with something in it is sent by either path.
      Whatever the order, as long as no fragment that carries something is repeated: each such
      fragment is accepted, an empty one refused, and the datagram comes out at the last arrival
      of one that carries something. */
  lemma {:induction false} Ipv6RoundTripHolds(p: IpOutput.Packet, space: nat, allocs: nat, sent: seq<Fragment>,
                                              fs: seq<Fragment>, bad: set<nat> -> bool)
    requires !p.IsFragment() && p.Payload() != [] && Legal(p.Payload(), p.hlen) && !bad({p.ecn})
    requires IpOutput.SentAs(p, space, allocs, sent)
    requires Among(fs, sent) && fs != [] && NoneRepeated(fs)
    ensures Answer(p.ecn, fs, bad) ==
      if fs[|fs| - 1].data == [] then Invalid
      else if NoneMissing(fs, sent) then Delivered(p.Payload())
      else InProgress
  {
    IpOutput.SentCuts(p, space, allocs, sent);
    SameCut(sent, p.Payload(), p.hlen, p.ecn);
    RoundTrip(sent, fs, p.Payload(), p.hlen, p.ecn, bad);
  }

  /** Each fragment once, in any order: the datagram comes out, and exactly the empty fragments are
      refused. */
  lemma {:induction false} Ipv6Arrives(p: IpOutput.Packet, space: nat, allocs: nat, sent: seq<Fragment>, fs: seq<Fragment>,
                                       bad: set<nat> -> bool)
    requires !p.IsFragment() && p.Payload() != [] && Legal(p.Payload(), p.hlen) && !bad({p.ecn})
    requires IpOutput.SentAs(p, space, allocs, sent) && OnceEach(fs, sent)
    ensures OnlyEmptyRefused(fs, p.ecn, bad) && DeliveredDuring(fs, p.Payload(), p.ecn, bad)
  {
    IpOutput.SentCuts(p, space, allocs, sent);
    SameCut(sent, p.Payload(), p.hlen, p.ecn);
    CutArrives(sent, fs, p.Payload(), p.hlen, p.ecn, bad);
  }

  /** The fast path keeps the promise exactly when the last buffer is not empty. */
  lemma {:induction false} FastPathExact(p: IpOutput.Packet, space: nat, bad: set<nat> -> bool)
    requires IpOutput.FastPathFits(p, space) && p.Payload() != [] && Legal(p.Payload(), p.hlen) && !bad({p.ecn})
    ensures AlwaysArrives(IpOutput.Relabel([p.first] + p.chain, 0, p.hlen, p.ecn), p.Payload(), p.ecn, bad)
      <==> p.chain[|p.chain| - 1] != []
  {
    var sent := IpOutput.Relabel([p.first] + p.chain, 0, p.hlen, p.ecn);
    if p.chain[|p.chain| - 1] != [] {
      forall fs: seq<Fragment> | OnceEach(fs, sent)
        ensures DeliveredDuring(fs, p.Payload(), p.ecn, bad)
      {
        Ipv6Arrives(p, space, 0, sent, fs, bad);
      }
    } else {
      assert sent[|sent| - 1].data == p.chain[|p.chain| - 1];
      EmptyLastIsLost(sent, p.Payload(), p.ecn, bad);
      assert OnceEach(sent, sent);
    }
  }

  // ------------------------------------------------------------------ header fields

  /** The payload length in the header of a fragment, before it is cut to 16 bits: what follows the
      fixed header, fragment header included. */
  function PayloadLen(f: Fragment): int {
    f.hdr - IPV6_HDR_LEN + FRAG_HDR_LEN + |f.data|
  }

  ghost predicate LengthsFit(sent: seq<Fragment>) {
    forall i :: 0 <= i < |sent| ==> PayloadLen(sent[i]) <= IPV6_MAXPLEN
  }

  /** The size limit leaves room for the headers, or the datagram fits into one fragment. */
  predicate RoomForLength(size: nat, hlen: nat, mtu: nat) {
    mtu >= hlen + FRAG_HDR_LEN || hlen - IPV6_HDR_LEN + FRAG_HDR_LEN + size <= IPV6_MAXPLEN
  }

  lemma {:induction false} SentSizes(p: IpOutput.Packet, space: nat, allocs: nat, sent: seq<Fragment>)
    requires p.Payload() != [] && IpOutput.SentAs(p, space, allocs, sent)
    ensures forall i :: 0 <= i < |sent| ==> |sent[i].data| <= space && |sent[i].data| <= |p.Payload()| && sent[i].hdr == p.hlen
  {
    IpOutput.SentCuts(p, space, allocs, sent);
    if !IpOutput.FastPathFits(p, space) {
      IpOutput.SlowPathSucceeds(p.Payload(), 0, false, space, p.hlen, p.ecn, allocs);
      IpOutput.SlowPathCuts(p.Payload(), space, p.hlen, p.ecn, allocs);
    }
    forall i | 0 <= i < |sent|
      ensures |sent[i].data| <= space && |sent[i].data| <= |p.Payload()| && sent[i].hdr == p.hlen
    {
      assert V4.CutPart(sent[i], i == |sent| - 1, p.Payload(), p.hlen, p.ecn);
      if IpOutput.FastPathFits(p, space) && i > 0 { assert sent[i].data == p.chain[i - 1]; }
    }
  }

  /** When the 16-bit payload length of every fragment holds, for a legal datagram and a limit a link
      can have: always if the limit leaves room for the headers.  Without that room the unsigned
      difference wraps and the slow path sends everything as one fragment, whose length holds
      exactly if the datagram leaves room for a fragment header. */
  lemma {:induction false} LengthsFitExactly(p: IpOutput.Packet, mtu: nat, allocs: nat, sent: seq<Fragment>)
    requires !p.IsFragment() && p.Payload() != [] && Legal(p.Payload(), p.hlen) && mtu <= IPV6_HDR_LEN + IPV6_MAXPLEN
    requires IpOutput.SentAs(p, (mtu - (p.hlen + FRAG_HDR_LEN)) % IpOutput.TWO_32, allocs, sent)
    ensures RoomForLength(|p.Payload()|, p.hlen, mtu) ==> LengthsFit(sent)
    ensures !IpOutput.FastPathFits(p, (mtu - (p.hlen + FRAG_HDR_LEN)) % IpOutput.TWO_32) && LengthsFit(sent) ==>
      RoomForLength(|p.Payload()|, p.hlen, mtu)
  {
    var space := (mtu - (p.hlen + FRAG_HDR_LEN)) % IpOutput.TWO_32;
    SentSizes(p, space, allocs, sent);
    if mtu < p.hlen + FRAG_HDR_LEN && !IpOutput.FastPathFits(p, space) {
      OneFragment(p, space, allocs, sent);
    }
  }

  lemma {:induction false} OneFragment(p: IpOutput.Packet, space: nat, allocs: nat, sent: seq<Fragment>)
    requires p.Payload() != [] && IpOutput.SentAs(p, space, allocs, sent) && !IpOutput.FastPathFits(p, space)
    requires |p.Payload()| <= space
    ensures sent != [] && sent[0].data == p.Payload() && sent[0].hdr == p.hlen
  {
    assert p.Payload()[..|p.Payload()|] == p.Payload();
  }

  /** Positions fit the 13 bits of the fragment header. */
  lemma {:induction false} UnitsFit(p: IpOutput.Packet, space: nat, allocs: nat, sent: seq<Fragment>)
    requires p.Payload() != [] && Legal(p.Payload(), p.hlen) && IpOutput.SentAs(p, space, allocs, sent)
    ensures forall i :: 0 <= i < |sent| ==> sent[i].units < 0x2000
  {
    IpOutput.SentCuts(p, space, allocs, sent);
    IpOutput.UnitsFit(sent, p.Payload(), p.hlen, p.ecn);
  }
}
