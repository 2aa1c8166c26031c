/** What the IPv4 and IPv6 reassembly queues have in common: fragments, the state of an
    inet_frag_queue as a value, and the invariant of its list and counter. */
module InetFrag {
  import opened Pieces

  /** A fragment: position in 8-byte units, more-fragments bit, length of the headers that stay
      in front of the datagram, ECN codepoint and payload. */
  datatype Fragment = Fragment(units: nat, mf: bool, hdr: nat, ecn: nat, data: Bytes) {
    function Off(): nat { 8 * units }

    /** The payload as it came. */
    function Raw(): Piece { Piece(Off(), hdr, data) }

    /** Payload end for IPv4: all but the last fragment are cut down to whole units. */
    function End(): nat {
      var end := Off() + |data|;
      if mf then end - end % 8 else end
    }

    /** What the IPv4 queue keeps of the payload before it looks at other fragments. */
    function Body(): (x: Piece)
      ensures x.off == Off() && x.End() == End()
    {
      Piece(Off(), hdr, data[..End() - Off()])
    }
  }

  datatype Queue = Queue(pieces: seq<Piece>, len: nat, meat: int,
                         firstIn: bool, lastIn: bool, complete: bool, ecn: set<nat>)

  /** A queue as created for the first fragment of a datagram. */
  function NewQueue(ecn: nat): Queue {
    Queue([], 0, 0, false, false, false, {ecn})
  }

  /** List sorted and disjoint, pieces non-empty and below the known length, the counter
      equal to the bytes held.  A delivered queue keeps its counter but holds nothing. */
  ghost predicate Sound(q: Queue) {
    && Disjoint(q.pieces) && Within(q.pieces, q.len)
    && (q.meat == Total(q.pieces) || (q.complete && q.pieces == []))
    && (q.pieces != [] && q.pieces[0].off == 0 ==> q.firstIn)
  }

  ghost predicate Among(fs: seq<Fragment>, sent: seq<Fragment>) {
    forall i :: 0 <= i < |fs| ==> fs[i] in sent
  }

  /** Every fragment that carries something has arrived. */
  ghost predicate NoneMissing(fs: seq<Fragment>, sent: seq<Fragment>) {
    forall j :: 0 <= j < |sent| && sent[j].data != [] ==> sent[j] in fs
  }

  /** With the newcomer, no position below len is missing. */
  ghost predicate FullWith(ps: seq<Piece>, x: Piece, len: nat) {
    forall p :: 0 <= p < len ==> Covered(ps, p) || Holds(x, p)
  }

  /** The length of the headers in front of a datagram that the fragment completes. */
  function HeaderWith(ps: seq<Piece>, f: Fragment): nat {
    if f.units == 0 || ps == [] then f.hdr else ps[0].hdr
  }
}
