/** Reassembly of one IPv6 datagram (section 4.5 of RFC 8200) with the overlap rule of
    section 4 of RFC 5722, as nf_ct_frag6_queue, nf_ct_frag6_reasm and the completion test of
    rpl_nf_ct_frag6_gather do it (linux/compat/nf_conntrack_reasm.c).  The hdr field of a
    fragment is the length of everything in front of its fragment header. */
module Ipv6Reassembly {
  import opened Pieces
  import opened InetFrag

  const IPV6_MAXPLEN := 65535
  const IPV6_HDR_LEN := 40

  datatype Verdict = Invalid | InProgress | Delivered(datagram: Bytes)

  datatype Env = Env(pull: bool, trim: bool, clone: bool, unclone: bool)

  const CALM := Env(true, true, true, true)

  datatype Noted = Refused | Noted(queue: Queue)

  /** The checks on a fragment's end; unlike IPv4, a marked fragment must hold whole units. */
  function NoteEnd(q: Queue, f: Fragment): Noted {
    var end := f.Raw().End();
    if end > IPV6_MAXPLEN then Refused
    else if !f.mf then
      if end < q.len || (q.lastIn && end != q.len) then Refused
      else Noted(q.(lastIn := true, len := end))
    else if end % 8 != 0 then Refused
    else if end > q.len then
      if q.lastIn then Refused else Noted(q.(len := end))
    else Noted(q)
  }

  /** Insert, or kill the queue over an overlap. */
  function Link(q: Queue, f: Fragment): (Queue, bool) {
    var x := f.Raw();
    if HitsNeighbour(q.pieces, x) then (q.(complete := true), false)
    else
      (q.(pieces := Insert(q.pieces, x), meat := q.meat + |x.data|, ecn := q.ecn + {f.ecn},
          firstIn := q.firstIn || x.off == 0), true)
  }

  /** nf_ct_frag6_queue; the flag tells whether the fragment was taken over. */
  function Enqueue(q: Queue, f: Fragment, env: Env): (Queue, bool) {
    if q.complete then (q, false)
    else
      match NoteEnd(q, f)
      case Refused => (q, false)
      case Noted(q1) =>
        if f.data == [] || !env.pull || !env.trim then (q1, false)
        else Link(q1, f)
  }

  /** nf_ct_frag6_reasm; swapHead says that the last received buffer is not the list head. */
  function Reassemble(q: Queue, swapHead: bool, env: Env, bad: set<nat> -> bool): (Queue, Verdict) {
    var dead := q.(complete := true);
    if bad(q.ecn) then (dead, InProgress)
    else if (if q.pieces == [] then 0 else q.pieces[0].hdr) - IPV6_HDR_LEN + q.len > IPV6_MAXPLEN then (dead, InProgress)
    else if !env.unclone then (dead, InProgress)
    else if swapHead && !env.clone then (dead, InProgress)
    else (dead.(pieces := []), Delivered(Glue(q.pieces)))
  }

  /** rpl_nf_ct_frag6_gather for a queue that was found. */
  function Receive(q: Queue, f: Fragment, env: Env, bad: set<nat> -> bool): (Queue, Verdict) {
    var (r, taken) := Enqueue(q, f, env);
    if !taken then (r, Invalid)
    else if r.firstIn && r.lastIn && r.meat == r.len then Reassemble(r, Slot(q.pieces, f.Off()) > 0, env, bad)
    else (r, InProgress)
  }

  /** The fragment gets as far as the list search. */
  predicate Admissible(q: Queue, f: Fragment) {
    !q.complete && NoteEnd(q, f).Noted? && f.data != []
  }

  // ---------------------------------------------------------------- invariant and overlap

  lemma InsertFirst(ps: seq<Piece>, x: Piece)
    ensures Insert(ps, x)[0] == if Slot(ps, x.off) == 0 then x else ps[0]
  {
  }

  lemma LinkKeeps(q: Queue, f: Fragment)
    requires Sound(q) && !q.complete && f.data != [] && f.Raw().End() <= q.len
    ensures Sound(Link(q, f).0)
  {
    if !HitsNeighbour(q.pieces, f.Raw()) {
      InsertKeeps(q.pieces, f.Raw(), q.len);
      InsertFirst(q.pieces, f.Raw());
    }
  }

  lemma EnqueueKeeps(q: Queue, f: Fragment, env: Env)
    requires Sound(q)
    ensures Sound(Enqueue(q, f, env).0)
  {
    if Admissible(q, f) {
      LinkKeeps(NoteEnd(q, f).queue, f);
    }
  }

  lemma ReceiveKeepsSound(q: Queue, f: Fragment, env: Env, bad: set<nat> -> bool)
    requires Sound(q)
    ensures Sound(Receive(q, f, env, bad).0)
  {
    EnqueueKeeps(q, f, env);
  }

  /** Section 4 of RFC 5722: a fragment that passes the length checks kills the queue exactly
      when it overlaps any queued fragment at all; otherwise it is taken over unchanged. */
  lemma OverlapKills(q: Queue, f: Fragment, env: Env)
    requires Sound(q) && Admissible(q, f) && env.pull && env.trim
    ensures var (r, taken) := Enqueue(q, f, env);
      if exists i :: 0 <= i < |q.pieces| && Overlap(q.pieces[i], f.Raw())
      then !taken && r.complete && r.pieces == q.pieces
      else taken && !r.complete && r.pieces == Insert(q.pieces, f.Raw())
  {
    NeighboursSuffice(q.pieces, f.Raw(), q.len);
  }

  function Run(q: Queue, fs: seq<Fragment>, env: Env, bad: set<nat> -> bool): Queue {
    if fs == [] then q
    else Receive(Run(q, fs[..|fs| - 1], env, bad), fs[|fs| - 1], env, bad).0
  }

  /** A killed queue accepts and completes nothing, for good. */
  lemma {:induction false} DeadStaysDead(q: Queue, fs: seq<Fragment>, f: Fragment, env: Env, bad: set<nat> -> bool)
    requires q.complete
    ensures Run(q, fs, env, bad) == q
    ensures Receive(Run(q, fs, env, bad), f, env, bad) == (q, Invalid)
  {
    if fs != [] {
      DeadStaysDead(q, fs[..|fs| - 1], f, env, bad);
    }
  }
}
