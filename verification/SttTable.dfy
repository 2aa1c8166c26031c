/** The per-CPU table of incomplete STT packets (free_frag, evict_frags, lookup_frag,
    reassemble and clean_percpu in linux/compat/stt.c) as a value: slots, the list of used slots
    from least to most recently used, and the accounted memory. */
module SttTable {
  import opened Wrappers
  import opened Pieces
  import opened SttChain
  import opened HashSegments

  const FRAG_HASH_ENTRIES := ENTRIES
  const FRAG_HASH_SEGS := SEGS
  const REASM_HI_THRESH := 4 * 1024 * 1024
  const REASM_LO_THRESH := 3 * 1024 * 1024
  const HZ := 1000
  const FRAG_EXP_TIME := 30 * HZ

  datatype Key = Key(saddr: nat, daddr: nat, pktSeq: nat, mark: nat, net: nat)

  datatype Slot = Empty | Used(key: Key, stamp: int, chain: Chain)

  datatype Table = Table(slots: seq<Slot>, lru: seq<nat>, mem: int)

  function Mem(s: Slot): int {
    if s.Empty? then 0 else s.chain.mem
  }

  function SumMem(slots: seq<Slot>): int {
    if slots == [] then 0 else Mem(slots[0]) + SumMem(slots[1..])
  }

  /** The LRU list names each used slot once and nothing else. */
  ghost predicate Listed(slots: seq<Slot>, lru: seq<nat>) {
    && Distinct(lru)
    && (forall i :: 0 <= i < |lru| ==> lru[i] < |slots|)
    && (forall s: nat :: s < |slots| ==> (s in lru <==> slots[s].Used?))
  }

  ghost predicate Chains(slots: seq<Slot>) {
    forall s :: 0 <= s < |slots| && slots[s].Used? ==> SttChain.Sound(slots[s].chain) && slots[s].chain.mem >= 0
  }

  ghost predicate Inv(t: Table) {
    |t.slots| == FRAG_HASH_ENTRIES && Listed(t.slots, t.lru) && Chains(t.slots) && t.mem == SumMem(t.slots)
  }

  /** list_del. */
  function Unlisted(lru: seq<nat>, s: nat): seq<nat> {
    if lru == [] then [] else if lru[0] == s then lru[1..] else [lru[0]] + Unlisted(lru[1..], s)
  }

  ghost predicate Distinct(lru: seq<nat>) {
    forall i, j :: 0 <= i < j < |lru| ==> lru[i] != lru[j]
  }

  lemma ConsDistinct(x: nat, r: seq<nat>)
    requires Distinct(r) && x !in r
    ensures Distinct([x] + r)
  {
  }

  lemma {:induction false} UnlistedHas(lru: seq<nat>, s: nat)
    requires Distinct(lru)
    ensures Distinct(Unlisted(lru, s))
    ensures forall x: nat :: x in Unlisted(lru, s) <==> x in lru && x != s
  {
    if lru != [] {
      var head, rest := lru[0], lru[1..];
      assert lru == [head] + rest && head !in rest;
      if head != s {
        UnlistedHas(rest, s);
        ConsDistinct(head, Unlisted(rest, s));
      }
    }
  }

  lemma {:induction false} SumMemSet(slots: seq<Slot>, i: nat, s: Slot)
    requires i < |slots|
    ensures SumMem(slots[i := s]) == SumMem(slots) - Mem(slots[i]) + Mem(s)
  {
    if i == 0 {
      assert slots[0 := s][1..] == slots[1..];
    } else {
      assert slots[i := s][1..] == slots[1..][i - 1 := s];
      SumMemSet(slots[1..], i - 1, s);
    }
  }

  lemma {:induction false} SumMemBounds(slots: seq<Slot>)
    requires Chains(slots)
    ensures SumMem(slots) >= 0
    ensures (forall i :: 0 <= i < |slots| ==> slots[i].Empty?) ==> SumMem(slots) == 0
  {
    if slots != [] { SumMemBounds(slots[1..]); }
  }

  lemma ListedFree(slots: seq<Slot>, lru: seq<nat>, i: nat)
    requires Listed(slots, lru) && i < |slots| && slots[i].Used?
    ensures Listed(slots[i := Empty], Unlisted(lru, i))
  {
    UnlistedHas(lru, i);
    var r := Unlisted(lru, i);
    assert forall k :: 0 <= k < |r| ==> r[k] in r;
  }

  /** free_frag. */
  function Free(t: Table, i: nat): (r: Table)
    requires Inv(t) && i < |t.slots| && t.slots[i].Used?
    ensures Inv(r)
  {
    ListedFree(t.slots, t.lru, i);
    SumMemSet(t.slots, i, Empty);
    Table(t.slots[i := Empty], Unlisted(t.lru, i), t.mem - t.slots[i].chain.mem)
  }

  lemma OldestIsUsed(t: Table)
    requires Inv(t) && t.lru != []
    ensures t.lru[0] < |t.slots| && t.slots[t.lru[0]].Used?
  {
    assert t.lru[0] in t.lru;
  }

  /** evict_frags: free the least recently used until the low mark is met. */
  function Evict(t: Table): (r: Table)
    requires Inv(t)
    ensures Inv(r)
    decreases |t.lru|
  {
    if t.lru == [] || t.mem <= REASM_LO_THRESH then t
    else
      OldestIsUsed(t);
      Evict(Free(t, t.lru[0]))
  }

  /** The first n slots of the LRU list freed. */
  function FreeFirst(t: Table, n: nat): (r: Table)
    requires Inv(t) && n <= |t.lru|
    ensures Inv(r) && r.lru == t.lru[n..]
    decreases n
  {
    if n == 0 then t
    else
      OldestIsUsed(t);
      FreeFirst(Free(t, t.lru[0]), n - 1)
  }

  /** How many slots eviction frees. */
  ghost function Evicted(t: Table): (n: nat)
    requires Inv(t)
    ensures n <= |t.lru|
    decreases |t.lru|
  {
    if t.lru == [] || t.mem <= REASM_LO_THRESH then 0
    else
      OldestIsUsed(t);
      1 + Evicted(Free(t, t.lru[0]))
  }

  /** Eviction ends at or below the low mark; it frees the least recently used slots, and one
      slot less would have left it above the mark. */
  lemma {:induction false} EvictsOldest(t: Table)
    requires Inv(t)
    ensures Evict(t).mem <= REASM_LO_THRESH
    ensures Evict(t) == FreeFirst(t, Evicted(t))
    ensures Evicted(t) > 0 ==> FreeFirst(t, Evicted(t) - 1).mem > REASM_LO_THRESH
    decreases |t.lru|
  {
    if t.lru == [] {
      SumMemBounds(t.slots);
      assert forall s: nat :: s < |t.slots| ==> !t.slots[s].Used?;
    } else if t.mem > REASM_LO_THRESH {
      OldestIsUsed(t);
      EvictsOldest(Free(t, t.lru[0]));
    }
  }

  // ---------------------------------------------------------------------------- lookup

  function Candidates(hash: Key -> nat, key: Key): (r: seq<nat>)
    ensures |r| == FRAG_HASH_SEGS && forall i :: 0 <= i < |r| ==> r[i] < FRAG_HASH_ENTRIES
  {
    Segments(hash(key), FRAG_HASH_SEGS)
  }

  predicate Fresh(s: Slot, now: int) {
    s.Used? && now < s.stamp + FRAG_EXP_TIME
  }

  predicate Matches(s: Slot, key: Key, now: int) {
    Fresh(s, now) && s.key == key
  }

  ghost predicate InRange(cs: seq<nat>, n: nat) {
    forall i :: 0 <= i < |cs| ==> cs[i] < n
  }

  /** The first candidate that holds the packet and has not expired. */
  function Find(slots: seq<Slot>, cs: seq<nat>, key: Key, now: int): (r: Option<nat>)
    requires InRange(cs, |slots|)
    ensures r.Some? ==> r.value in cs && r.value < |slots| && Matches(slots[r.value], key, now)
    ensures r.None? ==> forall i :: 0 <= i < |cs| ==> !Matches(slots[cs[i]], key, now)
  {
    if cs == [] then None
    else if Matches(slots[cs[0]], key, now) then Some(cs[0])
    else Find(slots, cs[1..], key, now)
  }

  /** A better victim: free, or older, when the other is in use. */
  predicate Better(s: Slot, than: Slot) {
    than.Used? && (s.Empty? || s.stamp < than.stamp)
  }

  /** The slot to sacrifice: a free one if there is one, otherwise the oldest. */
  function Victim(slots: seq<Slot>, cs: seq<nat>): (v: nat)
    requires InRange(cs, |slots|) && cs != []
    ensures v in cs && v < |slots|
    ensures slots[v].Used? ==>
      forall i :: 0 <= i < |cs| ==> slots[cs[i]].Used? && slots[v].stamp <= slots[cs[i]].stamp
  {
    var last := cs[|cs| - 1];
    if |cs| == 1 then last
    else
      var v := Victim(slots, cs[..|cs| - 1]);
      if Better(slots[last], slots[v]) then last else v
  }

  /** lookup_frag. */
  function Lookup(t: Table, cs: seq<nat>, key: Key, now: int): (r: (nat, Table))
    requires Inv(t) && InRange(cs, |t.slots|) && cs != []
    ensures Inv(r.1) && r.0 < |r.1.slots|
  {
    match Find(t.slots, cs, key, now)
    case Some(i) => (i, t)
    case None =>
      var v := Victim(t.slots, cs);
      (v, if t.slots[v].Used? then Free(t, v) else t)
  }

  // ------------------------------------------------------------------------- reassemble

  lemma ListedStore(slots: seq<Slot>, lru: seq<nat>, i: nat, s: Slot)
    requires Listed(slots, lru) && i < |slots| && slots[i].Empty? && s.Used?
    ensures Listed(slots[i := s], lru + [i])
  {
    var r := lru + [i];
    assert i !in lru;
    forall a, b | 0 <= a < b < |r|
      ensures r[a] != r[b]
    {
      assert r[a] in lru;
    }
  }

  lemma ListedMove(slots: seq<Slot>, lru: seq<nat>, i: nat, s: Slot)
    requires Listed(slots, lru) && i < |slots| && slots[i].Used? && s.Used?
    ensures Listed(slots[i := s], Unlisted(lru, i) + [i])
  {
    ListedFree(slots, lru, i);
    ListedStore(slots[i := Empty], Unlisted(lru, i), i, s);
    assert slots[i := Empty][i := s] == slots[i := s];
  }

  /** A fragment of a packet that is not whole by itself. */
  predicate Partial(a: Arrival) {
    a.data != [] && a.off + |a.data| <= a.tot && a.tot != |a.data|
  }

  /** The first fragment takes a free slot. */
  function Store(t: Table, i: nat, key: Key, a: Arrival, now: int): (r: Table)
    requires Inv(t) && i < |t.slots| && t.slots[i].Empty? && Partial(a)
    ensures Inv(r)
  {
    var s := Used(key, now, Start(a));
    ListedStore(t.slots, t.lru, i, s);
    SumMemSet(t.slots, i, s);
    AcceptKeepsSound(None, a);
    Table(t.slots[i := s], t.lru + [i], t.mem + a.truesize)
  }

  /** A further fragment of the packet in slot i. */
  function Advance(t: Table, i: nat, a: Arrival): (r: (Table, Verdict))
    requires Inv(t) && i < |t.slots| && t.slots[i].Used? && Partial(a)
    ensures Inv(r.0)
  {
    var Used(key, stamp, chain) := t.slots[i];
    if Drops(chain.pieces, a) then (t, Freed)
    else
      var c := Extend(chain, a);
      AcceptKeepsSound(Some(chain), a);
      var delta := Delta(chain.pieces, a);
      if c.tot == c.rcvd then
        ListedFree(t.slots, t.lru, i);
        SumMemSet(t.slots, i, Empty);
        (Table(t.slots[i := Empty], Unlisted(t.lru, i), t.mem + delta - c.mem), Handed(Glue(c.pieces), c.ce || c.own))
      else
        ListedMove(t.slots, t.lru, i, Used(key, stamp, c));
        SumMemSet(t.slots, i, Used(key, stamp, c));
        (Table(t.slots[i := Used(key, stamp, c)], Unlisted(t.lru, i) + [i], t.mem + delta), Kept)
  }

  /** Make room if the high mark would be passed. */
  function Room(t: Table, a: Arrival): (r: Table)
    requires Inv(t)
    ensures Inv(r)
  {
    if t.mem + a.truesize > REASM_HI_THRESH then Evict(t) else t
  }

  /** reassemble. */
  function Reassemble(t: Table, key: Key, a: Arrival, now: int, hash: Key -> nat): (r: (Table, Verdict))
    requires Inv(t)
    ensures Inv(r.0)
  {
    if a.data == [] || a.off + |a.data| > a.tot then (t, Freed)
    else if a.tot == |a.data| then (t, Handed(a.data, a.ce))
    else
      var (i, u) := Lookup(Room(t, a), Candidates(hash, key), key, now);
      if u.slots[i].Empty? then (Store(u, i, key, a, now), Kept)
      else Advance(u, i, a)
  }

  /** What is no proper part of a packet never reaches the table: an empty segment, or one that
      reaches beyond its packet, is freed, and a segment that is a packet by itself is handed over
      at once, with its bytes and its mark. */
  lemma NeverStored(t: Table, key: Key, a: Arrival, now: int, hash: Key -> nat)
    requires Inv(t)
    ensures a.data == [] || a.off + |a.data| > a.tot ==> Reassemble(t, key, a, now, hash) == (t, Freed)
    ensures a.data != [] && a.off == 0 && a.tot == |a.data| ==>
      Reassemble(t, key, a, now, hash) == (t, Handed(a.data, a.ce))
  {
  }

  // ------------------------------------------------------------------- order of use

  /** The list follows the order given by u. */
  ghost predicate SortedBy(lru: seq<nat>, u: seq<nat>) {
    && (forall i :: 0 <= i < |lru| ==> lru[i] < |u|)
    && forall i, j :: 0 <= i < j < |lru| ==> u[lru[i]] < u[lru[j]]
  }

  lemma ConsSorted(x: nat, r: seq<nat>, u: seq<nat>)
    requires SortedBy(r, u) && x < |u| && forall y :: y in r ==> y < |u| && u[x] < u[y]
    ensures SortedBy([x] + r, u)
  {
  }

  lemma {:induction false} UnlistedSorted(lru: seq<nat>, s: nat, u: seq<nat>)
    requires SortedBy(lru, u)
    ensures SortedBy(Unlisted(lru, s), u) && forall y :: y in Unlisted(lru, s) ==> y in lru
  {
    if lru != [] && lru[0] != s {
      UnlistedSorted(lru[1..], s, u);
      ConsSorted(lru[0], Unlisted(lru[1..], s), u);
    }
  }

  lemma {:induction false} EvictSorted(t: Table, u: seq<nat>)
    requires Inv(t) && SortedBy(t.lru, u)
    ensures SortedBy(Evict(t).lru, u)
    decreases |t.lru|
  {
    if t.lru != [] && t.mem > REASM_LO_THRESH {
      OldestIsUsed(t);
      UnlistedSorted(t.lru, t.lru[0], u);
      EvictSorted(Free(t, t.lru[0]), u);
    }
  }

  /** A slot that is not listed goes to the end when it is used after all others. */
  lemma AppendSorted(lru: seq<nat>, u: seq<nat>, i: nat, n: nat)
    requires SortedBy(lru, u) && i < |u| && i !in lru && forall s :: 0 <= s < |u| ==> u[s] < n
    ensures SortedBy(lru + [i], u[i := n])
  {
    forall k | 0 <= k < |lru| ensures lru[k] != i {
      assert lru[k] in lru;
    }
  }
}
