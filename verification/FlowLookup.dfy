/** Finding the flow of a packet (flow_lookup, ovs_flow_tbl_lookup and ovs_flow_tbl_lookup_stats
    in flow_table.c): one hash search per mask, with a small cache that remembers which mask
    to try first.  The cache may hold anything; the answer is that of a linear scan. */
module FlowLookup {
  import opened Wrappers
  import opened FlowKey
  import opened FlowInstance
  import opened MaskArrays
  import opened HashSegments

  /** A flow that answers for the key, whatever its mask. */
  ghost predicate Answer(f: Flow, key: seq<Word>)
    reads f`mask
  {
    f.mask != null && Matches(f.key, key, f.mask.bits)
  }

  /** Every flow of the table has a mask of the array and the hash a lookup computes. */
  ghost predicate Linked(ti: TableInstance, ma: MaskArray, hash: seq<Word> -> nat)
    reads ti`flows, ti.flows`mask, ti.flows`hash, ma`live
  {
    forall f :: f in ti.flows ==>
      f.mask != null && f.mask in ma.live && f.hash == FlowHash(f.key, f.mask.bits, hash)
  }

  /** Number of masks probed before slot i when the slot index comes first. */
  ghost function Probed(ms: seq<FlowMask?>, index: nat, i: nat): nat
    requires i <= |ms|
  {
    |Live(ms[..i])| + if i <= index < |ms| && ms[index] != null then 1 else 0
  }

  lemma ProbedStep(ms: seq<FlowMask?>, index: nat, i: nat)
    requires i < |ms|
    ensures Probed(ms, index, i + 1) == Probed(ms, index, i) + if i != index && ms[i] != null then 1 else 0
    ensures Probed(ms, index, i + 1) <= |Live(ms)|
  {
    CompactStep(ms, i);
    LiveSplit(ms, i + 1);
    if i < index < |ms| && ms[index] != null {
      LiveHas(ms[i + 1..]);
      assert ms[index] == ms[i + 1..][index - (i + 1)];
      assert ms[index] in Live(ms[i + 1..]);
    }
  }

  lemma LiveSplit(ms: seq<FlowMask?>, i: nat)
    requires i <= |ms|
    ensures |Live(ms)| == |Live(ms[..i])| + |Live(ms[i..])|
  {
    assert ms == ms[..i] + ms[i..];
    LiveConcat(ms[..i], ms[i..]);
  }

  lemma ProbedFirst(ms: seq<FlowMask?>, index: nat)
    ensures Probed(ms, index, 0) == (if index < |ms| && ms[index] != null then 1 else 0) <= |Live(ms)|
  {
    LiveHas(ms);
    assert index < |ms| && ms[index] != null ==> ms[index] in Live(ms);
  }

  /** No mask of the first i slots, the one at index left out, finds a flow. */
  ghost predicate NoneBut(ti: TableInstance, ms: seq<FlowMask?>, key: seq<Word>, hash: seq<Word> -> nat, index: nat, i: nat)
    requires ti.Sized() && i <= |ms|
    reads ti`chains, ti.Members()`mask, ti.Members()`hash
  {
    forall k :: 0 <= k < i && k != index && ms[k] != null ==> ti.Hit(key, ms[k], hash) == null
  }

  /** No mask of the first i slots finds a flow. */
  ghost predicate NoneBefore(ti: TableInstance, ms: seq<FlowMask?>, key: seq<Word>, hash: seq<Word> -> nat, i: nat)
    requires ti.Sized() && i <= |ms|
    reads ti`chains, ti.Members()`mask, ti.Members()`hash
  {
    forall k :: 0 <= k < i && ms[k] != null ==> ti.Hit(key, ms[k], hash) == null
  }

  /** One slot of the masks in order, the one at index left out; hits counts the searches. */
  method ScanSlot(ti: TableInstance, ma: MaskArray, key: seq<Word>, index: nat, hits: nat, i: nat, hash: seq<Word> -> nat)
    returns (flow: Flow?, more: nat)
    requires ti.Valid() && i < ma.masks.Length && hits == Probed(ma.masks[..], index, i)
    requires NoneBut(ti, ma.masks[..], key, hash, index, i)
    ensures more == Probed(ma.masks[..], index, i + 1) <= |Live(ma.masks[..])|
    ensures NoneBut(ti, ma.masks[..], key, hash, index, if flow == null then i + 1 else i)
    ensures flow != null ==> i != index && ma.masks[i] != null && flow == ti.Hit(key, ma.masks[i], hash)
  {
    ProbedStep(ma.masks[..], index, i);
    flow, more := null, hits;
    if i != index && ma.masks[i] != null {
      flow := ti.MaskedFlowLookup(key, ma.masks[i], hash);
      more := hits + 1;
    }
  }

  /** All of them, until one finds a flow. */
  method Scan(ti: TableInstance, ma: MaskArray, key: seq<Word>, index: nat, before: nat, hash: seq<Word> -> nat)
    returns (flow: Flow?, hits: nat, found: nat)
    requires ti.Valid() && before == Probed(ma.masks[..], index, 0)
    ensures hits <= |Live(ma.masks[..])|
    ensures flow == null ==> hits == |Live(ma.masks[..])| && NoneBut(ti, ma.masks[..], key, hash, index, ma.masks.Length)
    ensures flow != null ==>
      && found < ma.masks.Length && found != index && ma.masks[found] != null && flow == ti.Hit(key, ma.masks[found], hash)
      && hits == Probed(ma.masks[..], index, found + 1) && NoneBut(ti, ma.masks[..], key, hash, index, found)
  {
    hits, found := before, 0;
    while found < ma.masks.Length
      invariant found <= ma.masks.Length && hits == Probed(ma.masks[..], index, found)
      invariant NoneBut(ti, ma.masks[..], key, hash, index, found)
    {
      flow, hits := ScanSlot(ti, ma, key, index, hits, found, hash);
      if flow != null {
        return;
      }
      found := found + 1;
    }
    assert ma.masks[..][..found] == ma.masks[..];
    flow := null;
  }

  /** flow_lookup: start with the mask at index, then try the others in order.  A search that finds
      nothing probes every mask once, and one that finds a flow stops at the first mask, in this
      order, under which there is one. */
  method Lookup(ti: TableInstance, ma: MaskArray, key: seq<Word>, index: nat, hash: seq<Word> -> nat)
    returns (flow: Flow?, hits: nat, found: nat)
    requires ti.Valid() && ma.Valid()
    ensures hits <= ma.count && (flow == null ==> hits == ma.count)
    ensures if flow == null then found == index && NoneBefore(ti, ma.masks[..], key, hash, ma.masks.Length)
      else found < ma.masks.Length && ma.masks[found] != null && flow == ti.Hit(key, ma.masks[found], hash)
    ensures flow != null && found != index ==>
      hits == Probed(ma.masks[..], index, found + 1) && NoneBefore(ti, ma.masks[..], key, hash, found)
    ensures index < ma.masks.Length && ma.masks[index] != null && ti.Hit(key, ma.masks[index], hash) != null ==>
      found == index && hits == 1
  {
    hits, found := 0, index;
    ProbedFirst(ma.masks[..], index);
    if index < ma.masks.Length && ma.masks[index] != null {
      flow := ti.MaskedFlowLookup(key, ma.masks[index], hash);
      hits := 1;
      if flow != null {
        return;
      }
    }
    flow, hits, found := Scan(ti, ma, key, index, hits, hash);
    if flow == null {
      found := index;
    }
  }

  // ---------------------------------------------------------------- against a linear scan

  /** A search over the masks answers exactly when some stored flow matches the key under its
      own mask. */
  lemma ScanIsComplete(ti: TableInstance, ma: MaskArray, key: seq<Word>, hash: seq<Word> -> nat)
    requires ti.Valid() && ma.Valid() && Linked(ti, ma, hash)
    requires NoneBefore(ti, ma.masks[..], key, hash, ma.masks.Length)
    ensures forall f :: f in ti.flows ==> !Answer(f, key)
  {
    var ms := ma.masks[..];
    LiveHas(ms);
    forall f | f in ti.flows
      ensures !Answer(f, key)
    {
      assert f.mask in MaskSet(ms) && f.mask in ms;
      var k :| 0 <= k < |ms| && ms[k] == f.mask;
      ti.HitIff(key, f.mask, hash);
      assert !Fits(f, key, f.mask);
    }
  }

  lemma HitIsAnswer(ti: TableInstance, ma: MaskArray, key: seq<Word>, mask: FlowMask, hash: seq<Word> -> nat)
    requires ti.Valid() && Linked(ti, ma, hash) && ti.Hit(key, mask, hash) != null
    ensures var f := ti.Hit(key, mask, hash); f in ti.flows && f.mask == mask && Answer(f, key)
  {
    ti.HitIff(key, mask, hash);
    assert Fits(ti.Hit(key, mask, hash), key, mask);
  }

  /** The flow found, or null, is right: a stored flow that matches, and null only if none does. */
  ghost predicate Right(ti: TableInstance, key: seq<Word>, flow: Flow?)
    reads ti`flows, ti.flows`mask
  {
    if flow == null then forall f :: f in ti.flows ==> !Answer(f, key) else flow in ti.flows && Answer(flow, key)
  }

  /** When only one flow matches, every right answer is that flow. */
  lemma RightIsUnique(ti: TableInstance, key: seq<Word>, a: Flow?, b: Flow?)
    requires Right(ti, key, a) && Right(ti, key, b)
    requires forall f, g :: f in ti.flows && g in ti.flows && Answer(f, key) && Answer(g, key) ==> f == g
    ensures a == b
  {
  }

  /** ovs_flow_tbl_lookup. */
  method FlowTblLookup(ti: TableInstance, ma: MaskArray, key: seq<Word>, hash: seq<Word> -> nat) returns (flow: Flow?)
    requires ti.Valid() && ma.Valid() && Linked(ti, ma, hash)
    ensures Right(ti, key, flow)
  {
    var hits, found;
    flow, hits, found := Lookup(ti, ma, key, 0, hash);
    if flow == null {
      ScanIsComplete(ti, ma, key, hash);
    } else {
      HitIsAnswer(ti, ma, key, ma.masks[found], hash);
    }
  }

  // ------------------------------------------------------------------------ mask cache

  datatype CacheEntry = CacheEntry(skbHash: nat, maskIndex: nat)

  /** The first of the entries that was written for this hash. */
  function EntryFor(cache: seq<CacheEntry>, es: seq<nat>, h: nat): (r: Option<nat>)
    requires |cache| == ENTRIES && forall i :: 0 <= i < |es| ==> es[i] < ENTRIES
    ensures r.Some? ==> r.value in es && r.value < ENTRIES && cache[r.value].skbHash == h
    ensures r.None? ==> forall i :: 0 <= i < |es| ==> cache[es[i]].skbHash != h
  {
    if es == [] then None
    else if cache[es[0]].skbHash == h then Some(es[0])
    else EntryFor(cache, es[1..], h)
  }

  /** Entry e is the only one that may differ. */
  ghost predicate OneWritten(before: seq<CacheEntry>, after: seq<CacheEntry>, e: nat) {
    |before| == |after| && forall i :: 0 <= i < |before| && i != e ==> after[i] == before[i]
  }

  /** The entry for this hash points at the mask. */
  ghost predicate Remembered(cache: seq<CacheEntry>, h: nat, ms: seq<FlowMask?>, mask: FlowMask)
    requires |cache| == ENTRIES
  {
    match EntryFor(cache, Segments(h, SEGS), h)
    case None => false
    case Some(e) => cache[e].maskIndex < |ms| && ms[cache[e].maskIndex] == mask
  }

  /** The entry of the hash, or else the one to reuse: the one with the smallest hash. */
  method PickEntry(cache: array<CacheEntry>, h: nat) returns (hit: bool, e: nat)
    requires cache.Length == ENTRIES
    ensures e in Segments(h, SEGS) && e < ENTRIES
    ensures EntryFor(cache[..], Segments(h, SEGS), h) == if hit then Some(e) else None
    ensures !hit ==> forall i :: 0 <= i < SEGS ==> cache[e].skbHash <= cache[Segments(h, SEGS)[i]].skbHash
  {
    var rest: nat, n: nat, ce := h, SEGS, None;
    ghost var es := Segments(h, SEGS);
    while n > 0
      invariant n <= SEGS && (ce.None? <==> n == SEGS) && es[SEGS - n..] == Segments(rest, n)
      invariant EntryFor(cache[..], es, h) == EntryFor(cache[..], Segments(rest, n), h)
      invariant ce.Some? ==> ce.value in es && ce.value < ENTRIES
      invariant ce.Some? ==> forall i :: 0 <= i < SEGS - n ==> cache[ce.value].skbHash <= cache[es[i]].skbHash
    {
      e := rest % ENTRIES;
      ghost var s := Segments(rest, n);
      assert s[0] == e == es[SEGS - n] && s[1..] == Segments(rest / ENTRIES, n - 1) == es[SEGS - n + 1..];
      if cache[e].skbHash == h {
        return true, e;
      }
      if ce.None? || cache[e].skbHash < cache[ce.value].skbHash {
        ce := Some(e);
      }
      rest, n := rest / ENTRIES, n - 1;
    }
    hit, e := false, ce.value;
  }

  lemma {:induction false} EntryWritten(cache: seq<CacheEntry>, es: seq<nat>, h: nat, e: nat, index: nat)
    requires |cache| == ENTRIES && forall i :: 0 <= i < |es| ==> es[i] < ENTRIES
    requires EntryFor(cache, es, h) == Some(e) || (EntryFor(cache, es, h) == None && e in es)
    ensures e < ENTRIES && EntryFor(cache[e := CacheEntry(h, index)], es, h) == Some(e)
  {
    if es[0] != e {
      EntryWritten(cache, es[1..], h, e, index);
    }
  }

  /** ovs_flow_tbl_lookup_stats for a packet without hash or with one; recirc mixes in the
      recirculation id. */
  method LookupStats(ti: TableInstance, ma: MaskArray, cache: array<CacheEntry>, key: seq<Word>, skbHash: nat,
                     recircId: nat, hash: seq<Word> -> nat, recirc: (nat, nat) -> nat)
    returns (flow: Flow?, hits: nat)
    requires ti.Valid() && ma.Valid() && Linked(ti, ma, hash) && cache.Length == ENTRIES
    modifies cache
    ensures Right(ti, key, flow) && hits <= ma.count && (flow == null ==> hits == ma.count)
    ensures skbHash == 0 ==> cache[..] == old(cache[..])
  {
    var found;
    if skbHash == 0 {
      flow, hits, found := Lookup(ti, ma, key, 0, hash);
    } else {
      var h := if recircId != 0 then recirc(skbHash, recircId) else skbHash;
      flow, hits, found := CachedLookup(ti, ma, cache, key, h, hash);
    }
    if flow == null {
      ScanIsComplete(ti, ma, key, hash);
    } else {
      HitIsAnswer(ti, ma, key, ma.masks[found], hash);
    }
  }

  /** The part of ovs_flow_tbl_lookup_stats that uses the cache.  Whatever the cache holds, the
      answer is that of the full search; and once a hash has found a flow, the next search for a
      key of that hash under the same mask needs a single probe. */
  method CachedLookup(ti: TableInstance, ma: MaskArray, cache: array<CacheEntry>, key: seq<Word>, h: nat,
                      hash: seq<Word> -> nat)
    returns (flow: Flow?, hits: nat, found: nat)
    requires ti.Valid() && ma.Valid() && cache.Length == ENTRIES
    modifies cache
    ensures hits <= ma.count && (flow == null ==> hits == ma.count)
    ensures exists e :: 0 <= e < ENTRIES && e in Segments(h, SEGS) && OneWritten(old(cache[..]), cache[..], e)
    ensures flow == null && old(EntryFor(cache[..], Segments(h, SEGS), h)).None? ==> cache[..] == old(cache[..])
    ensures if flow == null then NoneBefore(ti, ma.masks[..], key, hash, ma.masks.Length)
      else found < ma.masks.Length && ma.masks[found] != null && flow == ti.Hit(key, ma.masks[found], hash)
    ensures flow != null ==> Remembered(cache[..], h, ma.masks[..], ma.masks[found])
    ensures forall m :: m in ma.live && old(Remembered(cache[..], h, ma.masks[..], m)) && ti.Hit(key, m, hash) != null ==>
      flow == ti.Hit(key, m, hash) && hits == 1
  {
    var hit, e := PickEntry(cache, h);
    ghost var before := cache[..];
    var index := cache[e].maskIndex;
    flow, hits, found := Lookup(ti, ma, key, index, hash);
    if flow != null {
      EntryWritten(before, Segments(h, SEGS), h, e, found);
      cache[e] := CacheEntry(h, found);
      assert cache[..] == before[e := CacheEntry(h, found)];
    } else if hit {
      cache[e] := CacheEntry(0, found);
    }
    assert OneWritten(before, cache[..], e);
  }
}
