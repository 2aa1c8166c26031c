/** struct flow_table and its updates (ovs_flow_tbl_init, ovs_flow_tbl_insert, ovs_flow_tbl_remove
    and ovs_flow_tbl_flush in flow_table.c).  Every update keeps the table fit for lookup and
    the reference counts of the masks right. */
module FlowTables {
  import opened FlowKey
  import opened FlowInstance
  import opened MaskArrays
  import opened FlowLookup

  const TBL_MIN_BUCKETS := 1024
  const HZ := 1000
  const REHASH_INTERVAL := 10 * 60 * HZ

  /** The flows that use a mask. */
  ghost function Users(uses: map<Flow, FlowMask>, m: FlowMask): set<Flow> {
    set f | f in uses && uses[f] == m
  }

  /** Each mask counts at least the flows that use it, and at least one use. */
  ghost predicate Counted(uses: map<Flow, FlowMask>, refs: map<FlowMask, nat>) {
    && (forall f :: f in uses ==> uses[f] in refs)
    && (forall m :: m in refs ==> refs[m] > 0 && refs[m] >= |Users(uses, m)|)
  }

  /** Each mask counts exactly the flows that use it. */
  ghost predicate Exact(uses: map<Flow, FlowMask>, refs: map<FlowMask, nat>) {
    forall m :: m in refs ==> refs[m] == |Users(uses, m)|
  }

  ghost function OneMore(refs: map<FlowMask, nat>, m: FlowMask): map<FlowMask, nat> {
    refs[m := if m in refs then refs[m] + 1 else 1]
  }

  ghost function OneLess(refs: map<FlowMask, nat>, m: FlowMask): map<FlowMask, nat>
    requires m in refs && refs[m] > 0
  {
    if refs[m] == 1 then refs - {m} else refs[m := refs[m] - 1]
  }

  lemma UsersAdd(uses: map<Flow, FlowMask>, f: Flow, m: FlowMask, x: FlowMask)
    requires f !in uses
    ensures |Users(uses[f := m], x)| == |Users(uses, x)| + if x == m then 1 else 0
  {
    assert Users(uses[f := m], x) == if x == m then Users(uses, x) + {f} else Users(uses, x);
  }

  lemma AddCounts(uses: map<Flow, FlowMask>, refs: map<FlowMask, nat>, f: Flow, m: FlowMask)
    requires Counted(uses, refs) && f !in uses
    ensures |uses[f := m]| == |uses| + 1
    ensures Counted(uses[f := m], OneMore(refs, m))
    ensures Exact(uses, refs) ==> Exact(uses[f := m], OneMore(refs, m))
  {
    forall x | x in OneMore(refs, m)
      ensures |Users(uses[f := m], x)| == |Users(uses, x)| + if x == m then 1 else 0
    {
      UsersAdd(uses, f, m, x);
    }
    if m !in refs { assert Users(uses, m) == {}; }
  }

  lemma DropCounts(uses: map<Flow, FlowMask>, refs: map<FlowMask, nat>, f: Flow)
    requires Counted(uses, refs) && f in uses
    ensures |uses - {f}| == |uses| - 1
    ensures refs[uses[f]] > 0 && Counted(uses - {f}, OneLess(refs, uses[f]))
    ensures Exact(uses, refs) ==> Exact(uses - {f}, OneLess(refs, uses[f]))
  {
    var m, fewer := uses[f], uses - {f};
    assert uses == fewer[f := m];
    forall x | x in refs
      ensures |Users(uses, x)| == |Users(fewer, x)| + if x == m then 1 else 0
    {
      UsersAdd(fewer, f, m, x);
    }
    if refs[m] == 1 {
      assert forall g :: g in fewer && fewer[g] == m ==> g in Users(fewer, m);
    }
  }

  /** table_instance_rehash. */
  method Rehash(ti: TableInstance, n: nat, seed: nat) returns (r: TableInstance)
    requires ti.Valid() && n > 0
    modifies (if ti.nodeVer then ti.flows else {})`node0, (if ti.nodeVer then {} else ti.flows)`node1
    ensures fresh(r) && fresh(r.buckets) && r.Valid() && r.flows == ti.flows && r.mix == ti.mix
    ensures r.buckets.Length == n && ti.Valid()
  {
    r := new TableInstance(n, seed, ti.mix);
    CopyFlows(ti, r);
  }

  /** The flow half of struct flow_table. */
  class FlowIndex {
    var ti: TableInstance
    var count: nat
    var lastRehash: int
    const hash: seq<Word> -> nat
    const mix: (nat, nat) -> nat
    /** The mask of each flow. */
    ghost var uses: map<Flow, FlowMask>
    ghost var repr: set<object>

    ghost predicate Tied()
      reads `uses, uses.Keys`mask, uses.Keys`hash
    {
      forall f :: f in uses ==> f.mask == uses[f] && f.hash == FlowHash(f.key, uses[f].bits, hash)
    }

    ghost predicate Valid()
      reads this, repr
    {
      && ti in repr && ti.buckets in repr && (forall f :: f in uses ==> f in repr) && this !in repr
      && ti.flows == uses.Keys && ti.mix == mix && ti.Valid()
      && Tied()
    }

    constructor (now: int, seed: nat, hash: seq<Word> -> nat, mix: (nat, nat) -> nat)
      ensures Valid() && uses == map[] && count == 0 && fresh(repr)
    {
      this.hash, this.mix, count, lastRehash := hash, mix, 0, now;
      uses := map[];
      var t := new TableInstance(TBL_MIN_BUCKETS, seed, mix);
      ti := t;
      repr := {t, t.buckets};
    }

    /** Grow the table when there are more flows than buckets, or rehash it when the last time is
        long ago; without memory the instance stays. */
    method GrowOrRehash(now: int, alloc: bool, seed: nat)
      requires ti.Valid() && ti.mix == mix
      modifies `ti, `lastRehash, ti.flows`node0, ti.flows`node1
      ensures ti.Valid() && ti.flows == old(ti.flows) && ti.mix == mix
      ensures ti == old(ti) || (fresh(ti) && fresh(ti.buckets))
      ensures ti != old(ti) <==> alloc && (count > old(ti.buckets.Length) || now > old(lastRehash) + REHASH_INTERVAL)
      ensures ti.buckets.Length == old(ti.buckets.Length) * if alloc && count > old(ti.buckets.Length) then 2 else 1
      ensures lastRehash == if ti != old(ti) then now else old(lastRehash)
    {
      var n := ti.buckets.Length;
      if (count > n || now > lastRehash + REHASH_INTERVAL) && alloc {
        ti := Rehash(ti, if count > n then 2 * n else n, seed);
        lastRehash := now;
      }
    }

    /** table_instance_insert, and the table grown or rehashed if it is time. */
    method FlowKeyInsert(f: Flow, now: int, alloc: bool, seed: nat)
      requires ti.Valid() && f !in ti.flows && ti.mix == mix
      modifies `ti, `count, `lastRehash, ti.buckets, ti`chains, ti`flows, ti.flows`node0, ti.flows`node1, f`node0, f`node1
      ensures ti.Valid() && ti.flows == old(ti.flows) + {f} && count == old(count) + 1 && ti.mix == mix
      ensures (ti == old(ti) && ti.buckets == old(ti.buckets)) || (fresh(ti) && fresh(ti.buckets))
      ensures ti != old(ti) <==> alloc && (count > old(ti.buckets.Length) || now > old(lastRehash) + REHASH_INTERVAL)
      ensures ti.buckets.Length == old(ti.buckets.Length) * if alloc && count > old(ti.buckets.Length) then 2 else 1
      ensures lastRehash == if ti != old(ti) then now else old(lastRehash)
    {
      ti.Insert(f);
      count := count + 1;
      GrowOrRehash(now, alloc, seed);
    }

    /** flow_key_insert. */
    method Insert(f: Flow, now: int, alloc: bool, seed: nat)
      requires Valid() && f !in repr && f.mask != null && f.hash == FlowHash(f.key, f.mask.bits, hash)
      modifies this, repr, f`node0, f`node1
      ensures Valid() && uses == old(uses)[f := f.mask] && count == old(count) + 1
      ensures fresh(repr - old(repr) - {f})
    {
      FlowKeyInsert(f, now, alloc, seed);
      Absorb(f);
    }

    /** The flow gets its mask and goes into the table. */
    method Adopt(f: Flow, m: FlowMask, now: int, alloc: bool, seed: nat)
      requires Valid() && f !in repr
      modifies this, repr, f
      ensures Valid() && uses == old(uses)[f := m] && count == old(count) + 1 && f.mask == m
      ensures fresh(repr - old(repr) - {f})
    {
      f.mask := m;
      f.hash := FlowHash(f.key, m.bits, hash);
      Insert(f, now, alloc, seed);
    }

    ghost method Absorb(f: Flow)
      requires ti.Valid() && ti.mix == mix && ti.flows == uses.Keys + {f} && this !in repr
      requires Tied() && f.mask != null && f.hash == FlowHash(f.key, f.mask.bits, hash)
      requires f !in uses && forall x :: x in uses ==> x in repr
      modifies `uses, `repr
      ensures Valid() && uses == old(uses)[f := f.mask] && repr == old(repr) + {f, ti, ti.buckets}
    {
      uses := uses[f := f.mask];
      repr := repr + {f, ti, ti.buckets};
    }

    /** The flow leaves its chain. */
    method Remove(f: Flow)
      requires Valid() && f in uses && count > 0
      modifies this, repr
      ensures Valid() && uses == old(uses) - {f} && count == old(count) - 1 && repr == old(repr) && f.mask == old(f.mask)
    {
      ti.Remove(f);
      count := count - 1;
      Discharge(f);
    }

    ghost method Discharge(f: Flow)
      requires Tied() && f in uses && ti.flows == uses.Keys - {f} && ti.Valid() && ti.mix == mix
      requires ti in repr && ti.buckets in repr && (forall x :: x in uses ==> x in repr) && this !in repr
      modifies `uses
      ensures Valid() && uses == old(uses) - {f}
    {
      uses := uses - {f};
    }

    /** The new, empty table of a flush. */
    method Flush(now: int, seed: nat)
      requires Valid()
      modifies this
      ensures Valid() && uses == map[] && count == 0 && fresh(repr - old(repr))
    {
      var t := new TableInstance(TBL_MIN_BUCKETS, seed, mix);
      ti, lastRehash, count := t, now, 0;
      uses := map[];
      repr := repr + {t, t.buckets};
    }
  }

  /** The mask half of struct flow_table. */
  class MaskBook {
    var ma: MaskArray
    /** The count of each mask. */
    ghost var refs: map<FlowMask, nat>
    ghost var repr: set<object>

    ghost predicate Valid()
      reads this, repr
    {
      && ma in repr && ma.masks in repr && (forall m :: m in ma.live ==> m in repr) && this !in repr
      && ma.Valid() && refs.Keys == ma.live
      && forall m :: m in ma.live ==> m.refCount == refs[m]
    }

    constructor ()
      ensures Valid() && refs == map[] && fresh(repr)
    {
      var a := new MaskArray(MASK_ARRAY_SIZE_MIN);
      ma, refs, repr := a, map[], {a, a.masks};
    }

    /** flow_mask_insert. */
    method Insert(bits: MaskBits, arrayAlloc: bool, maskAlloc: bool) returns (m: FlowMask?)
      requires Valid()
      modifies this, repr
      ensures Valid() && fresh(repr - old(repr))
      ensures m != null <==> (exists x :: x in old(refs) && MaskEqual(bits, x.bits))
                             || (maskAlloc && (old(ma.count) < old(ma.masks.Length) || arrayAlloc))
      ensures m == null ==> refs == old(refs)
      ensures m != null ==> MaskEqual(bits, m.bits) && refs == OneMore(old(refs), m)
    {
      m := Put(bits, arrayAlloc, maskAlloc);
      Absorb(m);
    }

    /** The mask goes into the array, which may be replaced; the books are still to follow. */
    method Put(bits: MaskBits, arrayAlloc: bool, maskAlloc: bool) returns (m: FlowMask?)
      requires Valid()
      modifies this`ma, repr
      ensures ma.Valid() && this !in repr && (m != null ==> MaskEqual(bits, m.bits))
      ensures m != null <==> (exists x :: x in refs && MaskEqual(bits, x.bits))
                             || (maskAlloc && (old(ma.count) < old(ma.masks.Length) || arrayAlloc))
      ensures forall x :: x in refs ==> x in repr && (x != m ==> x.refCount == refs[x])
      ensures if m == null then ma.live == refs.Keys else ma.live == refs.Keys + {m} && m.refCount == OneMore(refs, m)[m]
      ensures ma in repr || fresh(ma)
      ensures ma.masks in repr || fresh(ma.masks)
      ensures m == null || m in repr || fresh(m)
    {
      ma, m := FlowMaskInsert(ma, bits, arrayAlloc, maskAlloc);
    }

    /** The mask, if there is one, is ours now or is used once more. */
    ghost method Absorb(m: FlowMask?)
      requires ma.Valid() && this !in repr
      requires forall x :: x in refs ==> x in repr && (x != m ==> x.refCount == refs[x])
      requires if m == null then ma.live == refs.Keys else ma.live == refs.Keys + {m} && m.refCount == OneMore(refs, m)[m]
      modifies `refs, `repr
      ensures Valid() && repr == old(repr) + {ma, ma.masks} + if m == null then {} else {m}
      ensures refs == if m == null then old(refs) else OneMore(old(refs), m)
    {
      repr := repr + {ma, ma.masks};
      if m != null {
        refs, repr := OneMore(refs, m), repr + {m};
      }
    }

    /** flow_mask_remove. */
    method Remove(m: FlowMask, arrayAlloc: bool)
      requires Valid() && m in refs && refs[m] > 0
      modifies this, repr
      ensures Valid() && fresh(repr - old(repr)) && refs == OneLess(old(refs), m)
    {
      var r := FlowMaskRemove(ma, m, arrayAlloc);
      ma := r;
      repr := repr + {r, r.masks};
      refs := OneLess(refs, m);
    }
  }

  class FlowTable {
    const index: FlowIndex
    const book: MaskBook

    ghost predicate Apart()
      reads index, index.repr, book, book.repr
    {
      index.Valid() && book.Valid() && index.repr !! book.repr && index !in book.repr && book !in index.repr
    }

    ghost predicate Valid()
      reads index, index.repr, book, book.repr
    {
      Apart() && Counted(index.uses, book.refs) && index.count == |index.uses|
    }

    /** What the lookups ask for. */
    lemma ReadyForLookup()
      requires Valid()
      ensures index.ti.Valid() && book.ma.Valid() && Linked(index.ti, book.ma, index.hash)
    {
    }

    /** ovs_flow_tbl_init. */
    constructor (now: int, seed: nat, hash: seq<Word> -> nat, mix: (nat, nat) -> nat)
      ensures Valid() && index.uses == map[] && Exact(index.uses, book.refs)
      ensures fresh(index) && fresh(book) && fresh(index.repr) && fresh(book.repr)
    {
      index := new FlowIndex(now, seed, hash, mix);
      book := new MaskBook();
    }

    /** ovs_flow_tbl_insert.  The flow goes in exactly when an equal mask is there or memory for a
        new one, and for a larger array if that is full; otherwise nothing changes. */
    method Insert(f: Flow, bits: MaskBits, now: int, arrayAlloc: bool, maskAlloc: bool, tableAlloc: bool, seed: nat)
      returns (ok: bool)
      requires Valid() && f !in index.repr && f !in book.repr
      modifies index, index.repr, book, book.repr, f
      ensures Valid() && (old(Exact(index.uses, book.refs)) ==> Exact(index.uses, book.refs))
      ensures ok <==> (exists x :: x in old(book.refs) && MaskEqual(bits, x.bits))
                      || (maskAlloc && (old(book.ma.count) < old(book.ma.masks.Length) || arrayAlloc))
      ensures if ok then f.mask != null && MaskEqual(bits, f.mask.bits) && index.uses == old(index.uses)[f := f.mask]
        else index.uses == old(index.uses) && book.refs == old(book.refs)
    {
      ghost var uses, refs := index.uses, book.refs;
      var m := InsertApart(f, bits, now, arrayAlloc, maskAlloc, tableAlloc, seed);
      ok := m != null;
      if ok { AddCounts(uses, refs, f, m); }
    }

    method InsertApart(f: Flow, bits: MaskBits, now: int, arrayAlloc: bool, maskAlloc: bool, tableAlloc: bool, seed: nat)
      returns (m: FlowMask?)
      requires Apart() && f !in index.repr && f !in book.repr
      modifies index, index.repr, book, book.repr, f
      ensures m != null <==> (exists x :: x in old(book.refs) && MaskEqual(bits, x.bits))
                             || (maskAlloc && (old(book.ma.count) < old(book.ma.masks.Length) || arrayAlloc))
      ensures Apart() && (m == null ==> index.uses == old(index.uses) && book.refs == old(book.refs))
      ensures m == null ==> index.count == old(index.count)
      ensures m != null ==> f.mask == m && MaskEqual(bits, m.bits) && index.count == old(index.count) + 1
      ensures m != null ==> index.uses == old(index.uses)[f := m] && book.refs == OneMore(old(book.refs), m)
    {
      m := book.Insert(bits, arrayAlloc, maskAlloc);
      if m != null {
        index.Adopt(f, m, now, tableAlloc, seed);
      }
    }

    /** ovs_flow_tbl_remove. */
    method Remove(f: Flow, arrayAlloc: bool)
      requires Valid() && f in index.uses
      modifies index, index.repr, book, book.repr
      ensures Valid() && (old(Exact(index.uses, book.refs)) ==> Exact(index.uses, book.refs))
      ensures index.uses == old(index.uses) - {f}
    {
      ghost var uses, refs := index.uses, book.refs;
      DropCounts(uses, refs, f);
      RemoveApart(f, arrayAlloc);
    }

    method RemoveApart(f: Flow, arrayAlloc: bool)
      requires Apart() && f in index.uses && index.count > 0
      requires index.uses[f] in book.refs && book.refs[index.uses[f]] > 0
      modifies index, index.repr, book, book.repr
      ensures Apart() && index.uses == old(index.uses) - {f} && index.count == old(index.count) - 1
      ensures book.refs == OneLess(old(book.refs), old(index.uses)[f])
    {
      var m := f.mask;
      index.Remove(f);
      book.Remove(m, arrayAlloc);
    }

    /** ovs_flow_tbl_flush: all flows go, the masks stay counted. */
    method Flush(now: int, seed: nat)
      requires Valid()
      modifies index
      ensures Valid() && index.uses == map[] && book.refs == old(book.refs)
    {
      NoUsers(index.uses, book.refs);
      index.Flush(now, seed);
    }
  }

  lemma NoUsers(uses: map<Flow, FlowMask>, refs: map<FlowMask, nat>)
    requires Counted(uses, refs)
    ensures Counted(map[], refs)
  {
    var none: map<Flow, FlowMask> := map[];
    assert forall m :: Users(none, m) == {};
  }
}
