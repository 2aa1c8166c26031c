/** The array of masks in use (struct mask_array of flow_table.h, tbl_mask_array_realloc,
    flow_mask_find, flow_mask_insert and flow_mask_remove in flow_table.c): slots are reused, the
    array grows by a step when full and is halved when two thirds of it are unused. */
module MaskArrays {
  import opened FlowKey
  import opened FlowInstance

  const MASK_ARRAY_SIZE_MIN := 16

  /** The masks in slot order, gaps left out. */
  ghost function Live(ms: seq<FlowMask?>): (r: seq<FlowMask>)
    ensures |r| <= |ms|
  {
    if ms == [] then []
    else
      var last := ms[|ms| - 1];
      if last == null then Live(ms[..|ms| - 1]) else Live(ms[..|ms| - 1]) + [last]
  }

  lemma {:induction false} LiveHas(ms: seq<FlowMask?>)
    ensures forall m: FlowMask :: m in Live(ms) <==> m in ms
  {
    if ms != [] {
      LiveHas(ms[..|ms| - 1]);
      assert ms == ms[..|ms| - 1] + [ms[|ms| - 1]];
    }
  }

  ghost function MaskSet(ms: seq<FlowMask?>): set<FlowMask> {
    set m: FlowMask | m in Live(ms)
  }

  lemma LiveAppend(ms: seq<FlowMask?>, x: FlowMask?)
    ensures Live(ms + [x]) == if x == null then Live(ms) else Live(ms) + [x]
  {
    assert (ms + [x])[..|ms|] == ms;
  }

  lemma {:induction false} LiveConcat(a: seq<FlowMask?>, b: seq<FlowMask?>)
    ensures Live(a + b) == Live(a) + Live(b)
  {
    if b == [] {
      assert a + b == a;
    } else {
      var rest, x := b[..|b| - 1], b[|b| - 1];
      assert a + b == (a + rest) + [x] && b == rest + [x];
      LiveConcat(a, rest);
      LiveAppend(a + rest, x);
      LiveAppend(rest, x);
    }
  }

  lemma {:induction false} AllNull(ms: seq<FlowMask?>)
    requires forall i :: 0 <= i < |ms| ==> ms[i] == null
    ensures Live(ms) == []
  {
    if ms != [] { AllNull(ms[..|ms| - 1]); }
  }

  lemma {:induction false} NoneNull(ms: seq<FlowMask?>)
    requires forall i :: 0 <= i < |ms| ==> ms[i] != null
    ensures |Live(ms)| == |ms|
  {
    if ms != [] { NoneNull(ms[..|ms| - 1]); }
  }

  /** No two slots hold equal masks. */
  ghost predicate NoEqual(ms: seq<FlowMask?>) {
    ListNoEqual(Live(ms))
  }

  ghost predicate ListNoEqual(ms: seq<FlowMask>) {
    forall i, j :: 0 <= i < j < |ms| ==> !MaskEqual(ms[i].bits, ms[j].bits)
  }

  lemma LiveAround(ms: seq<FlowMask?>, i: nat, x: FlowMask?)
    requires i < |ms|
    ensures Live(ms[i := x]) == Live(ms[..i]) + (if x == null then [] else [x]) + Live(ms[i + 1..])
  {
    var a, b := ms[..i], ms[i + 1..];
    assert ms[i := x] == (a + [x]) + b;
    LiveConcat(a + [x], b);
    LiveAppend(a, x);
  }

  lemma ListPut(a: seq<FlowMask>, x: FlowMask, b: seq<FlowMask>)
    requires ListNoEqual(a + b) && forall m :: m in a + b ==> !MaskEqual(m.bits, x.bits)
    ensures ListNoEqual(a + [x] + b)
  {
    var r, s := a + [x] + b, a + b;
    forall k, l | 0 <= k < l < |r|
      ensures !MaskEqual(r[k].bits, r[l].bits)
    {
      assert k != |a| ==> r[k] == s[if k < |a| then k else k - 1];
      assert l != |a| ==> r[l] == s[if l < |a| then l else l - 1];
    }
  }

  lemma ListDrop(a: seq<FlowMask>, x: FlowMask, b: seq<FlowMask>)
    requires ListNoEqual(a + [x] + b)
    ensures ListNoEqual(a + b) && x !in a + b
  {
    var r, s := a + [x] + b, a + b;
    forall k | 0 <= k < |s|
      ensures s[k] == r[if k < |a| then k else k + 1] && s[k] != x
    {
      assert r[|a|] == x;
    }
  }

  /** Filling a gap with a mask unlike all others. */
  lemma LivePut(ms: seq<FlowMask?>, i: nat, x: FlowMask)
    requires i < |ms| && ms[i] == null && NoEqual(ms)
    requires forall m :: m in MaskSet(ms) ==> !MaskEqual(m.bits, x.bits)
    ensures NoEqual(ms[i := x]) && |Live(ms[i := x])| == |Live(ms)| + 1
    ensures MaskSet(ms[i := x]) == MaskSet(ms) + {x}
  {
    LiveAround(ms, i, x);
    LiveAround(ms, i, null);
    assert ms[i := null] == ms;
    var a, b := Live(ms[..i]), Live(ms[i + 1..]);
    assert a + [] + b == a + b;
    ListPut(a, x, b);
  }

  /** Clearing a slot. */
  lemma LiveClear(ms: seq<FlowMask?>, i: nat)
    requires i < |ms| && ms[i] != null && NoEqual(ms)
    ensures NoEqual(ms[i := null]) && |Live(ms[i := null])| == |Live(ms)| - 1
    ensures MaskSet(ms[i := null]) == MaskSet(ms) - {ms[i]}
  {
    LiveAround(ms, i, ms[i]);
    LiveAround(ms, i, null);
    assert ms[i := ms[i]] == ms;
    var a, b := Live(ms[..i]), Live(ms[i + 1..]);
    assert a + [] + b == a + b;
    ListDrop(a, ms[i], b);
  }

  class MaskArray {
    const masks: array<FlowMask?>
    var count: nat
    /** The masks in the array. */
    ghost var live: set<FlowMask>

    ghost predicate Valid()
      reads this, masks
    {
      && count == |Live(masks[..])| <= masks.Length
      && masks.Length >= MASK_ARRAY_SIZE_MIN
      && NoEqual(masks[..])
      && live == MaskSet(masks[..])
    }

    /** tbl_mask_array_alloc. */
    constructor (size: nat)
      ensures Valid() && live == {} && fresh(masks)
      ensures masks.Length == if size < MASK_ARRAY_SIZE_MIN then MASK_ARRAY_SIZE_MIN else size
      ensures forall i :: 0 <= i < masks.Length ==> masks[i] == null
    {
      var n := if size < MASK_ARRAY_SIZE_MIN then MASK_ARRAY_SIZE_MIN else size;
      masks := new FlowMask?[n](i => null);
      count, live := 0, {};
      new;
      AllNull(masks[..]);
    }
  }

  /** tbl_mask_array_realloc: the masks move to the front of an array of another size; none is
      lost and their order is kept. */
  method Realloc(ma: MaskArray, size: nat) returns (r: MaskArray)
    requires ma.Valid() && (ma.count <= size || ma.count <= MASK_ARRAY_SIZE_MIN)
    ensures fresh(r) && fresh(r.masks) && r.Valid()
    ensures r.masks.Length == if size < MASK_ARRAY_SIZE_MIN then MASK_ARRAY_SIZE_MIN else size
    ensures Live(r.masks[..]) == Live(ma.masks[..]) && r.live == ma.live
  {
    r := new MaskArray(size);
    var i, n := 0, 0;
    ghost var old_, done := ma.masks[..], Live(ma.masks[..][..0]);
    while i < ma.masks.Length
      invariant 0 <= i <= ma.masks.Length && n == |done| <= r.masks.Length
      invariant ma.masks[..] == old_ && |old_| == ma.masks.Length
      invariant done == Live(old_[..i]) && r.masks[..n] == done
      invariant forall k :: n <= k < r.masks.Length ==> r.masks[k] == null
    {
      CompactStep(old_, i);
      done := Live(old_[..i + 1]);
      if ma.masks[i] != null {
        r.masks[n] := ma.masks[i];
        n := n + 1;
      }
      i := i + 1;
    }
    assert old_[..i] == old_;
    r.count, r.live := n, ma.live;
    Compacted(r.masks[..], Live(old_));
  }

  lemma CompactStep(ms: seq<FlowMask?>, i: nat)
    requires i < |ms|
    ensures Live(ms[..i + 1]) == if ms[i] == null then Live(ms[..i]) else Live(ms[..i]) + [ms[i]]
    ensures |Live(ms[..i + 1])| <= |Live(ms)|
  {
    assert ms[..i + 1] == ms[..i] + [ms[i]];
    LiveAppend(ms[..i], ms[i]);
    LiveConcat(ms[..i + 1], ms[i + 1..]);
    assert ms == ms[..i + 1] + ms[i + 1..];
  }

  lemma {:induction false} LiveOfLive(ms: seq<FlowMask>)
    ensures Live(ms) == ms
  {
    if ms != [] { LiveOfLive(ms[..|ms| - 1]); }
  }

  lemma Compacted(ms: seq<FlowMask?>, live: seq<FlowMask>)
    requires |live| <= |ms| && ms[..|live|] == live
    requires forall k :: |live| <= k < |ms| ==> ms[k] == null
    ensures Live(ms) == live
  {
    assert ms == ms[..|live|] + ms[|live|..];
    LiveConcat(ms[..|live|], ms[|live|..]);
    AllNull(ms[|live|..]);
    LiveOfLive(live);
  }

  // ------------------------------------------------------------------ insert and remove

  /** flow_mask_find. */
  method FlowMaskFind(ma: MaskArray, bits: MaskBits) returns (m: FlowMask?)
    requires ma.Valid()
    ensures if m != null then m in ma.live && MaskEqual(bits, m.bits)
      else forall x :: x in ma.live ==> !MaskEqual(bits, x.bits)
  {
    LiveHas(ma.masks[..]);
    var i := 0;
    while i < ma.masks.Length
      invariant 0 <= i <= ma.masks.Length
      invariant forall k :: 0 <= k < i && ma.masks[k] != null ==> !MaskEqual(bits, ma.masks[k].bits)
    {
      m := ma.masks[i];
      if m != null && MaskEqual(bits, m.bits) {
        return;
      }
      i := i + 1;
    }
    m := null;
  }

  lemma HasGap(ma: MaskArray)
    requires ma.Valid() && ma.count < ma.masks.Length
    ensures exists i :: 0 <= i < ma.masks.Length && ma.masks[i] == null
  {
    if forall i :: 0 <= i < ma.masks.Length ==> ma.masks[i] != null {
      NoneNull(ma.masks[..]);
      assert false;
    }
  }

  /** Put a mask into the first gap. */
  method FillGap(ma: MaskArray, mask: FlowMask)
    requires ma.Valid() && ma.count < ma.masks.Length
    requires forall x :: x in ma.live ==> !MaskEqual(x.bits, mask.bits)
    modifies ma`count, ma`live, ma.masks
    ensures ma.Valid() && ma.live == old(ma.live) + {mask}
  {
    HasGap(ma);
    var i: nat := 0;
    while ma.masks[i] != null
      invariant i < ma.masks.Length
      invariant exists k :: i <= k < ma.masks.Length && ma.masks[k] == null
      decreases ma.masks.Length - i
    {
      i := i + 1;
    }
    LivePut(ma.masks[..], i, mask);
    ghost var before := ma.masks[..];
    ma.masks[i] := mask;
    assert ma.masks[..] == before[i := mask];
    ma.count, ma.live := ma.count + 1, ma.live + {mask};
    assert ma.live == MaskSet(ma.masks[..]);
  }

  /** flow_mask_insert: share an equal mask or add a new one.  arrayAlloc and maskAlloc say
      whether the allocations succeed.  It fails exactly when there is no equal mask and memory is
      lacking for the mask, or for the larger array of a full one; then nothing changes. */
  method FlowMaskInsert(ma: MaskArray, bits: MaskBits, arrayAlloc: bool, maskAlloc: bool) returns (r: MaskArray, m: FlowMask?)
    requires ma.Valid()
    modifies ma`count, ma`live, ma.masks, ma.live`refCount
    ensures r.Valid() && (r == ma || (fresh(r) && fresh(r.masks)))
    ensures m != null <==> (exists x :: x in old(ma.live) && MaskEqual(bits, x.bits))
                           || (maskAlloc && (old(ma.count) < ma.masks.Length || arrayAlloc))
    ensures m == null ==> r == ma && r.live == old(ma.live)
    ensures m != null ==> MaskEqual(bits, m.bits) && r.live == old(ma.live) + {m}
    ensures forall x :: x in old(ma.live) && x != m ==> x.refCount == old(x.refCount)
    ensures m != null ==>
      if m in old(ma.live) then r == ma && m.refCount == old(m.refCount) + 1
      else
        && fresh(m) && m.refCount == 1 && (r == ma <==> old(ma.count) < ma.masks.Length)
        && r.masks.Length == ma.masks.Length + (if r == ma then 0 else MASK_ARRAY_SIZE_MIN)
  {
    r := ma;
    m := FlowMaskFind(ma, bits);
    if m != null {
      m.refCount := m.refCount + 1;
      return;
    }
    if !maskAlloc {
      return;
    }
    var fresh_ := new FlowMask(bits);
    if ma.count >= ma.masks.Length {
      if !arrayAlloc {
        return;
      }
      r := Realloc(ma, ma.masks.Length + MASK_ARRAY_SIZE_MIN);
    }
    FillGap(r, fresh_);
    m := fresh_;
  }

  /** tbl_mask_array_delete_mask. */
  method DeleteMask(ma: MaskArray, mask: FlowMask)
    requires ma.Valid() && mask in ma.live
    modifies ma`count, ma`live, ma.masks
    ensures ma.Valid() && ma.live == old(ma.live) - {mask}
  {
    LiveHas(ma.masks[..]);
    var i: nat := 0;
    assert exists k :: 0 <= k < ma.masks.Length && ma.masks[k] == mask;
    while ma.masks[i] != mask
      invariant i < ma.masks.Length
      invariant exists k :: i <= k < ma.masks.Length && ma.masks[k] == mask
      decreases ma.masks.Length - i
    {
      i := i + 1;
    }
    LiveClear(ma.masks[..], i);
    ghost var before := ma.masks[..];
    ma.masks[i] := null;
    assert ma.masks[..] == before[i := null];
    ma.count, ma.live := ma.count - 1, ma.live - {mask};
    assert ma.live == MaskSet(ma.masks[..]);
  }

  /** flow_mask_remove: drop one use; the last one takes the mask out, and the array is halved when
      two thirds of it are empty and memory allows. */
  method FlowMaskRemove(ma: MaskArray, mask: FlowMask, arrayAlloc: bool) returns (r: MaskArray)
    requires ma.Valid() && mask in ma.live && mask.refCount > 0
    modifies ma`count, ma`live, ma.masks, mask`refCount
    ensures r.Valid() && (r == ma || (fresh(r) && fresh(r.masks)))
    ensures mask.refCount == old(mask.refCount) - 1
    ensures r.live == if mask.refCount == 0 then old(ma.live) - {mask} else old(ma.live)
    ensures r != ma <==>
      mask.refCount == 0 && ma.masks.Length >= 2 * MASK_ARRAY_SIZE_MIN && ma.count <= ma.masks.Length / 3 && arrayAlloc
    ensures r != ma ==> r.masks.Length == ma.masks.Length / 2
  {
    r := ma;
    mask.refCount := mask.refCount - 1;
    if mask.refCount == 0 {
      DeleteMask(ma, mask);
      if ma.masks.Length >= MASK_ARRAY_SIZE_MIN * 2 && ma.count <= ma.masks.Length / 3 && arrayAlloc {
        r := Realloc(ma, ma.masks.Length / 2);
      }
    }
  }
}
