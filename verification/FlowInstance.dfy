/** One hash table of flows (table_instance in flow_table.c).  Every flow carries two links, so
    that it can be on a chain of the table being replaced and on one of its successor. */
module FlowInstance {
  import opened FlowKey

  class FlowMask {
    const bits: MaskBits
    var refCount: nat

    constructor (bits: MaskBits)
      ensures this.bits == bits && refCount == 1
    {
      this.bits, refCount := bits, 1;
    }
  }

  class Flow {
    const key: seq<Word>
    var mask: FlowMask?
    var hash: nat
    var node0: Flow?
    var node1: Flow?

    constructor (key: seq<Word>)
      ensures this.key == key
    {
      this.key, mask, hash, node0, node1 := key, null, 0, null, null;
    }
  }

  ghost function NodeAt(ns: seq<Flow>, i: int): Flow? {
    if 0 <= i < |ns| then ns[i] else null
  }

  ghost predicate Chained0(head: Flow?, ns: seq<Flow>)
    reads ns`node0
  {
    head == NodeAt(ns, 0) && forall i {:trigger ns[i].node0} :: 0 <= i < |ns| ==> ns[i].node0 == NodeAt(ns, i + 1)
  }

  ghost predicate Chained1(head: Flow?, ns: seq<Flow>)
    reads ns`node1
  {
    head == NodeAt(ns, 0) && forall i {:trigger ns[i].node1} :: 0 <= i < |ns| ==> ns[i].node1 == NodeAt(ns, i + 1)
  }

  /** The chain that starts at head, following one of the two link sets. */
  ghost predicate Chained(head: Flow?, ns: seq<Flow>, ver: bool)
    reads ns`node0, ns`node1
  {
    if ver then Chained1(head, ns) else Chained0(head, ns)
  }

  function Next(f: Flow, ver: bool): Flow?
    reads f`node0, f`node1
  {
    if ver then f.node1 else f.node0
  }

  lemma ChainNext(head: Flow?, ns: seq<Flow>, ver: bool, i: nat)
    requires Chained(head, ns, ver) && i < |ns|
    ensures Next(ns[i], ver) == NodeAt(ns, i + 1)
  {
  }

  /** No flow is twice on a chain. */
  lemma {:induction false} NoRepeats(head: Flow?, ns: seq<Flow>, ver: bool, i: nat, j: nat)
    requires Chained(head, ns, ver) && i < j < |ns|
    ensures ns[i] != ns[j]
    decreases |ns| - j
  {
    if ns[i] == ns[j] {
      ChainNext(head, ns, ver, i);
      ChainNext(head, ns, ver, j);
      if j + 1 < |ns| { NoRepeats(head, ns, ver, i + 1, j + 1); }
    }
  }

  lemma OnlyAt(head: Flow?, ns: seq<Flow>, ver: bool, k: nat)
    requires Chained(head, ns, ver) && k < |ns|
    ensures forall i :: 0 <= i < |ns| && i != k ==> ns[i] != ns[k]
  {
    forall i | 0 <= i < |ns| && i != k
      ensures ns[i] != ns[k]
    {
      if i < k { NoRepeats(head, ns, ver, i, k); } else { NoRepeats(head, ns, ver, k, i); }
    }
  }

  /** The chain without its flow k, once the link before it has been moved past it. */
  lemma WithoutChained(head: Flow?, ns: seq<Flow>, ver: bool, k: nat)
    requires k < |ns|
    requires head == if k == 0 then NodeAt(ns, 1) else ns[0]
    requires forall i :: 0 <= i < |ns| && i != k - 1 ==> Next(ns[i], ver) == NodeAt(ns, i + 1)
    requires k > 0 ==> Next(ns[k - 1], ver) == NodeAt(ns, k + 1)
    ensures Chained(head, ns[..k] + ns[k + 1..], ver)
  {
    var r := ns[..k] + ns[k + 1..];
    forall i | 0 <= i < |r|
      ensures Next(r[i], ver) == NodeAt(r, i + 1)
    {
      if i >= k {
        assert r[i] == ns[i + 1] && NodeAt(r, i + 1) == NodeAt(ns, i + 2);
      } else if i == k - 1 {
        assert NodeAt(r, k) == NodeAt(ns, k + 1);
      }
    }
    assert head == NodeAt(r, 0);
  }

  /** find_bucket; mix is the hash with the seed of the table. */
  function Home(hash: nat, seed: nat, n: nat, mix: (nat, nat) -> nat): (b: nat)
    requires n > 0
    ensures b < n
  {
    mix(hash, seed) % n
  }

  class TableInstance {
    const buckets: array<Flow?>
    const seed: nat
    const mix: (nat, nat) -> nat
    var nodeVer: bool
    /** The chain of each bucket, and all flows. */
    ghost var chains: seq<seq<Flow>>
    ghost var flows: set<Flow>

    ghost predicate Sized()
      reads `chains
    {
      buckets.Length == |chains| > 0
    }

    /** Bucket b holds a chain of flows that belong there. */
    ghost predicate Bucket(b: nat)
      requires Sized() && b < |chains|
      reads `chains, `nodeVer, `flows, buckets, flows`node0, flows`node1, flows`hash
    {
      && (forall i :: 0 <= i < |chains[b]| ==> chains[b][i] in flows)
      && Chained(buckets[b], chains[b], nodeVer)
      && (forall i :: 0 <= i < |chains[b]| ==> Home(chains[b][i].hash, seed, buckets.Length, mix) == b)
    }

    ghost predicate Valid()
      reads `chains, `nodeVer, `flows, buckets, flows`node0, flows`node1, flows`hash
    {
      && Sized()
      && (forall b: nat :: b < |chains| ==> Bucket(b))
      && (forall f :: f in flows ==> f in chains[Home(f.hash, seed, buckets.Length, mix)])
    }

    constructor (n: nat, seed: nat, mix: (nat, nat) -> nat)
      requires n > 0
      ensures Valid() && flows == {} && !nodeVer && buckets.Length == n && fresh(buckets)
      ensures this.mix == mix && this.seed == seed
    {
      this.seed, this.mix, nodeVer, flows := seed, mix, false, {};
      buckets := new Flow?[n](i => null);
      chains := seq(n, i => []);
    }

    /** table_instance_insert: the flow becomes the head of its bucket's chain. */
    method Insert(f: Flow)
      requires Valid() && f !in flows
      modifies buckets, `chains, `flows
      modifies (if nodeVer then {} else {f})`node0, (if nodeVer then {f} else {})`node1
      ensures Valid() && flows == old(flows) + {f}
      ensures var b := Home(f.hash, seed, buckets.Length, mix);
        chains == old(chains)[b := [f] + old(chains[b])]
    {
      var b := Home(f.hash, seed, buckets.Length, mix);
      assert Bucket(b);
      if nodeVer {
        f.node1 := buckets[b];
      } else {
        f.node0 := buckets[b];
      }
      buckets[b] := f;
      flows := flows + {f};
      chains := chains[b := [f] + chains[b]];
      assert Chained(f, chains[b], nodeVer);
      assert Bucket(b);
      assert forall c: nat :: c < |chains| && c != b ==> Bucket(c) by {
        forall c: nat | c < |chains| && c != b
          ensures Bucket(c)
        {
          assert old(Bucket(c));
        }
      }
    }

    /** The flow before f on its chain. */
    method Predecessor(f: Flow, b: nat) returns (prev: Flow?, ghost k: nat)
      requires Sized() && b < |chains| && Chained(buckets[b], chains[b], nodeVer) && f in chains[b]
      ensures k < |chains[b]| && chains[b][k] == f && prev == NodeAt(chains[b], k - 1)
    {
      ghost var ns := chains[b];
      var cur: Flow?;
      prev, cur, k := null, buckets[b], 0;
      while cur != f
        invariant k < |ns| && cur == ns[k] && prev == NodeAt(ns, k - 1)
        invariant exists j :: k <= j < |ns| && ns[j] == f
        decreases |ns| - k
      {
        ChainNext(buckets[b], ns, nodeVer, k);
        prev, cur := cur, Next(cur, nodeVer);
        k := k + 1;
      }
    }

    /** Take the flow off its chain. */
    method Remove(f: Flow)
      requires Valid() && f in flows
      modifies buckets, `chains, `flows
      modifies (if nodeVer then {} else flows)`node0, (if nodeVer then flows else {})`node1
      ensures Valid() && flows == old(flows) - {f}
    {
      var b := Home(f.hash, seed, buckets.Length, mix);
      assert Bucket(b);
      var prev, k := Predecessor(f, b);
      OnlyAt(buckets[b], chains[b], nodeVer, k);
      Unhook(f, prev, b, k);
      forall c: nat | c < |chains| && c != b
        ensures Bucket(c)
      {
        assert old(Bucket(c));
      }
      Forget(f, b, k);
    }

    /** The flow is off its chain; the ghost state follows. */
    ghost method Forget(f: Flow, b: nat, k: nat)
      requires Sized() && b < |chains| && k < |chains[b]| && chains[b][k] == f
      requires forall c: nat :: c < |chains| && c != b ==> Bucket(c)
      requires Chained(buckets[b], chains[b][..k] + chains[b][k + 1..], nodeVer)
      requires forall i :: 0 <= i < |chains[b]| && i != k ==> chains[b][i] != f
      requires forall i :: 0 <= i < |chains[b]| ==> chains[b][i] in flows
      requires forall i :: 0 <= i < |chains[b]| ==> Home(chains[b][i].hash, seed, buckets.Length, mix) == b
      requires forall x :: x in flows ==> x in chains[Home(x.hash, seed, buckets.Length, mix)]
      modifies `chains, `flows
      ensures Valid() && flows == old(flows) - {f}
    {
      ghost var ns := chains[b];
      flows := flows - {f};
      chains := chains[b := ns[..k] + ns[k + 1..]];
      forall c: nat | c < |chains| && c != b
        ensures Bucket(c)
      {
        assert old(Bucket(c));
        assert f !in chains[c];
      }
      assert forall x :: x in ns && x != f ==> x in chains[b];
    }

    /** hlist_del. */
    method Unhook(f: Flow, prev: Flow?, b: nat, ghost k: nat)
      requires Sized() && b < |chains| && Chained(buckets[b], chains[b], nodeVer)
      requires k < |chains[b]| && f == chains[b][k] && prev == NodeAt(chains[b], k - 1)
      modifies buckets
      modifies (if nodeVer || prev == null then {} else {prev})`node0, (if nodeVer && prev != null then {prev} else {})`node1
      ensures Chained(buckets[b], chains[b][..k] + chains[b][k + 1..], nodeVer)
      ensures forall c :: 0 <= c < buckets.Length && c != b ==> buckets[c] == old(buckets[c])
    {
      ghost var ns := chains[b];
      forall i | 0 <= i < |ns|
        ensures Next(ns[i], nodeVer) == NodeAt(ns, i + 1)
      {
        ChainNext(buckets[b], ns, nodeVer, i);
      }
      if k > 0 { OnlyAt(buckets[b], ns, nodeVer, k - 1); }
      var next := Next(f, nodeVer);
      if prev == null {
        buckets[b] := next;
      } else if nodeVer {
        prev.node1 := next;
      } else {
        prev.node0 := next;
      }
      WithoutChained(buckets[b], ns, nodeVer, k);
    }

    /** The first flow that answers for a key under one mask. */
    ghost function Hit(key: seq<Word>, mask: FlowMask, hash: seq<Word> -> nat): Flow?
      requires Sized()
      reads `chains, Members()`mask, Members()`hash
    {
      var h := MaskedHash(key, mask.bits, hash);
      FirstHit(chains[Home(h, seed, buckets.Length, mix)], key, mask, h)
    }

    /** All flows on the chains. */
    ghost function Members(): set<Flow>
      reads `chains
    {
      set b, i | 0 <= b < |chains| && 0 <= i < |chains[b]| :: chains[b][i]
    }

    /** masked_flow_lookup. */
    method MaskedFlowLookup(key: seq<Word>, mask: FlowMask, hash: seq<Word> -> nat) returns (flow: Flow?)
      requires Valid()
      ensures flow == Hit(key, mask, hash)
    {
      var m := mask.bits;
      var masked := MaskKey(key, m, false);
      var h := FlowHash(masked, m, hash);
      var b := Home(h, seed, buckets.Length, mix);
      assert Bucket(b);
      flow := WalkChain(buckets[b], chains[b], nodeVer, key, masked, mask, h);
    }

    /** Every flow's hash is the one a lookup would compute. */
    ghost predicate Hashed(hash: seq<Word> -> nat)
      reads `flows, flows`mask, flows`hash
    {
      forall f :: f in flows && f.mask != null ==> f.hash == FlowHash(f.key, f.mask.bits, hash)
    }

    /** Searching one bucket finds a flow exactly when some flow of the whole table answers. */
    lemma HitIff(key: seq<Word>, mask: FlowMask, hash: seq<Word> -> nat)
      requires Valid() && Hashed(hash)
      ensures var r := Hit(key, mask, hash);
        if r == null then forall f :: f in flows ==> !Fits(f, key, mask)
        else r in flows && Fits(r, key, mask)
    {
      var m := mask.bits;
      var h := MaskedHash(key, m, hash);
      var b := Home(h, seed, buckets.Length, mix);
      assert Bucket(b);
      forall f | f in flows && f.mask == mask && Matches(f.key, key, m)
        ensures f in chains[b] && f.hash == h
      {
        MatchesWords(f.key, key, m);
      }
    }
  }

  function MaskedHash(key: seq<Word>, m: MaskBits, hash: seq<Word> -> nat): nat {
    hash(MaskedWords(key, m, m.start))
  }

  ghost predicate Answers(f: Flow, key: seq<Word>, mask: FlowMask, h: nat)
    reads f`mask, f`hash
  {
    f.mask == mask && f.hash == h && Matches(f.key, key, mask.bits)
  }

  /** The test of masked_flow_lookup. */
  method TestFlow(flow: Flow, ghost key: seq<Word>, masked: seq<Word>, mask: FlowMask, h: nat) returns (found: bool)
    requires Words(masked, mask.bits.start, mask.bits.end) == MaskedWords(key, mask.bits, mask.bits.start)
    ensures found <==> Answers(flow, key, mask, h)
  {
    MatchesWords(flow.key, key, mask.bits);
    if flow.mask == mask && flow.hash == h {
      found := CmpKey(flow.key, masked, mask.bits.start, mask.bits.end);
    } else {
      found := false;
    }
  }

  ghost function FirstHit(ns: seq<Flow>, key: seq<Word>, mask: FlowMask, h: nat): (r: Flow?)
    reads ns`mask, ns`hash
    ensures r != null ==> r in ns && r.mask == mask && Matches(r.key, key, mask.bits)
    ensures r == null ==> forall f :: f in ns && f.mask == mask && f.hash == h ==> !Matches(f.key, key, mask.bits)
  {
    if ns == [] then null
    else if Answers(ns[0], key, mask, h) then ns[0]
    else FirstHit(ns[1..], key, mask, h)
  }

  /** The first flow that answers is what the search ends at. */
  lemma {:induction false} FirstHitAt(ns: seq<Flow>, key: seq<Word>, mask: FlowMask, h: nat, k: nat)
    requires k <= |ns| && forall j :: 0 <= j < k ==> !Answers(ns[j], key, mask, h)
    requires k < |ns| ==> Answers(ns[k], key, mask, h)
    ensures FirstHit(ns, key, mask, h) == NodeAt(ns, k)
  {
    if k > 0 { FirstHitAt(ns[1..], key, mask, h, k - 1); }
  }

  /** The search along one chain, for a key to which the mask has been applied. */
  method WalkChain(head: Flow?, ghost ns: seq<Flow>, ver: bool, ghost key: seq<Word>, masked: seq<Word>,
                   mask: FlowMask, h: nat)
    returns (flow: Flow?)
    requires Chained(head, ns, ver)
    requires Words(masked, mask.bits.start, mask.bits.end) == MaskedWords(key, mask.bits, mask.bits.start)
    ensures flow == FirstHit(ns, key, mask, h)
  {
    ghost var k := 0;
    flow := head;
    while flow != null
      invariant k <= |ns| && flow == NodeAt(ns, k)
      invariant forall j :: 0 <= j < k ==> !Answers(ns[j], key, mask, h)
      decreases |ns| - k
    {
      var found := TestFlow(flow, key, masked, mask, h);
      if found {
        break;
      }
      ChainNext(head, ns, ver, k);
      flow := Next(flow, ver);
      k := k + 1;
    }
    FirstHitAt(ns, key, mask, h, k);
  }

  // ---------------------------------------------------------------------------- rehash

  /** Two instances that can share flows because they follow different links. */
  ghost predicate Apart(a: TableInstance, b: TableInstance)
    reads a`nodeVer, b`nodeVer
  {
    a != b && a.buckets != b.buckets && a.nodeVer != b.nodeVer
  }

  /** Putting a flow of the old instance into the new one leaves the old chains alone. */
  method InsertCopy(old_: TableInstance, new_: TableInstance, f: Flow)
    requires old_.Valid() && new_.Valid() && Apart(old_, new_) && f in old_.flows && f !in new_.flows
    modifies new_.buckets, new_`chains, new_`flows
    modifies (if new_.nodeVer then {} else {f})`node0, (if new_.nodeVer then {f} else {})`node1
    ensures old_.Valid() && new_.Valid() && new_.flows == old(new_.flows) + {f}
  {
    new_.Insert(f);
    forall b: nat | b < |old_.chains|
      ensures old_.Bucket(b)
    {
      assert old(old_.Bucket(b));
      assert old(Chained(old_.buckets[b], old_.chains[b], old_.nodeVer));
    }
  }

  /** The flows of the first i buckets. */
  ghost function FlowsBelow(t: TableInstance, i: nat): set<Flow>
    requires t.Sized()
    reads t`chains, t`flows, t.flows`hash
  {
    set f | f in t.flows && Home(f.hash, t.seed, t.buckets.Length, t.mix) < i
  }

  method CopyBucket(old_: TableInstance, new_: TableInstance, i: nat)
    requires old_.Valid() && new_.Valid() && Apart(old_, new_) && i < |old_.chains|
    requires new_.flows == FlowsBelow(old_, i)
    modifies new_.buckets, new_`chains, new_`flows
    modifies (if new_.nodeVer then {} else old_.flows)`node0, (if new_.nodeVer then old_.flows else {})`node1
    ensures old_.Valid() && new_.Valid() && new_.flows == FlowsBelow(old_, i + 1)
  {
    assert old_.Bucket(i);
    ghost var ns, below, k := old_.chains[i], FlowsBelow(old_, i), 0;
    var f := old_.buckets[i];
    while f != null
      invariant old_.Valid() && new_.Valid() && Apart(old_, new_)
      invariant k <= |ns| && f == NodeAt(ns, k)
      invariant forall x :: x in new_.flows <==> x in below || x in ns[..k]
      decreases |ns| - k
    {
      assert old_.Bucket(i);
      forall j | 0 <= j < k
        ensures ns[j] != ns[k]
      {
        NoRepeats(old_.buckets[i], ns, old_.nodeVer, j, k);
      }
      InsertCopy(old_, new_, f);
      assert old_.Bucket(i);
      ChainNext(old_.buckets[i], ns, old_.nodeVer, k);
      f := Next(f, old_.nodeVer);
      k := k + 1;
    }
    assert ns[..k] == ns;
  }

  /** flow_table_copy_flows: the new instance gets exactly the flows of the old one, each in its
      bucket, and every chain of the old instance stays as it is, so both can be searched. */
  method CopyFlows(old_: TableInstance, new_: TableInstance)
    requires old_.Valid() && new_.Valid() && new_.flows == {} && old_ != new_ && old_.buckets != new_.buckets
    modifies new_`nodeVer, new_.buckets, new_`chains, new_`flows
    modifies (if old_.nodeVer then old_.flows else {})`node0, (if old_.nodeVer then {} else old_.flows)`node1
    ensures old_.Valid() && new_.Valid() && Apart(old_, new_)
    ensures new_.flows == old_.flows
  {
    new_.nodeVer := !old_.nodeVer;
    forall b: nat | b < |new_.chains|
      ensures new_.Bucket(b)
    {
      assert old(new_.Bucket(b));
      assert new_.chains[b] == [];
    }
    var i := 0;
    while i < old_.buckets.Length
      invariant 0 <= i <= old_.buckets.Length
      invariant old_.Valid() && new_.Valid() && Apart(old_, new_) && new_.nodeVer == !old_.nodeVer
      invariant new_.flows == FlowsBelow(old_, i)
    {
      CopyBucket(old_, new_, i);
      i := i + 1;
    }
  }

  ghost predicate Fits(f: Flow, key: seq<Word>, mask: FlowMask)
    reads f`mask
  {
    f.mask == mask && Matches(f.key, key, mask.bits)
  }

  /** At most one of the flows answers for the key. */
  ghost predicate OneFits(flows: set<Flow>, key: seq<Word>, mask: FlowMask)
    reads flows`mask
  {
    forall f, g :: f in flows && g in flows && Fits(f, key, mask) && Fits(g, key, mask) ==> f == g
  }

  /** After a rehash a key finds a flow in one instance exactly when it does in the other, and the
      same one if only one answers. */
  lemma LookupsAgree(a: TableInstance, b: TableInstance, key: seq<Word>, mask: FlowMask, hash: seq<Word> -> nat)
    requires a.Valid() && b.Valid() && a.flows == b.flows && a.Hashed(hash)
    ensures a.Hit(key, mask, hash) == null <==> b.Hit(key, mask, hash) == null
    ensures OneFits(a.flows, key, mask) ==> a.Hit(key, mask, hash) == b.Hit(key, mask, hash)
  {
    a.HitIff(key, mask, hash);
    b.HitIff(key, mask, hash);
    var f, g := a.Hit(key, mask, hash), b.Hit(key, mask, hash);
    assert f != null ==> Fits(f, key, mask);
    assert g != null ==> Fits(g, key, mask);
  }
}
