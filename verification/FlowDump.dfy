/** Listing the flows of a table piece by piece (ovs_flow_tbl_dump_next of flow_table.c and the
    loop of ovs_flow_cmd_dump in datapath.c).  The cursor is a bucket number and the number of
    flows of that bucket already returned. */
module FlowDump {
  import opened FlowKey
  import opened FlowInstance

  /** What a dump at the cursor still has to return. */
  ghost function Rest(chains: seq<seq<Flow>>, bucket: nat, last: nat): seq<Flow>
    decreases |chains| - bucket
  {
    if bucket >= |chains| then []
    else (if last <= |chains[bucket]| then chains[bucket][last..] else []) + Rest(chains, bucket + 1, 0)
  }

  lemma RestStep(chains: seq<seq<Flow>>, bucket: nat, last: nat)
    requires bucket < |chains|
    ensures last < |chains[bucket]| ==>
      Rest(chains, bucket, last) == [chains[bucket][last]] + Rest(chains, bucket, last + 1)
    ensures last >= |chains[bucket]| ==> Rest(chains, bucket, last) == Rest(chains, bucket + 1, 0)
  {
  }

  /** The flow at position last of a chain. */
  method Nth(head: Flow?, ghost ns: seq<Flow>, ver: bool, last: nat) returns (flow: Flow?)
    requires Chained(head, ns, ver)
    ensures flow == NodeAt(ns, last)
  {
    flow := head;
    var i := 0;
    while flow != null && i < last
      invariant 0 <= i <= last && flow == NodeAt(ns, i)
    {
      ChainNext(head, ns, ver, i);
      flow := Next(flow, ver);
      i := i + 1;
    }
  }

  /** ovs_flow_tbl_dump_next. */
  method DumpNext(ti: TableInstance, bucket: nat, last: nat) returns (flow: Flow?, b: nat, l: nat)
    requires ti.Valid()
    ensures var rest := Rest(ti.chains, bucket, last);
      if rest == [] then flow == null && Rest(ti.chains, b, l) == []
      else flow == rest[0] && Rest(ti.chains, b, l) == rest[1..]
  {
    b, l := bucket, last;
    while b < ti.buckets.Length
      invariant Rest(ti.chains, b, l) == Rest(ti.chains, bucket, last)
    {
      assert ti.Bucket(b);
      RestStep(ti.chains, b, l);
      flow := Nth(ti.buckets[b], ti.chains[b], ti.nodeVer, l);
      if flow != null {
        l := l + 1;
        return;
      }
      b, l := b + 1, 0;
    }
    flow := null;
  }

  function Min(a: nat, b: nat): nat {
    if a < b then a else b
  }

  lemma ShiftOne(out: seq<Flow>, rest: seq<Flow>)
    requires rest != []
    ensures out + rest == (out + [rest[0]]) + rest[1..]
  {
  }

  lemma Together(a: seq<Flow>, b: seq<Flow>, c: seq<Flow>)
    ensures a + (b + c) == (a + b) + c
  {
  }

  /** One reply of ovs_flow_cmd_dump: flows are copied until one does not fit any more; the
      cursor is saved only behind flows that fitted. */
  method Dump(ti: TableInstance, bucket: nat, last: nat, room: nat) returns (out: seq<Flow>, b: nat, l: nat)
    requires ti.Valid()
    ensures out + Rest(ti.chains, b, l) == Rest(ti.chains, bucket, last)
    ensures |out| == Min(room, |Rest(ti.chains, bucket, last)|)
  {
    out, b, l := [], bucket, last;
    while true
      invariant out + Rest(ti.chains, b, l) == Rest(ti.chains, bucket, last) && |out| <= room
      decreases room - |out|
    {
      var flow, nextB, nextL := DumpNext(ti, b, l);
      if flow == null || |out| == room {
        break;
      }
      ShiftOne(out, Rest(ti.chains, b, l));
      out, b, l := out + [flow], nextB, nextL;
    }
  }

  function Sum(rooms: seq<nat>): nat {
    if rooms == [] then 0 else Sum(rooms[..|rooms| - 1]) + rooms[|rooms| - 1]
  }

  lemma SumStep(rooms: seq<nat>, i: nat)
    requires i < |rooms|
    ensures Sum(rooms[..i + 1]) == Sum(rooms[..i]) + rooms[i]
  {
    assert rooms[..i + 1][..i] == rooms[..i];
  }

  /** A dump of an unchanged table that is interrupted after each reply and resumed with the last
      saved cursor: the replies together are a prefix of the listing, and all of it once there
      was room enough; after that nothing more is returned. */
  method Replies(ti: TableInstance, rooms: seq<nat>) returns (out: seq<Flow>)
    requires ti.Valid()
    ensures out <= Rest(ti.chains, 0, 0)
    ensures |out| == Min(Sum(rooms), |Rest(ti.chains, 0, 0)|)
  {
    out := [];
    var b: nat, l: nat, i := 0, 0, 0;
    ghost var all := Rest(ti.chains, 0, 0);
    while i < |rooms|
      invariant 0 <= i <= |rooms| && out + Rest(ti.chains, b, l) == all
      invariant |out| == Min(Sum(rooms[..i]), |all|)
    {
      var part;
      part, b, l := Dump(ti, b, l, rooms[i]);
      Together(out, part, Rest(ti.chains, b, l));
      SumStep(rooms, i);
      out := out + part;
      i := i + 1;
    }
    assert rooms[..i] == rooms;
  }

  ghost predicate NoneTwice(s: seq<Flow>) {
    forall i, j :: 0 <= i < j < |s| ==> s[i] != s[j]
  }

  /** The listing from a bucket on has every flow that belongs there, once. */
  lemma {:induction false} ListingFrom(ti: TableInstance, b: nat)
    requires ti.Valid() && b <= |ti.chains|
    ensures NoneTwice(Rest(ti.chains, b, 0))
    ensures forall f :: f in Rest(ti.chains, b, 0) <==>
      f in ti.flows && Home(f.hash, ti.seed, ti.buckets.Length, ti.mix) >= b
    decreases |ti.chains| - b
  {
    if b < |ti.chains| {
      ListingFrom(ti, b + 1);
      assert ti.Bucket(b);
      var ns, rest := ti.chains[b], Rest(ti.chains, b + 1, 0);
      forall i, j | 0 <= i < j < |ns|
        ensures ns[i] != ns[j]
      {
        NoRepeats(ti.buckets[b], ns, ti.nodeVer, i, j);
      }
      JoinOnce(ns, rest);
      assert Rest(ti.chains, b, 0) == ns + rest;
    }
  }

  lemma JoinOnce(ns: seq<Flow>, rest: seq<Flow>)
    requires NoneTwice(ns) && NoneTwice(rest) && forall f :: f in ns ==> f !in rest
    ensures NoneTwice(ns + rest)
  {
    var r := ns + rest;
    forall i, j | 0 <= i < j < |r|
      ensures r[i] != r[j]
    {
      if i < |ns| <= j { assert r[i] in ns && r[j] in rest; }
    }
  }

  /** So a dump with room enough returns every flow of the table exactly once. */
  lemma ListingComplete(ti: TableInstance)
    requires ti.Valid()
    ensures NoneTwice(Rest(ti.chains, 0, 0))
    ensures forall f :: f in Rest(ti.chains, 0, 0) <==> f in ti.flows
  {
    ListingFrom(ti, 0);
  }
}
