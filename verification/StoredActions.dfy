/** What the executor reads in the stored form of an action list, and the proof that it is the
    list that was sent: every set overwrites its key, every sample has its probability and
    actions, and a sample is marked to run in place only where the flow key stays right. */
module StoredActions {
  import opened Wrappers
  import opened Netlink
  import opened ActionCodec
  import opened ActionTrace

  const OVS_ACTION_ATTR_HASH := 8

  /** Stored actions as the executor takes them apart. */
  datatype Op =
    | Copy(typ: nat, data: Bytes)
    | SetMasked(key: Attr, mask: Bytes)
    | Nest(exec: bool, probability: Bytes, ops: seq<Op>)

  /** The walk of do_execute_actions over stored bytes, going into samples. */
  function Ops(s: Bytes): (r: seq<Op>)
    decreases |s|, 1
  {
    if !Ok(s) then [] else [OpOf(First(s))] + Ops(Rest(s))
  }

  function OpOf(a: Attr): Op
    decreases NLA_HDRLEN + |a.data|, 0
  {
    var t := Strip(a.typ);
    if t == OVS_ACTION_ATTR_SET_TO_MASKED && Ok(a.data) then
      var key := First(a.data);
      SetMasked(Attr(Strip(key.typ), key.data[..|key.data| / 2]), key.data[|key.data| / 2..])
    else if t == OVS_ACTION_ATTR_SAMPLE && IsStoredSample(a.data) then
      NestOf(a.data)
    else Copy(t, a.data)
  }

  /** The op in the payload of a stored sample. */
  function NestOf(d: Bytes): Op
    requires IsStoredSample(d)
    decreases |d|, 2
  {
    var arg := First(d).data;
    Nest(arg[0] != 0, arg[4..], Ops(Rest(d)))
  }

  // ---------------------------------------------------------------- what is meant

  /** Actions after which the flow key is certainly still right. */
  predicate Harmless(n: Node) {
    n.Plain? && (n.typ == OVS_ACTION_ATTR_OUTPUT || n.typ == OVS_ACTION_ATTR_RECIRC
                 || n.typ == OVS_ACTION_ATTR_TRUNC || n.typ == OVS_ACTION_ATTR_USERSPACE)
  }

  predicate AllHarmless(ns: seq<Node>) {
    forall i :: 0 <= i < |ns| ==> Harmless(ns[i])
  }

  /** What the executor ought to find for a list. */
  function Meant(ns: seq<Node>): seq<Op>
    decreases ns
  {
    if ns == [] then [] else [MeantOne(ns[0], |ns| == 1)] + Meant(ns[1..])
  }

  function MeantOne(n: Node, last: bool): Op
    decreases n
  {
    match n
    case Plain(typ, data) => Copy(typ, data)
    case Set(key) => SetMasked(key, SetMask(key))
    case Sample(probability, actions) => Nest(last || AllHarmless(actions), probability, Meant(actions))
  }

  lemma HarmlessType(b: Bytes)
    requires Ok(b) && TreeOne(b).Some?
    ensures var t := Strip(First(b).typ);
      Harmless(TreeOne(b).value) <==> t == OVS_ACTION_ATTR_OUTPUT || t == OVS_ACTION_ATTR_RECIRC
                                      || t == OVS_ACTION_ATTR_TRUNC || t == OVS_ACTION_ATTR_USERSPACE
  {
  }

  lemma HarmlessFirst(n: Node, ns: seq<Node>)
    ensures AllHarmless([n] + ns) <==> Harmless(n) && AllHarmless(ns)
  {
    var all := [n] + ns;
    assert all[0] == n;
    assert forall i :: 0 <= i < |ns| ==> ns[i] == all[i + 1];
  }

  /** The scan of the bytes for actions that may change the flow key is right about the list. */
  lemma {:induction false} ScanIsRight(b: Bytes)
    requires Tree(b).Some?
    ensures MayChangeFlow(b) <==> !AllHarmless(Tree(b).value)
    decreases |b|
  {
    if b != [] {
      ScanIsRight(Rest(b));
      HarmlessType(b);
      HarmlessFirst(TreeOne(b).value, Tree(Rest(b)).value);
    }
  }

  lemma {:induction false} FieldsWhole(d: Bytes, so: SampleFields)
    requires Fields(d, so).Some?
    ensures |d| % 4 == 0
    decreases |d|
  {
    if d != [] {
      var a := First(d);
      FieldsWhole(Rest(d), if Strip(a.typ) == OVS_SAMPLE_ATTR_PROBABILITY then so.(probability := Some(a.data))
                           else so.(actions := Some(a.data)));
      WholeWords(Align(Get16(d, 0)), |Rest(d)|);
    }
  }

  /** A sample stands last in its list exactly when its length says so. */
  lemma SampleLast(b: Bytes)
    requires Ok(b) && Sampled(First(b).data).Some?
    ensures Get16(b, 0) == |b| <==> Rest(b) == []
  {
    FieldsWhole(First(b).data, SampleFields(None, None));
    WholeWords(NLA_HDRLEN, |First(b).data|);
  }

  // ---------------------------------------------------------------- what is stored is meant

  /** A stored attribute means the op, whatever follows it. */
  ghost predicate Means(one: Bytes, op: Op, more: Bytes) {
    Ok(one + more) && Rest(one + more) == more && OpOf(First(one + more)) == op
  }

  lemma SetMeans(key: Attr, more: Bytes)
    requires SetLen(key.typ) == |key.data| > 0 && key.typ < NLA_TYPE_MASK
    ensures Means(StoredSet(key), SetMasked(key, SetMask(key)), more)
  {
    var masked := Attr(key.typ, key.data + SetMask(key));
    FirstEnc(Attr(OVS_ACTION_ATTR_SET_TO_MASKED, Enc(masked)), more);
    FirstEnc(masked, []);
    assert Enc(masked) + [] == Enc(masked);
    assert masked.data[..|masked.data| / 2] == key.data && masked.data[|masked.data| / 2..] == SetMask(key);
  }

  lemma NestEnc(arg: Attr, inner: Bytes)
    requires Fits(arg) && |arg.data| == 8 && |inner| % 4 == 0
    ensures IsStoredSample(Enc(arg) + inner)
    ensures NestOf(Enc(arg) + inner) == Nest(arg.data[0] != 0, arg.data[4..], Ops(inner))
  {
    FirstEnc(arg, inner);
    WholeWords(|Enc(arg)|, |inner|);
  }

  lemma SampleOp(exec: bool, probability: Bytes, inner: Bytes)
    requires |probability| == 4 && |inner| % 4 == 0 && NLA_HDRLEN + 12 + |inner| < U16
    ensures OpOf(StoredSample(exec, probability, inner)) == Nest(exec, probability, Ops(inner))
  {
    var arg := Attr(OVS_SAMPLE_ATTR_ARG, SampleArg(exec, probability));
    NestEnc(arg, inner);
    assert arg.data[4..] == probability;
  }

  lemma SampleMeans(exec: bool, probability: Bytes, inner: Bytes, more: Bytes)
    requires |probability| == 4 && |inner| % 4 == 0 && NLA_HDRLEN + 12 + |inner| < U16
    ensures Means(Enc(StoredSample(exec, probability, inner)), Nest(exec, probability, Ops(inner)), more)
  {
    SampleOp(exec, probability, inner);
    FirstEnc(StoredSample(exec, probability, inner), more);
  }

  lemma CopyMeans(b: Bytes, more: Bytes)
    requires Ok(b) && IsPlain(Strip(First(b).typ))
    ensures Means(Copied(b), Copy(Strip(First(b).typ), First(b).data), more)
  {
    CopiedReads(b, more);
  }

  lemma {:induction false} StoredOneMeans(b: Bytes, context: Context, rules: Rules, more: Bytes)
    requires Ok(b) && StoreOne(b, context, rules).Some?
    ensures TreeOne(b).Some? && Means(StoreOne(b, context, rules).value, MeantOne(TreeOne(b).value, Rest(b) == []), more)
    decreases |b|, 0
  {
    var a := First(b);
    var t := Strip(a.typ);
    if t == OVS_ACTION_ATTR_SET {
      SetMeans(SetKey(a.data).value, more);
    } else if t == OVS_ACTION_ATTR_SAMPLE {
      var parts := Sampled(a.data).value;
      StoredMeans(parts.actions, rules.nest(context), rules);
      ScanIsRight(parts.actions);
      SampleLast(b);
      SampleMeans(Get16(b, 0) == |b| || !MayChangeFlow(parts.actions), parts.probability,
                  Store(parts.actions, rules.nest(context), rules).value, more);
    } else {
      CopyMeans(b, more);
    }
  }

  /** Main result.  Whatever bytes are accepted, with whatever checks: the executor finds in the
      stored form exactly what is meant by the list they stand for. */
  lemma {:induction false} StoredMeans(b: Bytes, context: Context, rules: Rules)
    requires Store(b, context, rules).Some?
    ensures Tree(b).Some? && Ops(Store(b, context, rules).value) == Meant(Tree(b).value)
    decreases |b|, 1
  {
    if b != [] {
      var next := rules.check(context, First(b)).value;
      var one, more := StoreOne(b, context, rules).value, Store(Rest(b), next, rules).value;
      StoredOneMeans(b, context, rules, more);
      StoredMeans(Rest(b), next, rules);
      var node, nodes := TreeOne(b).value, Tree(Rest(b)).value;
      assert Tree(b).value == [node] + nodes && ([node] + nodes)[1..] == nodes;
      TreeEmpty(Rest(b));
    }
  }

  lemma TreeEmpty(b: Bytes)
    requires Tree(b).Some?
    ensures Tree(b).value == [] <==> b == []
  {
  }

  // ---------------------------------------------------------------- what a masked set does

  /** OVS_SET_MASKED on one byte. */
  function Masked(was: bv8, key: bv8, mask: bv8): bv8 {
    key | (was & !mask)
  }

  lemma MaskedCases(was: bv8, key: bv8)
    ensures Masked(was, key, 0xFF) == key && Masked(was, 0, 0) == was && Masked(was, key, 0x0F) == key | (was & 0xF0)
  {
  }

  lemma ByteBits(b: Byte)
    ensures b == 0xFF ==> b as bv8 == 0xFF
    ensures b == 0 ==> b as bv8 == 0
    ensures b == 0x0F ==> b as bv8 == 0x0F
  {
  }

  /** A masked set of a whole key. */
  function MaskedSet(was: seq<bv8>, key: Bytes, mask: Bytes): (r: seq<bv8>)
    requires |was| == |key| == |mask|
    ensures |r| == |was|
  {
    seq(|was|, i requires 0 <= i < |was| => Masked(was[i], key[i] as bv8, mask[i] as bv8))
  }

  function Bits(b: Bytes): (r: seq<bv8>)
    ensures |r| == |b|
  {
    seq(|b|, i requires 0 <= i < |b| => b[i] as bv8)
  }

  /** A set as it is stored overwrites the whole key. */
  lemma SetOverwrites(key: Attr, was: seq<bv8>)
    requires |was| == |key.data| && key.typ != OVS_KEY_ATTR_IPV6
    ensures MaskedSet(was, key.data, SetMask(key)) == Bits(key.data)
  {
    forall i | 0 <= i < |was| ensures MaskedSet(was, key.data, SetMask(key))[i] == Bits(key.data)[i] {
      ByteBits(SetMask(key)[i]);
      MaskedCases(was[i], Bits(key.data)[i]);
    }
  }

  /** Of an IPv6 key the twelve bits in front of the flow label, which the compiler demands to be
      zero, stay as they were. */
  lemma SetOverwritesIpv6(key: Attr, was: seq<bv8>)
    requires |was| == |key.data| == 40 && key.typ == OVS_KEY_ATTR_IPV6 && key.data[32] == 0
    ensures MaskedSet(was, key.data, SetMask(key)) ==
      Bits(key.data)[32 := was[32]][33 := Bits(key.data)[33] | (was[33] & 0xF0)]
  {
    var r := Bits(key.data)[32 := was[32]][33 := Bits(key.data)[33] | (was[33] & 0xF0)];
    forall i | 0 <= i < |was| ensures MaskedSet(was, key.data, SetMask(key))[i] == r[i] {
      MaskedIpv6(key, was, i);
    }
  }

  lemma MaskedIpv6(key: Attr, was: seq<bv8>, i: nat)
    requires i < |was| == |key.data| == 40 && key.typ == OVS_KEY_ATTR_IPV6 && key.data[32] == 0
    ensures MaskedSet(was, key.data, SetMask(key))[i] ==
      if i == 32 then was[i] else if i == 33 then Bits(key.data)[i] | (was[i] & 0xF0) else Bits(key.data)[i]
  {
    var mask := SetMask(key)[i];
    assert mask == if i == 32 then 0 else if i == 33 then 0x0F else 0xFF;
    ByteBits(mask);
    ByteBits(key.data[i]);
    MaskedCases(was[i], Bits(key.data)[i]);
    assert MaskedSet(was, key.data, SetMask(key))[i] == Masked(was[i], Bits(key.data)[i], mask as bv8);
  }

  // ---------------------------------------------------------------- running what is stored

  /** nla_get_u32. */
  function Number(d: Bytes): nat {
    if |d| < 4 then 0 else Get16(d, 0) + U16 * Get16(d, 2)
  }

  /** Stored actions as ActionTrace knows them. */
  function Actions(ops: seq<Op>): (r: seq<Action>)
    ensures |r| == |ops| && forall i :: 0 <= i < |ops| ==> r[i] == ActionOf(ops[i])
    decreases ops
  {
    if ops == [] then [] else [ActionOf(ops[0])] + Actions(ops[1..])
  }

  function ActionOf(op: Op): Action
    decreases op
  {
    match op
    case Copy(typ, data) =>
      if typ == OVS_ACTION_ATTR_OUTPUT then Output(Number(data))
      else if typ == OVS_ACTION_ATTR_USERSPACE then Userspace
      else if typ == OVS_ACTION_ATTR_RECIRC then Recirc(Number(data))
      else if typ == OVS_ACTION_ATTR_TRUNC then Trunc
      else if typ == OVS_ACTION_ATTR_HASH then Hash
      else Change
    case SetMasked(_, _) => Change
    case Nest(exec, probability, ops) => Action.Sample(Number(probability), exec, Actions(ops))
  }

  /** A sample that is not last in its list runs in place only if its actions leave the flow key
      as it is, at every nesting depth. */
  ghost predicate Careful(list: seq<Action>)
    decreases list
  {
    forall i :: 0 <= i < |list| ==> (i < |list| - 1 ==> KeepsKeyInPlace(list[i])) && CarefulInside(list[i])
  }

  ghost predicate KeepsKeyInPlace(a: Action) {
    a.Sample? && a.exec ==> AllKeepKey(a.actions)
  }

  ghost predicate CarefulInside(a: Action)
    decreases a
  {
    a.Sample? ==> Careful(a.actions)
  }

  lemma {:induction false} MeantAt(ns: seq<Node>, i: nat)
    requires i < |ns|
    ensures |Meant(ns)| == |ns| && Meant(ns)[i] == MeantOne(ns[i], i == |ns| - 1)
    decreases ns
  {
    if i > 0 {
      MeantAt(ns[1..], i - 1);
    } else if |ns| > 1 {
      MeantAt(ns[1..], 0);
    }
  }

  lemma {:induction false} MeantCareful(ns: seq<Node>)
    ensures Careful(Actions(Meant(ns)))
    decreases ns
  {
    var ops := Meant(ns);
    var list := Actions(ops);
    if ns != [] { MeantAt(ns, 0); }
    forall i | 0 <= i < |list|
      ensures (i < |list| - 1 ==> KeepsKeyInPlace(list[i])) && CarefulInside(list[i])
    {
      MeantAt(ns, i);
      MeantOneCareful(ns[i], i == |ns| - 1);
    }
  }

  lemma {:induction false} MeantOneCareful(n: Node, last: bool)
    ensures var a := ActionOf(MeantOne(n, last)); (!last ==> KeepsKeyInPlace(a)) && CarefulInside(a)
    decreases n
  {
    match n
    case Sample(probability, nodes) =>
      MeantCareful(nodes);
      if AllHarmless(nodes) { HarmlessKeepKey(nodes); }
    case _ =>
  }

  lemma HarmlessKeepKey(ns: seq<Node>)
    requires AllHarmless(ns)
    ensures AllKeepKey(Actions(Meant(ns)))
  {
    if ns != [] { MeantAt(ns, 0); }
    forall i | 0 <= i < |Actions(Meant(ns))| ensures KeepsKey(Actions(Meant(ns))[i]) {
      MeantAt(ns, i);
      assert Harmless(ns[i]);
    }
  }

  /** Whatever list is accepted, its stored form is careful. */
  lemma StoredCareful(b: Bytes, context: Context, rules: Rules)
    requires Store(b, context, rules).Some?
    ensures Careful(Actions(Ops(Store(b, context, rules).value)))
  {
    StoredMeans(b, context, rules);
    MeantCareful(Tree(b).value);
  }

  /** Actions that leave the flow key alone. */
  predicate LeavesKey(a: Action) {
    a.Output? || a.Recirc? || a.Trunc? || a.Userspace?
  }

  predicate AllLeaveKey(list: seq<Action>) {
    forall j :: 0 <= j < |list| ==> LeavesKey(list[j])
  }

  /** A sample is marked to run in place exactly if it is the last of its list or no action in it
      touches the flow key, at every nesting depth. */
  ghost predicate InPlaceExactly(list: seq<Action>)
    decreases list
  {
    forall i :: 0 <= i < |list| ==> MarkedRightly(list[i], i == |list| - 1)
  }

  ghost predicate MarkedRightly(a: Action, last: bool)
    decreases a
  {
    a.Sample? ==>
      && (a.exec <==> last || AllLeaveKey(a.actions))
      && InPlaceExactly(a.actions)
  }

  lemma {:induction false} MeantInPlace(ns: seq<Node>)
    ensures InPlaceExactly(Actions(Meant(ns)))
    decreases ns
  {
    var list := Actions(Meant(ns));
    if ns != [] { MeantAt(ns, 0); }
    forall i | 0 <= i < |list|
      ensures MarkedRightly(list[i], i == |list| - 1)
    {
      MeantAt(ns, i);
      MeantOneInPlace(ns[i], i == |ns| - 1);
    }
  }

  lemma {:induction false} MeantOneInPlace(n: Node, last: bool)
    ensures MarkedRightly(ActionOf(MeantOne(n, last)), last)
    decreases n
  {
    match n
    case Sample(probability, nodes) =>
      MeantInPlace(nodes);
      HarmlessExactly(nodes);
      assert ActionOf(MeantOne(n, last)).actions == Actions(Meant(nodes));
    case _ =>
  }

  lemma {:induction false} HarmlessExactly(ns: seq<Node>)
    ensures AllHarmless(ns) <==> AllLeaveKey(Actions(Meant(ns)))
    decreases ns
  {
    if ns != [] {
      var ops := Meant(ns);
      HarmlessExactly(ns[1..]);
      HarmlessFirst(ns[0], ns[1..]);
      assert [ns[0]] + ns[1..] == ns;
      LeavesKeyFirst(ActionOf(ops[0]), Actions(ops[1..]));
    }
  }

  lemma LeavesKeyFirst(a: Action, list: seq<Action>)
    ensures AllLeaveKey([a] + list) <==> LeavesKey(a) && AllLeaveKey(list)
  {
    var all := [a] + list;
    assert all[0] == a;
    assert forall i :: 0 <= i < |list| ==> list[i] == all[i + 1];
  }

  /** Whatever list is accepted, its samples are marked so. */
  lemma StoredInPlace(b: Bytes, context: Context, rules: Rules)
    requires Store(b, context, rules).Some?
    ensures InPlaceExactly(Actions(Ops(Store(b, context, rules).value)))
  {
    StoredMeans(b, context, rules);
    MeantInPlace(Tree(b).value);
  }

  /** Running a careful list, a sample never changes the flow key under the actions that follow it,
      as long as that key was right before; the lists inside samples are careful as well. */
  lemma SamplesKeepKey(r: Run, dp: Datapath, i: nat)
    requires Careful(r.list) && Follows(r, dp) && i < |r.turns| && r.list[i].Sample?
    ensures Careful(r.list[i].actions)
    ensures i < |r.list| - 1 && r.turns[i].before.key.valid ==> r.turns[i].after.key == r.turns[i].before.key
  {
    ChainHas(r.skb, r.list, r.start, r.turns, dp, i);
    assert CarefulInside(r.list[i]);
    if i < |r.list| - 1 && r.turns[i].before.key.valid {
      assert KeepsKeyInPlace(r.list[i]);
      TurnKeepsKey(r.turns[i], dp);
    }
  }
}
