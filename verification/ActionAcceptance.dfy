/** Which lists of actions the compiler of flow_netlink.c accepts: exactly those that parse, whose
    actions pass the checks one after the other at every depth, and whose samples are not too
    large when stored. */
module ActionAcceptance {
  import opened Wrappers
  import opened Netlink
  import opened ActionCodec

  /** Bytes taken by the stored form of a list: a set is stored with a mask, and a sample with a
      flag beside its probability. */
  function StoredLen(ns: seq<Node>): (n: nat)
    decreases ns
  {
    if ns == [] then 0 else StoredLenOf(ns[0]) + StoredLen(ns[1..])
  }

  function StoredLenOf(n: Node): (r: nat)
    decreases n
  {
    match n
    case Plain(_, data) => Align(4 + |data|)
    case Set(key) => 4 + Align(4 + 2 * |key.data|)
    case Sample(_, actions) => 16 + StoredLen(actions)
  }

  /** The length of every stored sample, at every depth, fits its 16-bit field. */
  predicate SamplesFit(ns: seq<Node>)
    decreases ns
  {
    ns == [] || (SampleFits(ns[0]) && SamplesFit(ns[1..]))
  }

  predicate SampleFits(n: Node)
    decreases n
  {
    match n
    case Sample(_, actions) => SamplesFit(actions) && 16 + StoredLen(actions) < 0x1_0000
    case _ => true
  }

  /** The bytes of the actions inside a sample. */
  function Inside(b: Bytes): (r: Bytes)
    requires Ok(b)
    ensures |r| < |b|
  {
    var parts := Sampled(First(b).data);
    if parts.Some? then parts.value.actions else []
  }

  /** The checks accept every action of the list ns that the bytes b stand for: each under what the
      ones before it left, and those inside a sample under what the sample starts with. */
  predicate Passes(b: Bytes, ns: seq<Node>, context: Context, rules: Rules)
    decreases ns
  {
    ns == [] ||
    (Ok(b) && rules.check(context, First(b)).Some? && PassesOne(b, ns[0], context, rules)
     && Passes(Rest(b), ns[1..], rules.check(context, First(b)).value, rules))
  }

  predicate PassesOne(b: Bytes, n: Node, context: Context, rules: Rules)
    requires Ok(b)
    decreases n
  {
    n.Sample? ==> Passes(Inside(b), n.actions, rules.nest(context), rules)
  }

  /** Exactly the lists that parse, pass and fit are accepted; and the stored form is as long as
      the list says. */
  lemma {:induction false} AcceptedExactly(b: Bytes, context: Context, rules: Rules)
    ensures Store(b, context, rules).Some? <==>
      Tree(b).Some? && Passes(b, Tree(b).value, context, rules) && SamplesFit(Tree(b).value)
    ensures Store(b, context, rules).Some? ==> |Store(b, context, rules).value| == StoredLen(Tree(b).value)
    decreases |b|, 2
  {
    if b != [] && Ok(b) {
      AcceptedOne(b, context, rules);
      if rules.check(context, First(b)).Some? {
        AcceptedExactly(Rest(b), rules.check(context, First(b)).value, rules);
      }
      if Tree(b).Some? {
        var node, nodes := TreeOne(b).value, Tree(Rest(b)).value;
        assert Tree(b).value == [node] + nodes && ([node] + nodes)[1..] == nodes;
      }
    }
  }

  lemma {:induction false} AcceptedOne(b: Bytes, context: Context, rules: Rules)
    requires Ok(b)
    ensures StoreOne(b, context, rules).Some? <==>
      TreeOne(b).Some? && PassesOne(b, TreeOne(b).value, context, rules) && SampleFits(TreeOne(b).value)
    ensures StoreOne(b, context, rules).Some? ==> |StoreOne(b, context, rules).value| == StoredLenOf(TreeOne(b).value)
    decreases |b|, 1
  {
    var t := Strip(First(b).typ);
    if t == OVS_ACTION_ATTR_SAMPLE {
      AcceptedSample(b, context, rules);
    } else if t == OVS_ACTION_ATTR_SET {
      AcceptedSet(b, context, rules);
    } else {
      AcceptedPlain(b, context, rules);
    }
  }

  lemma {:induction false} AcceptedSample(b: Bytes, context: Context, rules: Rules)
    requires Ok(b) && Strip(First(b).typ) == OVS_ACTION_ATTR_SAMPLE
    ensures StoreOne(b, context, rules).Some? <==>
      TreeOne(b).Some? && PassesOne(b, TreeOne(b).value, context, rules) && SampleFits(TreeOne(b).value)
    ensures StoreOne(b, context, rules).Some? ==> |StoreOne(b, context, rules).value| == StoredLenOf(TreeOne(b).value)
    decreases |b|, 0
  {
    var d := First(b).data;
    SampleIsStored(d, Get16(b, 0) == |b|, context, rules);
    if Sampled(d).Some? {
      AcceptedExactly(Inside(b), rules.nest(context), rules);
      SampleTree(b);
    }
  }

  /** A sample is stored if its actions are and leave it small enough. */
  lemma {:induction false} SampleIsStored(d: Bytes, last: bool, context: Context, rules: Rules)
    ensures var r := StoreSample(d, last, context, rules);
      if Sampled(d).None? then r.None?
      else
        var inner := Store(Sampled(d).value.actions, rules.nest(context), rules);
        if inner.Some? && 16 + |inner.value| < 0x1_0000 then r.Some? && |r.value| == 16 + |inner.value| else r.None?
  {
    if StoreSample(d, last, context, rules).Some? {
      var parts := Sampled(d).value;
      var inner := Store(parts.actions, rules.nest(context), rules).value;
      SampleSize(last || !MayChangeFlow(parts.actions), parts.probability, inner);
    }
  }

  lemma SampleSize(exec: bool, probability: Bytes, inner: Bytes)
    requires |probability| == 4 && |inner| % 4 == 0 && 16 + |inner| < 0x1_0000
    ensures |Enc(StoredSample(exec, probability, inner))| == 16 + |inner|
  {
  }

  lemma SampleTree(b: Bytes)
    requires Ok(b) && Strip(First(b).typ) == OVS_ACTION_ATTR_SAMPLE && Sampled(First(b).data).Some?
    ensures Inside(b) == Sampled(First(b).data).value.actions
    ensures TreeOne(b) == match Tree(Inside(b)) {
      case None => None
      case Some(nodes) => Some(Sample(Sampled(First(b).data).value.probability, nodes))
    }
  {
  }

  lemma {:induction false} AcceptedSet(b: Bytes, context: Context, rules: Rules)
    requires Ok(b) && Strip(First(b).typ) == OVS_ACTION_ATTR_SET
    ensures StoreOne(b, context, rules).Some? <==> TreeOne(b).Some?
    ensures TreeOne(b).Some? ==>
      TreeOne(b).value.Set? && |StoreOne(b, context, rules).value| == 4 + Align(4 + 2 * |TreeOne(b).value.key.data|)
  {
  }

  lemma {:induction false} AcceptedPlain(b: Bytes, context: Context, rules: Rules)
    requires Ok(b) && Strip(First(b).typ) !in {OVS_ACTION_ATTR_SET, OVS_ACTION_ATTR_SAMPLE}
    ensures StoreOne(b, context, rules).Some? <==> TreeOne(b).Some?
    ensures TreeOne(b).Some? ==>
      TreeOne(b).value.Plain? && |StoreOne(b, context, rules).value| == Align(4 + |TreeOne(b).value.data|)
  {
  }

  // ------------------------------------------------------ lists that are written

  /** Every list in normal form that passes and fits is accepted. */
  lemma {:induction false} WrittenIsAccepted(ns: seq<Node>, context: Context, rules: Rules)
    requires Writable(ns) && SamplesFit(ns) && Passes(Encode(ns), ns, context, rules)
    ensures Store(Encode(ns), context, rules).Some?
  {
    TreeEncode(ns);
    AcceptedExactly(Encode(ns), context, rules);
  }

  /** An action that is neither a set, a sample nor connection tracking is stored as it is sent. */
  lemma {:induction false} PlainIsCopied(t: nat, data: Bytes, context: Context, rules: Rules)
    requires 0 < t <= 15 && t !in {3, 6, 12} && 4 + |data| < 0x1_0000
    requires rules.check(context, Attr(t, data)).Some?
    ensures Store(Enc(Attr(t, data)), context, rules) == Some(Enc(Attr(t, data)))
  {
    var b := Enc(Attr(t, data));
    WholeAttr(Attr(t, data));
    PlainStored(b, context, rules);
    OneAction(b, context, rules);
  }

  lemma PlainStored(b: Bytes, context: Context, rules: Rules)
    requires Ok(b) && 0 < First(b).typ <= 15 && First(b).typ !in {3, 6, 12}
    ensures StoreOne(b, context, rules) == Some(Copied(b))
  {
    assert Strip(First(b).typ) == First(b).typ;
  }

  /** A list of one action. */
  lemma {:induction false} OneAction(b: Bytes, context: Context, rules: Rules)
    requires Ok(b) && Rest(b) == [] && rules.check(context, First(b)).Some?
    ensures Store(b, context, rules) == StoreOne(b, context, rules)
  {
    var next := rules.check(context, First(b)).value;
    assert Store([], next, rules) == Some([]);
    var one := StoreOne(b, context, rules);
    if one.Some? { assert one.value + [] == one.value; }
  }

  /** What is read of an attribute written by itself. */
  lemma WholeAttr(a: Attr)
    requires Fits(a)
    ensures var b := Enc(a); Ok(b) && First(b) == a && Rest(b) == [] && Copied(b) == b
  {
    FirstEnc(a, []);
    assert Enc(a) + [] == Enc(a);
  }
}
