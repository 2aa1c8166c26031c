/** What the action list compiler of flow_netlink.c makes of the bytes a user sends, and what the
    printer makes of the stored bytes (__ovs_nla_copy_actions, validate_and_copy_sample,
    validate_set, copy_action, ovs_nla_put_actions and its helpers), as functions on byte
    strings; and the proof that printing gives the list back. */
module ActionCodec {
  import opened Wrappers
  import opened Netlink

  const OVS_ACTION_ATTR_OUTPUT := 1
  const OVS_ACTION_ATTR_USERSPACE := 2
  const OVS_ACTION_ATTR_SET := 3
  const OVS_ACTION_ATTR_SAMPLE := 6
  const OVS_ACTION_ATTR_RECIRC := 7
  const OVS_ACTION_ATTR_CT := 12
  const OVS_ACTION_ATTR_TRUNC := 13
  const OVS_ACTION_ATTR_MAX := 15
  const OVS_ACTION_ATTR_SET_TO_MASKED := 17
  const OVS_SAMPLE_ATTR_PROBABILITY := 1
  const OVS_SAMPLE_ATTR_ACTIONS := 2
  const OVS_SAMPLE_ATTR_MAX := 2
  const OVS_SAMPLE_ATTR_ARG := 4
  const OVS_KEY_ATTR_IPV6 := 8

  /** nla_type. */
  function Strip(typ: nat): nat { typ % NLA_TYPE_MASK }

  /** Length of the keys that an action may set; tunnel keys are not part of the model. */
  function SetLen(keyType: nat): nat {
    if keyType in {2, 9, 10, 15, 17, 21, 24} then 4
    else if keyType in {4, 7} then 12
    else if keyType == OVS_KEY_ATTR_IPV6 then 40
    else if keyType == 25 then 16
    else 0
  }

  /** What the compiler knows about the packet while it walks the list.  The checks of single
      actions against it are arbitrary: check rejects an action or says what is known after
      it, nest what is known at the start of a sample. */
  datatype Context = Context(macProto: nat, ethType: nat, vlanTci: nat)

  datatype Rules = Rules(check: (Context, Attr) -> Option<Context>, nest: Context -> Context)

  // -------------------------------------------------------------------- reading the input

  /** The one key of an unmasked set action. */
  function SetKey(d: Bytes): (r: Option<Attr>)
    ensures r.Some? ==> SetLen(r.value.typ) == |r.value.data| > 0 && r.value.typ < NLA_TYPE_MASK
    ensures r.Some? ==> NLA_HDRLEN + |r.value.data| <= |d| == Align(NLA_HDRLEN + |r.value.data|)
  {
    if !Ok(d) || Align(Get16(d, 0)) != |d| then None
    else
      var key := First(d);
      if SetLen(Strip(key.typ)) == |key.data| > 0 then Some(Attr(Strip(key.typ), key.data)) else None
  }

  datatype SampleFields = SampleFields(probability: Option<Bytes>, actions: Option<Bytes>)

  /** The attributes of a sample: known ones, none twice, and nothing left over. */
  function Fields(d: Bytes, so: SampleFields): (r: Option<SampleFields>)
    ensures r.Some? && r.value.actions.Some? && so.actions.None? ==> NLA_HDRLEN + |r.value.actions.value| <= |d|
    ensures r.Some? && so.actions.Some? ==> r.value.actions == so.actions
    decreases |d|
  {
    if d == [] then Some(so)
    else if !Ok(d) || Align(Get16(d, 0)) > |d| then None
    else
      var a := First(d);
      var t := Strip(a.typ);
      if t == OVS_SAMPLE_ATTR_PROBABILITY && so.probability.None? then
        Fields(Rest(d), so.(probability := Some(a.data)))
      else if t == OVS_SAMPLE_ATTR_ACTIONS && so.actions.None? then
        Fields(Rest(d), so.(actions := Some(a.data)))
      else None
  }

  datatype SampleParts = SampleParts(probability: Bytes, actions: Bytes)

  function Sampled(d: Bytes): (r: Option<SampleParts>)
    ensures r.Some? ==> |r.value.probability| == 4 && NLA_HDRLEN + |r.value.actions| <= |d|
  {
    match Fields(d, SampleFields(None, None))
    case None => None
    case Some(f) =>
      if f.probability.None? || |f.probability.value| != 4 then None
      else if f.actions.None? || 0 < |f.actions.value| < NLA_HDRLEN then None
      else Some(SampleParts(f.probability.value, f.actions.value))
  }

  /** Actions that the compiler copies as they are. */
  predicate IsPlain(t: nat) {
    0 < t <= OVS_ACTION_ATTR_MAX && t != OVS_ACTION_ATTR_SET && t != OVS_ACTION_ATTR_SAMPLE && t != OVS_ACTION_ATTR_CT
  }

  // -------------------------------------------------------------------------- the meaning

  datatype Node =
    | Plain(typ: nat, data: Bytes)
    | Set(key: Attr)
    | Sample(probability: Bytes, actions: seq<Node>)

  /** The list of actions that a byte string stands for. */
  function Tree(b: Bytes): Option<seq<Node>>
    decreases |b|, 1
  {
    if b == [] then Some([])
    else if !Ok(b) then None
    else
      match TreeOne(b)
      case None => None
      case Some(node) =>
        match Tree(Rest(b))
        case None => None
        case Some(nodes) => Some([node] + nodes)
  }

  function TreeOne(b: Bytes): Option<Node>
    requires Ok(b)
    decreases |b|, 0
  {
    var a := First(b);
    var t := Strip(a.typ);
    if t == OVS_ACTION_ATTR_SET then
      match SetKey(a.data)
      case None => None
      case Some(key) => Some(Set(key))
    else if t == OVS_ACTION_ATTR_SAMPLE then
      match Sampled(a.data)
      case None => None
      case Some(parts) =>
        match Tree(parts.actions)
        case None => None
        case Some(nodes) => Some(Sample(parts.probability, nodes))
    else if IsPlain(t) then Some(Plain(t, a.data))
    else None
  }

  /** Bytes needed to write a list. */
  function Length(ns: seq<Node>): (n: nat)
    ensures n % 4 == 0
    decreases ns
  {
    if ns == [] then 0 else LengthOf(ns[0]) + Length(ns[1..])
  }

  function LengthOf(n: Node): (r: nat)
    ensures r % 4 == 0
    decreases n
  {
    match n
    case Plain(_, data) => Align(NLA_HDRLEN + |data|)
    case Set(key) => NLA_HDRLEN + Align(NLA_HDRLEN + |key.data|)
    case Sample(_, actions) => 3 * NLA_HDRLEN + 4 + Length(actions)
  }

  /** The list can be written, all lengths being below 2^16, and is one the parser yields. */
  ghost predicate Writable(ns: seq<Node>)
    decreases ns
  {
    ns == [] || (WritableOne(ns[0]) && Writable(ns[1..]))
  }

  ghost predicate WritableOne(n: Node)
    decreases n
  {
    match n
    case Plain(typ, data) => IsPlain(typ) && NLA_HDRLEN + |data| < U16
    case Set(key) => SetLen(key.typ) == |key.data| > 0 && key.typ < NLA_TYPE_MASK
    case Sample(probability, actions) =>
      |probability| == 4 && Writable(actions) && 3 * NLA_HDRLEN + 4 + Length(actions) < U16
  }

  /** A set action with its key. */
  function EncSet(key: Attr): (r: Bytes)
    requires NLA_HDRLEN + Size(key) < U16 && key.typ < U16
    ensures |r| == NLA_HDRLEN + Size(key)
  {
    Enc(Attr(OVS_ACTION_ATTR_SET, Enc(key)))
  }

  /** A sample with its two attributes. */
  function EncSample(probability: Bytes, actions: Bytes): (r: Attr)
    requires |probability| == 4 && |actions| % 4 == 0 && 3 * NLA_HDRLEN + 4 + |actions| < U16
    ensures Fits(r) && Size(r) == 3 * NLA_HDRLEN + 4 + |actions| && r.typ == OVS_ACTION_ATTR_SAMPLE
  {
    Attr(OVS_ACTION_ATTR_SAMPLE,
      Enc(Attr(OVS_SAMPLE_ATTR_PROBABILITY, probability)) + Enc(Attr(OVS_SAMPLE_ATTR_ACTIONS, actions)))
  }

  /** The list in its normal form: no flag bits, zero padding, the probability of a sample before
      its actions. */
  function Encode(ns: seq<Node>): (r: Bytes)
    requires Writable(ns)
    ensures |r| == Length(ns)
    decreases ns
  {
    if ns == [] then [] else EncodeOne(ns[0]) + Encode(ns[1..])
  }

  function EncodeOne(n: Node): (r: Bytes)
    requires WritableOne(n)
    ensures |r| == LengthOf(n)
    decreases n
  {
    match n
    case Plain(typ, data) => Enc(Attr(typ, data))
    case Set(key) => EncSet(key)
    case Sample(probability, actions) => Enc(EncSample(probability, Encode(actions)))
  }

  // -------------------------------------------------------- reading back the normal form

  lemma SetKeyEnc(key: Attr)
    requires SetLen(key.typ) == |key.data| > 0 && key.typ < NLA_TYPE_MASK
    ensures SetKey(Enc(key)) == Some(key)
  {
    FirstEnc(key, []);
    assert Enc(key) + [] == Enc(key);
  }

  lemma FieldsEnc(probability: Bytes, actions: Bytes)
    requires |probability| == 4 && |actions| % 4 == 0 && 3 * NLA_HDRLEN + 4 + |actions| < U16
    ensures Sampled(EncSample(probability, actions).data) == Some(SampleParts(probability, actions))
  {
    var p, a := Attr(OVS_SAMPLE_ATTR_PROBABILITY, probability), Attr(OVS_SAMPLE_ATTR_ACTIONS, actions);
    FirstEnc(p, Enc(a));
    FirstEnc(a, []);
    assert Enc(a) + [] == Enc(a);
    assert Fields([], SampleFields(Some(probability), Some(actions))) ==
      Some(SampleFields(Some(probability), Some(actions)));
    assert Fields(Enc(a), SampleFields(Some(probability), None)) ==
      Some(SampleFields(Some(probability), Some(actions)));
  }

  /** Parsing what was written returns the list. */
  lemma {:induction false} TreeEncode(ns: seq<Node>)
    requires Writable(ns)
    ensures Tree(Encode(ns)) == Some(ns)
    decreases ns
  {
    if ns != [] {
      var more := Encode(ns[1..]);
      TreeEncodeOne(ns[0], more);
      TreeEncode(ns[1..]);
      assert ns == [ns[0]] + ns[1..];
    }
  }

  lemma {:induction false} TreeEncodeOne(n: Node, rest: Bytes)
    requires WritableOne(n)
    ensures var b := EncodeOne(n) + rest; Ok(b) && TreeOne(b) == Some(n) && Rest(b) == rest
    decreases n
  {
    match n
    case Plain(typ, data) => FirstEnc(Attr(typ, data), rest);
    case Set(key) => TreeSet(key, rest);
    case Sample(probability, actions) =>
      TreeEncode(actions);
      TreeSample(probability, Encode(actions), rest);
  }

  lemma TreeSet(key: Attr, rest: Bytes)
    requires SetLen(key.typ) == |key.data| > 0 && key.typ < NLA_TYPE_MASK
    ensures var b := EncSet(key) + rest; Ok(b) && TreeOne(b) == Some(Set(key)) && Rest(b) == rest
  {
    FirstEnc(Attr(OVS_ACTION_ATTR_SET, Enc(key)), rest);
    SetKeyEnc(key);
  }

  lemma TreeSample(probability: Bytes, inner: Bytes, rest: Bytes)
    requires |probability| == 4 && |inner| % 4 == 0 && 3 * NLA_HDRLEN + 4 + |inner| < U16 && Tree(inner).Some?
    ensures var b := Enc(EncSample(probability, inner)) + rest;
      Ok(b) && TreeOne(b) == Some(Sample(probability, Tree(inner).value)) && Rest(b) == rest
  {
    FirstEnc(EncSample(probability, inner), rest);
    FieldsEnc(probability, inner);
  }

  // --------------------------------------------------------------------- what is stored

  /** All bits set, except those of an IPv6 flow label that cannot be written. */
  function SetMask(key: Attr): (r: Bytes)
    ensures |r| == |key.data|
  {
    seq(|key.data|, i => if key.typ == OVS_KEY_ATTR_IPV6 && i == 32 then 0
      else if key.typ == OVS_KEY_ATTR_IPV6 && i == 33 then 0x0F else 0xFF)
  }

  function StoredSet(key: Attr): (r: Bytes)
    requires SetLen(key.typ) == |key.data| && key.typ < NLA_TYPE_MASK
    ensures |r| % 4 == 0
  {
    Enc(Attr(OVS_ACTION_ATTR_SET_TO_MASKED, Enc(Attr(key.typ, key.data + SetMask(key)))))
  }

  /** struct sample_arg. */
  function SampleArg(exec: bool, probability: Bytes): (r: Bytes)
    ensures |r| == 4 + |probability|
  {
    [if exec then 1 else 0, 0, 0, 0] + probability
  }

  /** The stored form of a sample. */
  function StoredSample(exec: bool, probability: Bytes, inner: Bytes): (r: Attr)
    requires |probability| == 4 && |inner| % 4 == 0 && NLA_HDRLEN + 12 + |inner| < U16
    ensures Fits(r)
  {
    Attr(OVS_ACTION_ATTR_SAMPLE, Enc(Attr(OVS_SAMPLE_ATTR_ARG, SampleArg(exec, probability))) + inner)
  }

  /** copy_action: the attribute with its padding. */
  function Copied(b: Bytes): (r: Bytes)
    requires Ok(b)
    ensures |r| == Align(Get16(b, 0)) && r[..Get16(b, 0)] == b[..Get16(b, 0)]
  {
    var n := Align(Get16(b, 0));
    if n <= |b| then b[..n] else b + Zeros(n - |b|)
  }

  /** actions_may_change_flow. */
  predicate MayChangeFlow(b: Bytes)
    decreases |b|
  {
    Ok(b) && (
      var t := Strip(First(b).typ);
      (t != OVS_ACTION_ATTR_OUTPUT && t != OVS_ACTION_ATTR_RECIRC
       && t != OVS_ACTION_ATTR_TRUNC && t != OVS_ACTION_ATTR_USERSPACE)
      || MayChangeFlow(Rest(b)))
  }

  /** __ovs_nla_copy_actions: the stored form of a list, if every action passes. */
  function Store(b: Bytes, context: Context, rules: Rules): (r: Option<Bytes>)
    ensures r.Some? ==> |r.value| % 4 == 0
    decreases |b|, 1
  {
    if b == [] then Some([])
    else if !Ok(b) then None
    else
      match rules.check(context, First(b))
      case None => None
      case Some(next) =>
        match StoreOne(b, context, rules)
        case None => None
        case Some(one) =>
          match Store(Rest(b), next, rules)
          case None => None
          case Some(more) =>
            WholeWords(|one|, |more|);
            Some(one + more)
  }

  /** The stored form of the first action. */
  function StoreOne(b: Bytes, context: Context, rules: Rules): (r: Option<Bytes>)
    requires Ok(b)
    ensures r.Some? ==> |r.value| % 4 == 0
    decreases |b|, 0
  {
    var a := First(b);
    var t := Strip(a.typ);
    if t == OVS_ACTION_ATTR_SET then
      match SetKey(a.data)
      case None => None
      case Some(key) => Some(StoredSet(key))
    else if t == OVS_ACTION_ATTR_SAMPLE then StoreSample(a.data, Get16(b, 0) == |b|, context, rules)
    else if IsPlain(t) then Some(Copied(b))
    else None
  }

  /** validate_and_copy_sample; the last action may always run in place. */
  function StoreSample(d: Bytes, last: bool, context: Context, rules: Rules): (r: Option<Bytes>)
    ensures r.Some? ==> |r.value| % 4 == 0
    decreases |d|, 2
  {
    match Sampled(d)
    case None => None
    case Some(parts) =>
      match Store(parts.actions, rules.nest(context), rules)
      case None => None
      case Some(inner) =>
        if NLA_HDRLEN + 12 + |inner| >= U16 then None
        else
          Some(Enc(StoredSample(last || !MayChangeFlow(parts.actions), parts.probability, inner)))
  }

  // --------------------------------------------------------------------------- printing

  /** ovs_nla_put_actions over stored bytes. */
  function Print(s: Bytes): (r: Bytes)
    requires |s| % 4 == 0
    ensures |r| % 4 == 0 && |r| <= |s|
    decreases |s|, 1
  {
    if !Ok(s) then []
    else
      RestWords(s);
      var one, more := PrintOne(First(s)), Print(Rest(s));
      WholeWords(|one|, |more|);
      one + more
  }

  /** masked_set_action_to_set_action_attr: the value without the mask. */
  function PrintSet(d: Bytes): (r: Bytes)
    requires Ok(d)
    ensures |r| % 4 == 0 && |r| <= Align(NLA_HDRLEN + |d|)
  {
    var key := First(d);
    EncSet(Attr(Strip(key.typ), key.data[..|key.data| / 2]))
  }

  function PrintOne(a: Attr): (r: Bytes)
    requires Fits(a)
    ensures |r| % 4 == 0 && |r| <= Size(a)
    decreases NLA_HDRLEN + |a.data|, 0
  {
    var t := Strip(a.typ);
    if t == OVS_ACTION_ATTR_SET_TO_MASKED && Ok(a.data) then
      PrintSet(a.data)
    else if t == OVS_ACTION_ATTR_SAMPLE && IsStoredSample(a.data) then
      var arg := First(a.data);
      Enc(EncSample(arg.data[4..], Print(Rest(a.data))))
    else Enc(Attr(t, a.data))
  }

  /** What the compiler puts into a sample: its argument first, then whole attributes. */
  predicate IsStoredSample(d: Bytes) {
    |d| % 4 == 0 && Ok(d) && |First(d).data| == 8
  }

  // -------------------------------------------------------------------------- round trip

  /** A stored attribute prints as the given bytes, whatever follows it. */
  ghost predicate PrintsAs(one: Bytes, printed: Bytes, more: Bytes) {
    Ok(one + more) && Rest(one + more) == more && PrintOne(First(one + more)) == printed
  }

  lemma EncPrints(a: Attr, more: Bytes)
    requires Fits(a)
    ensures PrintsAs(Enc(a), PrintOne(a), more)
  {
    FirstEnc(a, more);
  }

  /** A set is stored as value and mask, and printing drops the mask again. */
  lemma MaskedPrints(key: Attr)
    requires SetLen(key.typ) == |key.data| > 0 && key.typ < NLA_TYPE_MASK
    ensures var masked := Attr(key.typ, key.data + SetMask(key));
      PrintOne(Attr(OVS_ACTION_ATTR_SET_TO_MASKED, Enc(masked))) == EncSet(key)
  {
    var masked := Attr(key.typ, key.data + SetMask(key));
    FirstEnc(masked, []);
    assert Enc(masked) + [] == Enc(masked);
    assert masked.data[..|masked.data| / 2] == key.data;
  }

  lemma StoredSetPrints(key: Attr, more: Bytes)
    requires SetLen(key.typ) == |key.data| > 0 && key.typ < NLA_TYPE_MASK
    ensures PrintsAs(StoredSet(key), EncSet(key), more)
  {
    MaskedPrints(key);
    EncPrints(Attr(OVS_ACTION_ATTR_SET_TO_MASKED, Enc(Attr(key.typ, key.data + SetMask(key)))), more);
  }

  lemma {:induction false} SamplePrints(exec: bool, probability: Bytes, inner: Bytes)
    requires |probability| == 4 && |inner| % 4 == 0 && NLA_HDRLEN + 12 + |inner| < U16
    ensures PrintOne(StoredSample(exec, probability, inner)) == Enc(EncSample(probability, Print(inner)))
  {
    var arg := Attr(OVS_SAMPLE_ATTR_ARG, SampleArg(exec, probability));
    FirstEnc(arg, inner);
    WholeWords(|Enc(arg)|, |inner|);
    assert SampleArg(exec, probability)[4..] == probability;
  }

  /** A copied attribute reads as the original. */
  lemma CopiedReads(b: Bytes, more: Bytes)
    requires Ok(b)
    ensures var s := Copied(b) + more; Ok(s) && First(s) == First(b) && s[Align(Get16(b, 0))..] == more
    ensures Get16(Copied(b) + more, 0) == Get16(b, 0)
  {
    var n, s := Get16(b, 0), Copied(b) + more;
    assert s[..n] == b[..n];
    assert s[0] == b[..n][0] && s[1] == b[..n][1] && s[2] == b[..n][2] && s[3] == b[..n][3];
    assert s[NLA_HDRLEN..n] == s[..n][NLA_HDRLEN..] == b[NLA_HDRLEN..n];
  }

  lemma CopiedPrints(b: Bytes, more: Bytes)
    requires Ok(b) && IsPlain(Strip(First(b).typ))
    ensures PrintsAs(Copied(b), Enc(Attr(Strip(First(b).typ), First(b).data)), more)
  {
    CopiedReads(b, more);
  }

  lemma {:induction false} StoreOnePrints(b: Bytes, context: Context, rules: Rules, more: Bytes)
    requires Ok(b) && StoreOne(b, context, rules).Some?
    ensures TreeOne(b).Some? && WritableOne(TreeOne(b).value)
    ensures PrintsAs(StoreOne(b, context, rules).value, EncodeOne(TreeOne(b).value), more)
    decreases |b|, 0
  {
    var a := First(b);
    var t := Strip(a.typ);
    if t == OVS_ACTION_ATTR_SET {
      StoredSetPrints(SetKey(a.data).value, more);
    } else if t == OVS_ACTION_ATTR_SAMPLE {
      var parts := Sampled(a.data).value;
      StorePrints(parts.actions, rules.nest(context), rules);
      var inner := Store(parts.actions, rules.nest(context), rules).value;
      var exec := Get16(b, 0) == |b| || !MayChangeFlow(parts.actions);
      SamplePrints(exec, parts.probability, inner);
      EncPrints(StoredSample(exec, parts.probability, inner), more);
    } else {
      CopiedPrints(b, more);
    }
  }

  /** Main result.  Whatever bytes are accepted, with whatever checks: they stand for a list of
      actions, and printing the stored form writes exactly that list in normal form. */
  lemma {:induction false} StorePrints(b: Bytes, context: Context, rules: Rules)
    requires Store(b, context, rules).Some?
    ensures Tree(b).Some? && Writable(Tree(b).value)
    ensures Print(Store(b, context, rules).value) == Encode(Tree(b).value)
    decreases |b|, 1
  {
    if b != [] {
      var next := rules.check(context, First(b)).value;
      var one, more := StoreOne(b, context, rules).value, Store(Rest(b), next, rules).value;
      StoreOnePrints(b, context, rules, more);
      StorePrints(Rest(b), next, rules);
      var node, nodes := TreeOne(b).value, Tree(Rest(b)).value;
      assert ([node] + nodes)[1..] == nodes;
    }
  }

  /** Parsed again, what is printed is the list that was sent, at every nesting depth. */
  lemma RoundTrip(b: Bytes, context: Context, rules: Rules)
    requires Store(b, context, rules).Some?
    ensures Tree(b).Some? && Tree(Print(Store(b, context, rules).value)) == Tree(b)
  {
    StorePrints(b, context, rules);
    TreeEncode(Tree(b).value);
  }

  // ------------------------------------------------------------------------- normal form

  /** The first attribute has no flag bits in its type, and all its padding, zero. */
  predicate Clean(b: Bytes) {
    && Ok(b) && First(b).typ < NLA_TYPE_MASK && Align(Get16(b, 0)) <= |b|
    && forall i :: Get16(b, 0) <= i < Align(Get16(b, 0)) ==> b[i] == 0
  }

  /** A list of clean attributes, sets and samples clean inside as well, and samples with their
      probability in front of their actions. */
  predicate Normal(b: Bytes)
    decreases |b|, 1
  {
    b == [] || (Clean(b) && NormalInside(First(b)) && Normal(Rest(b)))
  }

  predicate NormalInside(a: Attr)
    decreases |a.data| + NLA_HDRLEN, 0
  {
    if a.typ == OVS_ACTION_ATTR_SET then Clean(a.data)
    else if a.typ == OVS_ACTION_ATTR_SAMPLE then
      && Clean(a.data) && First(a.data).typ == OVS_SAMPLE_ATTR_PROBABILITY
      && Clean(Rest(a.data)) && Normal(First(Rest(a.data)).data)
    else true
  }

  lemma PutGet(b: Bytes, at: nat)
    requires at + 2 <= |b|
    ensures Put16(Get16(b, at)) == b[at..at + 2]
  {
  }

  /** Clean attributes are those that were written. */
  lemma CleanIsEnc(b: Bytes)
    requires Clean(b)
    ensures b == Enc(First(b)) + Rest(b)
  {
    var a, n := First(b), Get16(b, 0);
    PutGet(b, 0);
    PutGet(b, 2);
    assert b[n..Align(n)] == Zeros(Align(n) - n);
    assert b == b[0..2] + b[2..4] + b[4..n] + b[n..Align(n)] + b[Align(n)..];
  }

  lemma EncIsClean(a: Attr, rest: Bytes)
    requires Fits(a) && a.typ < NLA_TYPE_MASK
    ensures Clean(Enc(a) + rest) && First(Enc(a) + rest) == a && Rest(Enc(a) + rest) == rest
  {
    FirstEnc(a, rest);
  }

  lemma {:induction false} NormalEncodes(b: Bytes)
    requires Normal(b) && Tree(b).Some? && Writable(Tree(b).value)
    ensures Encode(Tree(b).value) == b
    decreases |b|, 1
  {
    if b != [] {
      var node, nodes := TreeOne(b).value, Tree(Rest(b)).value;
      assert Tree(b).value == [node] + nodes && ([node] + nodes)[1..] == nodes;
      NormalOneEncodes(b);
      CleanIsEnc(b);
      NormalEncodes(Rest(b));
    }
  }

  lemma {:induction false} NormalOneEncodes(b: Bytes)
    requires b != [] && Clean(b) && NormalInside(First(b)) && TreeOne(b).Some? && WritableOne(TreeOne(b).value)
    ensures Fits(First(b)) && EncodeOne(TreeOne(b).value) == Enc(First(b))
    decreases |b|, 0
  {
    if First(b).typ == OVS_ACTION_ATTR_SAMPLE {
      NormalSampleEncodes(b, First(b));
    } else {
      OtherEncodes(b, First(b));
    }
  }

  lemma {:induction false} NormalSampleEncodes(b: Bytes, a: Attr)
    requires Clean(b) && a == First(b) && a.typ == OVS_ACTION_ATTR_SAMPLE && NormalInside(a) && TreeOne(b).Some?
    requires WritableOne(TreeOne(b).value)
    ensures EncodeOne(TreeOne(b).value) == Enc(a)
    decreases |a.data|, 1
  {
    var parts := Sampled(a.data).value;
    var nodes := Tree(parts.actions).value;
    assert TreeOne(b).value == Sample(parts.probability, nodes);
    NormalFields(a.data);
    NormalEncodes(parts.actions);
    SampleEncodes(a, parts, nodes);
  }

  lemma SetEncodes(a: Attr, key: Attr)
    requires a.typ == OVS_ACTION_ATTR_SET && SetKey(a.data) == Some(key) && Clean(a.data) && Fits(a)
    ensures EncSet(key) == Enc(a)
  {
    NormalSet(a.data);
  }

  /** What a clean attribute other than a sample stands for. */
  lemma CleanNode(b: Bytes, a: Attr)
    requires Clean(b) && a == First(b) && a.typ != OVS_ACTION_ATTR_SAMPLE && TreeOne(b).Some?
    ensures if a.typ == OVS_ACTION_ATTR_SET then SetKey(a.data).Some? && TreeOne(b).value == Set(SetKey(a.data).value)
      else TreeOne(b).value == Plain(a.typ, a.data)
  {
    assert Strip(a.typ) == a.typ;
  }

  lemma {:induction false} OtherEncodes(b: Bytes, a: Attr)
    requires Clean(b) && a == First(b) && a.typ != OVS_ACTION_ATTR_SAMPLE && NormalInside(a) && TreeOne(b).Some?
    requires WritableOne(TreeOne(b).value)
    ensures EncodeOne(TreeOne(b).value) == Enc(a)
  {
    CleanNode(b, a);
    if a.typ == OVS_ACTION_ATTR_SET { SetEncodes(a, SetKey(a.data).value); }
  }

  lemma {:induction false} SampleEncodes(a: Attr, parts: SampleParts, nodes: seq<Node>)
    requires a.typ == OVS_ACTION_ATTR_SAMPLE && NormalInside(a) && Sampled(a.data) == Some(parts) && Fits(a)
    requires WritableOne(Sample(parts.probability, nodes)) && Encode(nodes) == parts.actions
    ensures EncodeOne(Sample(parts.probability, nodes)) == Enc(a)
  {
    NormalSample(a, parts.actions);
  }

  lemma {:induction false} NormalSample(a: Attr, inner: Bytes)
    requires a.typ == OVS_ACTION_ATTR_SAMPLE && NormalInside(a) && Sampled(a.data).Some?
    requires inner == Sampled(a.data).value.actions && |inner| % 4 == 0 && 3 * NLA_HDRLEN + 4 + |inner| < U16
    ensures EncSample(Sampled(a.data).value.probability, inner) == a
  {
    NormalFields(a.data);
  }

  lemma NormalSet(d: Bytes)
    requires SetKey(d).Some? && Clean(d)
    ensures Enc(SetKey(d).value) == d
  {
    CleanIsEnc(d);
    assert Rest(d) == [];
    assert Enc(First(d)) + [] == Enc(First(d));
  }

  lemma {:induction false} NormalFields(d: Bytes)
    requires Sampled(d).Some? && Clean(d) && First(d).typ == OVS_SAMPLE_ATTR_PROBABILITY && Clean(Rest(d))
    ensures First(Rest(d)).data == Sampled(d).value.actions
    ensures var parts := Sampled(d).value;
      d == Enc(Attr(OVS_SAMPLE_ATTR_PROBABILITY, parts.probability)) + Enc(Attr(OVS_SAMPLE_ATTR_ACTIONS, parts.actions))
  {
    var p, r := First(d), Rest(d);
    var so := SampleFields(Some(p.data), None);
    assert Fields(d, SampleFields(None, None)) == Fields(r, so);
    assert First(r).typ == OVS_SAMPLE_ATTR_ACTIONS;
    assert Fields(r, so) == Fields(Rest(r), so.(actions := Some(First(r).data)));
    NothingLeft(Rest(r), so.(actions := Some(First(r).data)));
    CleanIsEnc(d);
    CleanIsEnc(r);
    assert Enc(First(r)) + [] == Enc(First(r));
  }

  lemma NothingLeft(d: Bytes, so: SampleFields)
    requires Fields(d, so).Some? && so.probability.Some? && so.actions.Some?
    ensures d == []
  {
  }

  lemma {:induction false} EncodeIsNormal(ns: seq<Node>)
    requires Writable(ns)
    ensures Normal(Encode(ns))
    decreases ns
  {
    if ns != [] {
      EncodeOneIsNormal(ns[0], Encode(ns[1..]));
      EncodeIsNormal(ns[1..]);
    }
  }

  lemma {:induction false} EncodeOneIsNormal(n: Node, rest: Bytes)
    requires WritableOne(n)
    ensures var b := EncodeOne(n) + rest; Clean(b) && NormalInside(First(b)) && Rest(b) == rest
    decreases n
  {
    match n
    case Plain(typ, data) => EncIsClean(Attr(typ, data), rest);
    case Set(key) =>
      EncIsClean(Attr(OVS_ACTION_ATTR_SET, Enc(key)), rest);
      EncIsClean(key, []);
      assert Enc(key) + [] == Enc(key);
    case Sample(probability, actions) =>
      EncodeIsNormal(actions);
      SampleIsNormal(probability, Encode(actions), rest);
  }

  lemma SampleIsNormal(probability: Bytes, inner: Bytes, rest: Bytes)
    requires |probability| == 4 && |inner| % 4 == 0 && 3 * NLA_HDRLEN + 4 + |inner| < U16 && Normal(inner)
    ensures var b := Enc(EncSample(probability, inner)) + rest; Clean(b) && NormalInside(First(b)) && Rest(b) == rest
  {
    var p, a := Attr(OVS_SAMPLE_ATTR_PROBABILITY, probability), Attr(OVS_SAMPLE_ATTR_ACTIONS, inner);
    EncIsClean(EncSample(probability, inner), rest);
    EncIsClean(p, Enc(a));
    EncIsClean(a, []);
    assert Enc(a) + [] == Enc(a);
  }

  /** The printed bytes are the bytes that were sent exactly when those have no flag bits in the
      types, zero padding throughout, and the probability of each sample in front. */
  lemma SameBytes(b: Bytes, context: Context, rules: Rules)
    requires Store(b, context, rules).Some?
    ensures Print(Store(b, context, rules).value) == b <==> Normal(b)
  {
    StorePrints(b, context, rules);
    if Normal(b) {
      NormalEncodes(b);
    }
    EncodeIsNormal(Tree(b).value);
  }
}
