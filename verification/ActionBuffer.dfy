/** The growable buffer of compiled actions (struct sw_flow_actions) and the compiler and printer
    that work on it in place (reserve_sfa_size, __add_action, add_nested_action_start and _end,
    copy_action, validate_set, validate_and_copy_sample, __ovs_nla_copy_actions,
    ovs_nla_copy_actions and ovs_nla_put_actions in flow_netlink.c), proved to compute the
    functions of ActionCodec. */
module ActionBuffer {
  import opened Wrappers
  import opened Netlink
  import opened ActionCodec
  import opened ActionAcceptance

  const MAX_ACTIONS_BUFSIZE := 32 * 1024
  /** offsetof(struct sw_flow_actions, actions) and sizeof(struct sw_flow_actions). */
  const ACTIONS_OFFSET := 28
  const SFA_SIZE := 32
  /** The largest block the allocator rounds a request up to. */
  const MAX_KSIZE := 64 * 1024

  datatype Error = Inval | MsgSize | NoMem

  /** A request of n bytes, with some bytes used of a block of the given size, is refused or has its
      place within the block, as it is or after one doubling: beyond half of the maximum the
      request is checked, below it must fit. */
  predicate DoublingIsEnough(ksize: nat, used: nat, n: nat) {
    || ACTIONS_OFFSET + used + n <= ksize
    || 2 * ksize > MAX_ACTIONS_BUFSIZE
    || ACTIONS_OFFSET + used + n <= SFA_SIZE + 2 * ksize
  }

  /** What reserve_sfa_size gives: a place in a block of some size, here the smallest that the
      allocator may return, or a refusal. */
  datatype Reserved = Place(block: nat) | TooBig

  function Reserve(ksize: nat, used: nat, n: nat): Reserved {
    if n <= ksize - ACTIONS_OFFSET - used then Place(ksize)
    else if 2 * ksize > MAX_ACTIONS_BUFSIZE then
      if MAX_ACTIONS_BUFSIZE - ACTIONS_OFFSET - used < n then TooBig else Place(SFA_SIZE + MAX_ACTIONS_BUFSIZE)
    else Place(SFA_SIZE + 2 * ksize)
  }

  /** The place reserved lies within the block exactly under that condition. */
  lemma PlacedExactly(ksize: nat, used: nat, n: nat)
    ensures (Reserve(ksize, used, n).Place? ==> ACTIONS_OFFSET + used + n <= Reserve(ksize, used, n).block)
      <==> DoublingIsEnough(ksize, used, n)
  {
  }

  class FlowActions {
    /** The bytes in use, the size of the memory block, the length of the list that is being
        compiled, and whether a larger block may be unavailable. */
    var actions: Bytes
    var ksize: nat
    const origLen: nat
    const scarce: bool

    ghost predicate Valid()
      reads this
    {
      && |actions| % 4 == 0 && ACTIONS_OFFSET + |actions| <= ksize <= MAX_KSIZE
      && SFA_SIZE + origLen <= ksize && origLen <= MAX_ACTIONS_BUFSIZE
    }

    /** nla_alloc_flow_actions with memory at hand; the allocator may round up by extra. */
    constructor (size: nat, extra: nat, scarce: bool)
      requires size <= MAX_ACTIONS_BUFSIZE && SFA_SIZE + size + extra <= MAX_KSIZE
      ensures Valid() && actions == [] && origLen == size && this.scarce == scarce
    {
      actions, ksize, origLen, this.scarce := [], SFA_SIZE + size + extra, size, scarce;
    }

    /** What the compiler may ask for, in terms of the length of the list. */
    ghost predicate Affordable(n: nat)
      reads this
      ensures Valid() && Affordable(n) ==> DoublingIsEnough(ksize, |actions|, n)
    {
      |actions| + n <= 2 * (origLen + SFA_SIZE)
    }

    /** The compiler gives up other than for an invalid list only where a larger block may be
        unavailable, or for a list so long that its stored form may pass the maximum. */
    ghost predicate Excused(err: Option<Error>) {
      && (err == Some(NoMem) ==> scarce)
      && (err == Some(MsgSize) ==> ACTIONS_OFFSET + 2 * (origLen + SFA_SIZE) > MAX_ACTIONS_BUFSIZE)
    }

    /** reserve_sfa_size, and the data written to the place reserved. */
    method Append(data: Bytes) returns (err: Option<Error>)
      requires Valid() && |data| % 4 == 0 && DoublingIsEnough(ksize, |actions|, |data|)
      modifies this
      ensures Valid() && actions == if err.None? then old(actions) + data else old(actions)
      ensures err != Some(Inval)
      ensures ACTIONS_OFFSET + |old(actions)| + |data| <= old(ksize) ==> err.None?
      ensures err == Some(MsgSize) ==> ACTIONS_OFFSET + |actions| + |data| > MAX_ACTIONS_BUFSIZE
      ensures err == Some(NoMem) ==> scarce
    {
      var next := ACTIONS_OFFSET + |actions|;
      if |data| > ksize - next {
        var size := ksize * 2;
        if size > MAX_ACTIONS_BUFSIZE {
          if MAX_ACTIONS_BUFSIZE - next < |data| {
            return Some(MsgSize);
          }
          size := MAX_ACTIONS_BUFSIZE;
        }
        var memory: bool, block: nat := *, *;
        if scarce && !memory {
          return Some(NoMem);
        }
        ksize := if SFA_SIZE + size <= block <= MAX_KSIZE then block else SFA_SIZE + size;
      }
      WholeWords(|actions|, |data|);
      actions := actions + data;
      err := None;
    }

    /** __add_action. */
    method AddAction(typ: nat, data: Bytes) returns (err: Option<Error>)
      requires Valid() && Fits(Attr(typ, data)) && DoublingIsEnough(ksize, |actions|, Size(Attr(typ, data)))
      modifies this
      ensures Valid() && actions == if err.None? then old(actions) + Enc(Attr(typ, data)) else old(actions)
      ensures err != Some(Inval) && (old(Affordable(Size(Attr(typ, data)))) ==> Excused(err))
    {
      err := Append(Enc(Attr(typ, data)));
    }

    /** add_nested_action_start: an empty attribute, and its position. */
    method NestedStart(typ: nat) returns (err: Option<Error>, start: nat)
      requires Valid() && typ < U16 && DoublingIsEnough(ksize, |actions|, NLA_HDRLEN)
      modifies this
      ensures Valid() && start == |old(actions)| && err != Some(Inval)
      ensures actions == if err.None? then old(actions) + Enc(Attr(typ, [])) else old(actions)
      ensures old(Affordable(NLA_HDRLEN)) ==> Excused(err)
    {
      start := |actions|;
      err := AddAction(typ, []);
    }

    /** add_nested_action_end: everything since the start becomes the payload. */
    method NestedEnd(start: nat, typ: nat, ghost before: Bytes, ghost payload: Bytes)
      requires Valid() && typ < U16 && start == |before| && |payload| % 4 == 0
      requires actions == before + Enc(Attr(typ, [])) + payload
      modifies this
      ensures Valid() && NLA_HDRLEN + |payload| < U16 && actions == before + Enc(Attr(typ, payload))
    {
      PatchNests(before, typ, payload);
      actions := Patch(actions, start, |actions| - start);
    }
  }

  // -------------------------------------------------------------------------- compiling

  /** Stored bytes per byte of input. */
  lemma SetSize(d: Bytes)
    requires SetKey(d).Some?
    ensures var k := |SetKey(d).value.data|; NLA_HDRLEN + Align(NLA_HDRLEN + 2 * k) <= 2 * (NLA_HDRLEN + |d|)
  {
  }

  /** The conversion at the end of validate_set. */
  method ConvertSet(sfa: FlowActions, key: Attr) returns (err: Option<Error>)
    requires sfa.Valid() && SetLen(key.typ) == |key.data| > 0 && key.typ < NLA_TYPE_MASK
    requires sfa.Affordable(NLA_HDRLEN + Align(NLA_HDRLEN + 2 * |key.data|))
    modifies sfa
    ensures sfa.Valid() && err != Some(Inval) && sfa.Excused(err)
    ensures err.None? ==> sfa.actions == old(sfa.actions) + StoredSet(key)
  {
    ghost var before := sfa.actions;
    var start;
    err, start := sfa.NestedStart(OVS_ACTION_ATTR_SET_TO_MASKED);
    if err.None? {
      err := sfa.AddAction(key.typ, key.data + SetMask(key));
      if err.None? {
        sfa.NestedEnd(start, OVS_ACTION_ATTR_SET_TO_MASKED, before, Enc(Attr(key.typ, key.data + SetMask(key))));
      }
    }
  }

  /** actions_may_change_flow. */
  method ActionsMayChangeFlow(b: Bytes) returns (r: bool)
    ensures r <==> MayChangeFlow(b)
  {
    var rest := b;
    while Ok(rest)
      invariant MayChangeFlow(b) <==> MayChangeFlow(rest)
      decreases |rest|
    {
      var t := Strip(First(rest).typ);
      if !(t == OVS_ACTION_ATTR_OUTPUT || t == OVS_ACTION_ATTR_RECIRC
           || t == OVS_ACTION_ATTR_TRUNC || t == OVS_ACTION_ATTR_USERSPACE) {
        return true;
      }
      rest := Rest(rest);
    }
    r := false;
  }

  /** The attribute loop and the checks at the head of validate_and_copy_sample. */
  method ParseSample(d: Bytes) returns (r: Option<SampleParts>)
    ensures r == Sampled(d)
  {
    var rest, so := d, SampleFields(None, None);
    while rest != []
      invariant Fields(d, SampleFields(None, None)) == Fields(rest, so)
      decreases |rest|
    {
      if !Ok(rest) || Align(Get16(rest, 0)) > |rest| {
        return None;
      }
      var a := First(rest);
      var t := Strip(a.typ);
      if t == 0 || t > OVS_SAMPLE_ATTR_MAX {
        return None;
      }
      if t == OVS_SAMPLE_ATTR_PROBABILITY {
        if so.probability.Some? {
          return None;
        }
        so := so.(probability := Some(a.data));
      } else {
        if so.actions.Some? {
          return None;
        }
        so := so.(actions := Some(a.data));
      }
      rest := Rest(rest);
    }
    if so.probability.None? || |so.probability.value| != 4 {
      return None;
    }
    if so.actions.None? || 0 < |so.actions.value| < NLA_HDRLEN {
      return None;
    }
    r := Some(SampleParts(so.probability.value, so.actions.value));
  }

  /** Whole words of input that the first attribute takes. */
  ghost function Taken(b: Bytes): (n: nat)
    requires Ok(b)
    ensures n == Align(Get16(b, 0))
    ensures Align(|b|) == n + Align(|Rest(b)|)
  {
    AlignSplit(|b|, Get16(b, 0));
    Align(Get16(b, 0))
  }

  lemma AlignSplit(m: nat, n: nat)
    requires n <= m
    ensures Align(m) == Align(n) + (if Align(n) <= m then Align(m - Align(n)) else 0)
  {
    if Align(n) <= m {
      WholeWords(Align(n), Align(m - Align(n)));
      AlignUnique(m, Align(n) + Align(m - Align(n)));
    } else {
      AlignUnique(m, Align(n));
    }
  }

  /** A failed step fails the list, and an invalid one makes it invalid. */
  ghost predicate Compiles(err: Option<Error>, stored: Option<Bytes>, before: Bytes, after: Bytes) {
    && (err.None? ==> stored.Some? && after == before + stored.value)
    && (err == Some(Inval) ==> stored.None?)
  }

  /** A sample attribute whose length is still to be patched, and its argument. */
  ghost function SampleOpen(arg: Bytes): Bytes
    requires |arg| == 8
  {
    Enc(Attr(OVS_ACTION_ATTR_SAMPLE, [])) + Enc(Attr(OVS_SAMPLE_ATTR_ARG, arg))
  }

  /** The head of a stored sample: an open attribute and the argument in it. */
  method SampleHead(sfa: FlowActions, arg: Bytes) returns (err: Option<Error>, start: nat)
    requires sfa.Valid() && |arg| == 8 && sfa.Affordable(NLA_HDRLEN + 12)
    modifies sfa
    ensures sfa.Valid() && err != Some(Inval) && sfa.Excused(err) && start == |old(sfa.actions)|
    ensures err.None? ==> sfa.actions == old(sfa.actions) + SampleOpen(arg)
  {
    ghost var before := sfa.actions;
    err, start := sfa.NestedStart(OVS_ACTION_ATTR_SAMPLE);
    if err.None? {
      err := sfa.AddAction(OVS_SAMPLE_ATTR_ARG, arg);
      assert before + Enc(Attr(OVS_ACTION_ATTR_SAMPLE, [])) + Enc(Attr(OVS_SAMPLE_ATTR_ARG, arg)) ==
        before + SampleOpen(arg);
    }
  }

  /** Close a sample whose actions have been compiled. */
  method SampleEnd(sfa: FlowActions, start: nat, ghost before: Bytes, exec: bool, probability: Bytes, ghost inner: Bytes)
    requires sfa.Valid() && start == |before| && |probability| == 4 && |inner| % 4 == 0
    requires sfa.actions == before + SampleOpen(SampleArg(exec, probability)) + inner
    modifies sfa
    ensures sfa.Valid() && NLA_HDRLEN + 12 + |inner| < U16
    ensures sfa.actions == before + Enc(StoredSample(exec, probability, inner))
  {
    ghost var arg := Enc(Attr(OVS_SAMPLE_ATTR_ARG, SampleArg(exec, probability)));
    WholeWords(|arg|, |inner|);
    ghost var open := Enc(Attr(OVS_ACTION_ATTR_SAMPLE, []));
    assert before + (open + arg) + inner == before + open + (arg + inner);
    sfa.NestedEnd(start, OVS_ACTION_ATTR_SAMPLE, before, arg + inner);
  }

  /** validate_and_copy_sample. */
  method ValidateAndCopySample(sfa: FlowActions, d: Bytes, last: bool, context: Context, rules: Rules)
    returns (err: Option<Error>)
    requires sfa.Valid() && sfa.Affordable(2 * (NLA_HDRLEN + |d|))
    modifies sfa
    ensures sfa.Valid() && sfa.Excused(err)
    ensures Compiles(err, StoreSample(d, last, context, rules), old(sfa.actions), sfa.actions)
    decreases |d|, 2
  {
    ghost var before := sfa.actions;
    var parts := ParseSample(d);
    if parts.None? {
      return Some(Inval);
    }
    var probability, actions := parts.value.probability, parts.value.actions;
    SampleRoom(d);
    var mayChange := ActionsMayChangeFlow(actions);
    var exec := last || !mayChange;
    var start;
    err, start := SampleHead(sfa, SampleArg(exec, probability));
    if err.Some? {
      return;
    }
    err := CopyActions(sfa, actions, rules.nest(context), rules);
    if err.Some? {
      return;
    }
    SampleEnd(sfa, start, before, exec, probability, Store(actions, rules.nest(context), rules).value);
  }

  /** The input of a sample has room for a head, its probability and its actions. */
  lemma SampleRoom(d: Bytes)
    requires Sampled(d).Some?
    ensures 3 * NLA_HDRLEN + Align(|Sampled(d).value.actions|) <= |d|
  {
    FieldsRoom(d, SampleFields(None, None));
  }

  function Part(o: Option<Bytes>): nat {
    if o.None? then 0 else NLA_HDRLEN + Align(|o.value|)
  }

  lemma {:induction false} FieldsRoom(d: Bytes, so: SampleFields)
    requires Fields(d, so).Some?
    ensures var r := Fields(d, so).value;
      Part(r.probability) + Part(r.actions) <= Part(so.probability) + Part(so.actions) + |d|
    decreases |d|
  {
    if d != [] {
      var next := NextFields(d, so);
      PartStep(d, so);
      FieldsRoom(Rest(d), next);
    }
  }

  function NextFields(d: Bytes, so: SampleFields): SampleFields
    requires Ok(d)
  {
    var a := First(d);
    if Strip(a.typ) == OVS_SAMPLE_ATTR_PROBABILITY then so.(probability := Some(a.data)) else so.(actions := Some(a.data))
  }

  lemma PartStep(d: Bytes, so: SampleFields)
    requires Ok(d) && Align(Get16(d, 0)) <= |d|
    ensures var next := NextFields(d, so);
      Part(next.probability) + Part(next.actions) + |Rest(d)| <= Part(so.probability) + Part(so.actions) + |d|
  {
    AlignHeader(|First(d).data|);
  }

  lemma AlignHeader(n: nat)
    ensures Align(NLA_HDRLEN + n) == NLA_HDRLEN + Align(n)
  {
    AlignUnique(NLA_HDRLEN + n, NLA_HDRLEN + Align(n));
  }

  /** The stored form of a list takes at most two bytes for each byte of the list; connection
      tracking and tunnel sets are not among the lists that Store accepts. */
  lemma {:induction false} StoreSize(b: Bytes, context: Context, rules: Rules)
    requires Store(b, context, rules).Some?
    ensures |Store(b, context, rules).value| <= 2 * Align(|b|)
    decreases |b|, 1
  {
    if b != [] {
      StoreOneSize(b, context, rules);
      StoreSize(Rest(b), rules.check(context, First(b)).value, rules);
      assert Align(|b|) == Taken(b) + Align(|Rest(b)|);
    }
  }

  lemma {:induction false} StoreOneSize(b: Bytes, context: Context, rules: Rules)
    requires Ok(b) && StoreOne(b, context, rules).Some?
    ensures |StoreOne(b, context, rules).value| <= 2 * Taken(b)
    decreases |b|, 0
  {
    var d := First(b).data;
    var t := Strip(First(b).typ);
    if t == OVS_ACTION_ATTR_SET {
      SetSize(d);
    } else if t == OVS_ACTION_ATTR_SAMPLE {
      SampleRoom(d);
      StoreSize(Sampled(d).value.actions, rules.nest(context), rules);
    }
  }

  /** Size of the stored form of a connection tracking action (struct ovs_conntrack_info on a 64-bit
      build with address translation), which the input may ask for in four bytes. */
  const CT_INFO_SIZE := 112

  function Repeated(b: Bytes, n: nat): Bytes {
    if n == 0 then [] else b + Repeated(b, n - 1)
  }

  lemma {:induction false} RepeatedLength(b: Bytes, n: nat)
    ensures |Repeated(b, n)| == n * |b|
  {
    if n > 0 { RepeatedLength(b, n - 1); }
  }

  /** Connection tracking is the exception.  For a list of some sets of a four-byte key and then an
      empty connection tracking action, in a block that the allocator did not round up, the
      request for the latter is within one doubling exactly from five sets on. */
  lemma SetsThenTracking(key: Attr, n: nat)
    requires |key.data| == SetLen(key.typ) == 4 && key.typ < NLA_TYPE_MASK
    ensures
      var list, stored := Repeated(EncSet(key), n) + Enc(Attr(OVS_ACTION_ATTR_CT, [])), Repeated(StoredSet(key), n);
      DoublingIsEnough(SFA_SIZE + |list|, |stored|, NLA_HDRLEN + CT_INFO_SIZE) <==> n >= 5
  {
    RepeatedLength(EncSet(key), n);
    RepeatedLength(StoredSet(key), n);
  }

  /** One action of the list: converted, compiled, or copied. */
  method CopyOne(sfa: FlowActions, b: Bytes, context: Context, rules: Rules) returns (err: Option<Error>)
    requires sfa.Valid() && Ok(b) && sfa.Affordable(2 * Taken(b))
    modifies sfa
    ensures sfa.Valid() && sfa.Excused(err)
    ensures Compiles(err, StoreOne(b, context, rules), old(sfa.actions), sfa.actions)
    decreases |b|, 0, 0
  {
    var a := First(b);
    var t := Strip(a.typ);
    if t == OVS_ACTION_ATTR_SET {
      var key := SetKey(a.data);
      if key.None? {
        return Some(Inval);
      }
      SetSize(a.data);
      err := ConvertSet(sfa, key.value);
    } else if t == OVS_ACTION_ATTR_SAMPLE {
      err := ValidateAndCopySample(sfa, a.data, Get16(b, 0) == |b|, context, rules);
    } else if IsPlain(t) {
      err := sfa.Append(Copied(b));
    } else {
      err := Some(Inval);
    }
  }

  /** So far the bytes done have been stored; the rest of the list b is still to come and within
      the budget, and goal is what the whole list should give. */
  ghost predicate Underway(actions: Bytes, origLen: nat, before: Bytes, done: Bytes, b: Bytes, context: Context,
                           rules: Rules, goal: Option<Bytes>)
  {
    && actions == before + done && |actions| + 2 * Align(|b|) <= 2 * (origLen + SFA_SIZE)
    && goal == Glued(done, Store(b, context, rules))
  }

  /** Check the next action and take it over; next is what is known after it. */
  method CopyNext(sfa: FlowActions, b: Bytes, context: Context, rules: Rules, ghost before: Bytes, ghost done: Bytes,
                  ghost goal: Option<Bytes>)
    returns (err: Option<Error>, next: Context, ghost more: Bytes)
    requires sfa.Valid() && Underway(sfa.actions, sfa.origLen, before, done, b, context, rules, goal) && Ok(b)
    modifies sfa
    ensures sfa.Valid() && sfa.Excused(err) && (err == Some(Inval) ==> goal.None?)
    ensures err.None? ==> Underway(sfa.actions, sfa.origLen, before, more, Rest(b), next, rules, goal)
    decreases |b|, 0, 1
  {
    next, more := context, done;
    match rules.check(context, First(b))
    case None => err := Some(Inval);
    case Some(n) =>
      next := n;
      err := CopyOne(sfa, b, context, rules);
      if err.None? {
        ghost var one := StoreOne(b, context, rules).value;
        more := done + one;
        StepUnderway(old(sfa.actions), sfa.origLen, before, done, one, b, context, next, rules, goal);
      }
  }

  /** What is stored for the first action leaves twice the rest of the list within the budget. */
  lemma OneAndRest(b: Bytes, context: Context, rules: Rules)
    requires Ok(b) && StoreOne(b, context, rules).Some?
    ensures |StoreOne(b, context, rules).value| + 2 * Align(|Rest(b)|) <= 2 * Align(|b|)
  {
    StoreOneSize(b, context, rules);
    assert Align(|b|) == Taken(b) + Align(|Rest(b)|);
  }

  lemma StepFacts(done: Bytes, one: Bytes, b: Bytes, context: Context, next: Context, rules: Rules)
    requires Ok(b) && rules.check(context, First(b)) == Some(next) && StoreOne(b, context, rules) == Some(one)
    ensures Glued(done, Store(b, context, rules)) == Glued(done + one, Store(Rest(b), next, rules))
    ensures |one| + 2 * Align(|Rest(b)|) <= 2 * Align(|b|)
  {
    StoreStep(done, b, context, next, rules);
    OneAndRest(b, context, rules);
  }

  lemma StepUnderway(actions: Bytes, origLen: nat, before: Bytes, done: Bytes, one: Bytes, b: Bytes, context: Context,
                     next: Context, rules: Rules, goal: Option<Bytes>)
    requires Ok(b) && Underway(actions, origLen, before, done, b, context, rules, goal)
    requires rules.check(context, First(b)) == Some(next) && StoreOne(b, context, rules) == Some(one)
    ensures Underway(actions + one, origLen, before, done + one, Rest(b), next, rules, goal)
  {
    StepFacts(done, one, b, context, next, rules);
    StepBytes(actions, origLen, before, done, one, Align(|b|), Align(|Rest(b)|));
  }

  lemma StepBytes(actions: Bytes, origLen: nat, before: Bytes, done: Bytes, one: Bytes, room: nat, left: nat)
    requires actions == before + done && |actions| + 2 * room <= 2 * (origLen + SFA_SIZE)
    requires |one| + 2 * left <= 2 * room
    ensures actions + one == before + (done + one) && |actions + one| + 2 * left <= 2 * (origLen + SFA_SIZE)
  {
  }

  /** __ovs_nla_copy_actions. */
  method CopyActions(sfa: FlowActions, b: Bytes, context: Context, rules: Rules) returns (err: Option<Error>)
    requires sfa.Valid() && sfa.Affordable(2 * Align(|b|))
    modifies sfa
    ensures sfa.Valid() && sfa.Excused(err)
    ensures Compiles(err, Store(b, context, rules), old(sfa.actions), sfa.actions)
    decreases |b|, 1
  {
    var rest, now := b, context;
    ghost var before, done, goal := sfa.actions, [], Store(b, context, rules);
    GluedStart(goal);
    err := None;
    while err.None? && Ok(rest)
      invariant sfa.Valid() && sfa.Excused(err) && |rest| <= |b| && (err == Some(Inval) ==> goal.None?)
      invariant err.None? ==> Underway(sfa.actions, sfa.origLen, before, done, rest, now, rules, goal)
      decreases err.None?, |rest|
    {
      err, now, done := CopyNext(sfa, rest, now, rules, before, done, goal);
      rest := Rest(rest);
    }
    if err.None? {
      NothingLeft(done, rest, now, rules);
      err := if rest != [] then Some(Inval) else None;
    }
  }

  lemma NothingLeft(done: Bytes, b: Bytes, context: Context, rules: Rules)
    requires !Ok(b)
    ensures Glued(done, Store(b, context, rules)) == if b == [] then Some(done) else None
  {
    assert done + [] == done;
  }

  ghost function Glued(done: Bytes, more: Option<Bytes>): Option<Bytes> {
    if more.None? then None else Some(done + more.value)
  }

  lemma GluedStart(more: Option<Bytes>)
    ensures Glued([], more) == more
  {
    if more.Some? { assert [] + more.value == more.value; }
  }

  /** One turn of the loop. */
  lemma StoreStep(done: Bytes, b: Bytes, now: Context, next: Context, rules: Rules)
    requires Ok(b) && rules.check(now, First(b)) == Some(next) && StoreOne(b, now, rules).Some?
    ensures Glued(done, Store(b, now, rules)) ==
      Glued(done + StoreOne(b, now, rules).value, Store(Rest(b), next, rules))
  {
    GluedStep(done, StoreOne(b, now, rules).value, Store(Rest(b), next, rules));
  }

  lemma GluedStep(done: Bytes, one: Bytes, more: Option<Bytes>)
    ensures Glued(done, Glued(one, more)) == Glued(done + one, more)
  {
    if more.Some? { assert done + (one + more.value) == done + one + more.value; }
  }

  /** The list parses, the checks accept every action in it, and its samples are not too large. */
  ghost predicate IsValid(b: Bytes, context: Context, rules: Rules) {
    Tree(b).Some? && Passes(b, Tree(b).value, context, rules) && SamplesFit(Tree(b).value)
  }

  lemma ValidExactly(b: Bytes, context: Context, rules: Rules)
    ensures Store(b, context, rules).Some? <==> IsValid(b, context, rules)
  {
    AcceptedExactly(b, context, rules);
  }

  /** ovs_nla_copy_actions.  Besides computing the stored form, this shows that without connection
      tracking and tunnel sets the one doubling in reserve_sfa_size is enough for every request.
      With memory at hand a list that cannot grow beyond the maximum is compiled exactly if it is
      valid, and called invalid exactly if it is not. */
  method OvsNlaCopyActions(b: Bytes, context: Context, rules: Rules, extra: nat, scarce: bool)
    returns (sfa: FlowActions?, err: Option<Error>)
    requires |b| <= MAX_ACTIONS_BUFSIZE ==> SFA_SIZE + |b| + extra <= MAX_KSIZE
    ensures err.None? ==> sfa != null && Store(b, context, rules) == Some(sfa.actions)
    ensures err == Some(Inval) ==> |b| > MAX_ACTIONS_BUFSIZE || Store(b, context, rules).None?
    ensures !scarce && ACTIONS_OFFSET + 2 * (|b| + SFA_SIZE) <= MAX_ACTIONS_BUFSIZE ==>
      if IsValid(b, context, rules) then err.None? else err == Some(Inval)
    ensures |b| > MAX_ACTIONS_BUFSIZE ==> err == Some(Inval)
  {
    ValidExactly(b, context, rules);
    if |b| > MAX_ACTIONS_BUFSIZE {
      return null, Some(Inval);
    }
    var memory: bool := *;
    if scarce && !memory {
      return null, Some(NoMem);
    }
    sfa := new FlowActions(|b|, extra, scarce);
    err := CopyActions(sfa, b, context, rules);
    GluedStart(Store(b, context, rules));
    assert err.Some? ==> err.value == Inval || err.value == MsgSize || err.value == NoMem;
  }

  // --------------------------------------------------------------------------- printing

  /** The message being written for user space; room is what it can hold. */
  class Message {
    var data: Bytes
    const room: nat

    ghost predicate Valid()
      reads this
    {
      |data| <= room
    }

    constructor (room: nat)
      ensures Valid() && data == [] && this.room == room
    {
      data, this.room := [], room;
    }

    /** nla_put. */
    method Put(typ: nat, payload: Bytes) returns (ok: bool)
      requires Valid() && Fits(Attr(typ, payload))
      modifies this
      ensures Valid() && data == if ok then old(data) + Enc(Attr(typ, payload)) else old(data)
      ensures ok <==> |old(data)| + Size(Attr(typ, payload)) <= room
    {
      ok := |data| + Size(Attr(typ, payload)) <= room;
      if ok {
        data := data + Enc(Attr(typ, payload));
      }
    }

    /** nla_nest_start. */
    method NestStart(typ: nat) returns (ok: bool, start: nat)
      requires Valid() && typ < U16
      modifies this
      ensures Valid() && start == |old(data)| && data == if ok then old(data) + Enc(Attr(typ, [])) else old(data)
      ensures ok <==> |old(data)| + NLA_HDRLEN <= room
    {
      start := |data|;
      ok := Put(typ, []);
    }

    /** nla_nest_end. */
    method NestEnd(start: nat, typ: nat, ghost before: Bytes, ghost payload: Bytes)
      requires Valid() && typ < U16 && start == |before| && |payload| % 4 == 0 && NLA_HDRLEN + |payload| < U16
      requires data == before + Enc(Attr(typ, [])) + payload
      modifies this
      ensures Valid() && data == before + Enc(Attr(typ, payload))
    {
      PatchNests(before, typ, payload);
      data := Patch(data, start, |data| - start);
    }

    /** nla_nest_cancel. */
    method NestCancel(start: nat)
      requires Valid() && start <= |data|
      modifies this
      ensures Valid() && data == old(data[..start])
    {
      data := data[..start];
    }
  }

  /** masked_set_action_to_set_action_attr. */
  method MaskedSetToSet(a: Attr, skb: Message) returns (ok: bool)
    requires skb.Valid() && Fits(a) && Strip(a.typ) == OVS_ACTION_ATTR_SET_TO_MASKED && Ok(a.data)
    modifies skb
    ensures skb.Valid() && old(skb.data) <= skb.data && (ok <==> |old(skb.data)| + |PrintOne(a)| <= skb.room)
    ensures ok ==> skb.data == old(skb.data) + PrintOne(a)
  {
    ghost var before := skb.data;
    var key := First(a.data);
    var half := Attr(Strip(key.typ), key.data[..|key.data| / 2]);
    var start;
    ok, start := skb.NestStart(OVS_ACTION_ATTR_SET);
    if ok {
      ok := skb.Put(half.typ, half.data);
      if ok {
        skb.NestEnd(start, OVS_ACTION_ATTR_SET, before, Enc(half));
      }
    }
  }

  /** A message with an open sample whose actions are to follow. */
  ghost function SampleStarted(before: Bytes, probability: Bytes): Bytes
    requires |probability| == 4
  {
    before + Enc(Attr(OVS_ACTION_ATTR_SAMPLE, [])) + Enc(Attr(OVS_SAMPLE_ATTR_PROBABILITY, probability))
    + Enc(Attr(OVS_SAMPLE_ATTR_ACTIONS, []))
  }

  /** The part of sample_action_to_attr before the actions. */
  method SampleStart(probability: Bytes, skb: Message) returns (ok: bool, start: nat, acStart: nat)
    requires skb.Valid() && |probability| == 4
    modifies skb
    ensures skb.Valid() && start == |old(skb.data)| && old(skb.data) <= skb.data
    ensures ok <==> |old(skb.data)| + 3 * NLA_HDRLEN + 4 <= skb.room
    ensures ok ==> acStart == start + NLA_HDRLEN + 8 && skb.data == SampleStarted(old(skb.data), probability)
  {
    acStart := 0;
    ok, start := skb.NestStart(OVS_ACTION_ATTR_SAMPLE);
    if ok {
      ok := skb.Put(OVS_SAMPLE_ATTR_PROBABILITY, probability);
      if ok {
        ok, acStart := skb.NestStart(OVS_SAMPLE_ATTR_ACTIONS);
      }
    }
  }

  /** Close both nests of a sample. */
  method SampleFinish(skb: Message, start: nat, acStart: nat, ghost before: Bytes, ghost probability: Bytes,
                      ghost inner: Bytes)
    requires skb.Valid() && |probability| == 4 && |inner| % 4 == 0 && 3 * NLA_HDRLEN + 4 + |inner| < U16
    requires start == |before| && acStart == start + NLA_HDRLEN + 8
    requires skb.data == SampleStarted(before, probability) + inner
    modifies skb
    ensures skb.Valid() && skb.data == before + Enc(EncSample(probability, inner))
  {
    ghost var open, p := Enc(Attr(OVS_ACTION_ATTR_SAMPLE, [])), Enc(Attr(OVS_SAMPLE_ATTR_PROBABILITY, probability));
    skb.NestEnd(acStart, OVS_SAMPLE_ATTR_ACTIONS, before + open + p, inner);
    ghost var acts := Enc(Attr(OVS_SAMPLE_ATTR_ACTIONS, inner));
    assert before + open + p + acts == before + open + (p + acts);
    skb.NestEnd(start, OVS_ACTION_ATTR_SAMPLE, before, p + acts);
  }

  lemma PrintedSample(a: Attr)
    requires Fits(a) && Strip(a.typ) == OVS_ACTION_ATTR_SAMPLE && IsStoredSample(a.data)
    ensures |Rest(a.data)| % 4 == 0 && |PrintOne(a)| == 3 * NLA_HDRLEN + 4 + |Print(Rest(a.data))|
    ensures 3 * NLA_HDRLEN + 4 + |Print(Rest(a.data))| < U16
    ensures PrintOne(a) == Enc(EncSample(First(a.data).data[4..], Print(Rest(a.data))))
  {
    RestWords(a.data);
  }

  /** sample_action_to_attr. */
  method SampleToAttr(a: Attr, skb: Message) returns (ok: bool)
    requires skb.Valid() && Fits(a) && Strip(a.typ) == OVS_ACTION_ATTR_SAMPLE && IsStoredSample(a.data)
    modifies skb
    ensures skb.Valid() && skb.data == if ok then old(skb.data) + PrintOne(a) else old(skb.data)
    ensures ok <==> |old(skb.data)| + |PrintOne(a)| <= skb.room
    decreases NLA_HDRLEN + |a.data|, 0
  {
    ghost var before := skb.data;
    PrintedSample(a);
    var arg := First(a.data);
    var start, acStart;
    ok, start, acStart := SampleStart(arg.data[4..], skb);
    if ok {
      ok := PutActions(Rest(a.data), skb);
      if ok {
        SampleFinish(skb, start, acStart, before, arg.data[4..], Print(Rest(a.data)));
        return;
      }
    }
    skb.NestCancel(start);
  }

  /** The bytes done have been printed, the stored actions s are still to come, and goal is what
      is wanted altogether. */
  ghost predicate Printing(data: Bytes, before: Bytes, done: Bytes, s: Bytes, goal: Bytes) {
    |s| % 4 == 0 && data == before + done && goal == done + Print(s)
  }

  /** Print the next stored action. */
  method PutNext(s: Bytes, skb: Message, ghost before: Bytes, ghost done: Bytes, ghost goal: Bytes)
    returns (ok: bool, ghost more: Bytes)
    requires skb.Valid() && Ok(s) && Printing(skb.data, before, done, s, goal)
    modifies skb
    ensures skb.Valid() && before <= skb.data && (!ok ==> |before| + |goal| > skb.room)
    ensures ok ==> Printing(skb.data, before, more, Rest(s), goal)
    decreases |s|, 2
  {
    NextPrinting(skb.data, before, done, s, goal);
    more := done + PrintOne(First(s));
    ok := PutOne(First(s), skb);
  }

  lemma NextPrinting(data: Bytes, before: Bytes, done: Bytes, s: Bytes, goal: Bytes)
    requires Ok(s) && Printing(data, before, done, s, goal)
    ensures Fits(First(s)) && before <= data
    ensures Printing(data + PrintOne(First(s)), before, done + PrintOne(First(s)), Rest(s), goal)
  {
    PrintStep(done, s);
    Assoc(before, done, PrintOne(First(s)));
  }

  /** Nothing is left to print. */
  lemma PrintingEnds(data: Bytes, before: Bytes, done: Bytes, s: Bytes, goal: Bytes)
    requires !Ok(s) && Printing(data, before, done, s, goal)
    ensures data == before + goal && |data| == |before| + |goal|
  {
    assert done + [] == done;
  }

  lemma PrintingStarts(before: Bytes, s: Bytes)
    requires |s| % 4 == 0
    ensures Printing(before, before, [], s, Print(s))
  {
    assert [] + Print(s) == Print(s) && before + [] == before;
  }

  /** ovs_nla_put_actions: the printed form is appended exactly if the message has room for it. */
  method PutActions(s: Bytes, skb: Message) returns (ok: bool)
    requires skb.Valid() && |s| % 4 == 0
    modifies skb
    ensures skb.Valid() && old(skb.data) <= skb.data && (ok <==> |old(skb.data)| + |Print(s)| <= skb.room)
    ensures ok ==> skb.data == old(skb.data) + Print(s)
    decreases |s|, 3
  {
    var rest := s;
    ghost var before, done, goal := skb.data, [], Print(s);
    PrintingStarts(before, s);
    ok := true;
    while ok && Ok(rest)
      invariant skb.Valid() && |rest| <= |s| && before <= skb.data && (!ok ==> |before| + |goal| > skb.room)
      invariant ok ==> Printing(skb.data, before, done, rest, goal)
      decreases ok, |rest|
    {
      ok, done := PutNext(rest, skb, before, done, goal);
      rest := Rest(rest);
    }
    if ok { PrintingEnds(skb.data, before, done, rest, goal); }
  }

  lemma PrintStep(done: Bytes, s: Bytes)
    requires |s| % 4 == 0 && Ok(s)
    ensures |Rest(s)| % 4 == 0 && Fits(First(s))
    ensures done + Print(s) == (done + PrintOne(First(s))) + Print(Rest(s))
  {
    RestWords(s);
    Assoc(done, PrintOne(First(s)), Print(Rest(s)));
  }

  /** One stored action. */
  method PutOne(a: Attr, skb: Message) returns (ok: bool)
    requires skb.Valid() && Fits(a)
    modifies skb
    ensures skb.Valid() && old(skb.data) <= skb.data && (ok <==> |old(skb.data)| + |PrintOne(a)| <= skb.room)
    ensures ok ==> skb.data == old(skb.data) + PrintOne(a)
    decreases NLA_HDRLEN + |a.data|, 1
  {
    var t := Strip(a.typ);
    if t == OVS_ACTION_ATTR_SET_TO_MASKED && Ok(a.data) {
      ok := MaskedSetToSet(a, skb);
    } else if t == OVS_ACTION_ATTR_SAMPLE && IsStoredSample(a.data) {
      ok := SampleToAttr(a, skb);
    } else {
      ok := skb.Put(t, a.data);
    }
  }
}
