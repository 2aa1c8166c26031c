/** What the STT table keeps over whole runs of packets and clean-ups: the accounting bound,
    one unexpired slot per packet, and that packets do not disturb each other except by
    losing their slot. */
module SttRuns {
  import opened Wrappers
  import opened Pieces
  import opened SttChain
  import opened SttTable

  /** clean_percpu from slot j on. */
  function Sweep(t: Table, now: int, j: nat): (r: Table)
    requires Inv(t) && j <= |t.slots|
    ensures Inv(r)
    ensures forall s :: 0 <= s < |t.slots| ==>
      r.slots[s] == if s >= j && t.slots[s].Used? && now > t.slots[s].stamp + FRAG_EXP_TIME then Empty else t.slots[s]
    decreases |t.slots| - j
  {
    if j == |t.slots| then t
    else if t.slots[j].Used? && now > t.slots[j].stamp + FRAG_EXP_TIME then Sweep(Free(t, j), now, j + 1)
    else Sweep(t, now, j + 1)
  }

  // ------------------------------------------------------------------ one slot per packet

  /** A used slot is among the candidates of its packet. */
  ghost predicate Keyed(slots: seq<Slot>, hash: Key -> nat) {
    forall s :: 0 <= s < |slots| && slots[s].Used? ==> s in Candidates(hash, slots[s].key)
  }

  ghost predicate Unique(slots: seq<Slot>, now: int) {
    forall i, j :: 0 <= i < j < |slots| && Fresh(slots[i], now) && Fresh(slots[j], now) ==> slots[i].key != slots[j].key
  }

  ghost predicate Tidy(t: Table, now: int, hash: Key -> nat) {
    Inv(t) && Keyed(t.slots, hash) && Unique(t.slots, now)
  }

  /** r has lost some slots of t and gained none. */
  ghost predicate Fewer(t: seq<Slot>, r: seq<Slot>) {
    |r| == |t| && forall s :: 0 <= s < |t| ==> r[s] == t[s] || r[s].Empty?
  }

  lemma {:induction false} EvictFewer(t: Table)
    requires Inv(t)
    ensures Fewer(t.slots, Evict(t).slots)
    decreases |t.lru|
  {
    if t.lru != [] && t.mem > REASM_LO_THRESH {
      OldestIsUsed(t);
      EvictFewer(Free(t, t.lru[0]));
    }
  }

  lemma FewerTidy(t: Table, r: Table, now: int, later: int, hash: Key -> nat)
    requires Tidy(t, now, hash) && Inv(r) && Fewer(t.slots, r.slots) && now <= later
    ensures Tidy(r, later, hash)
  {
  }

  /** Room for the arrival and a slot for its packet. */
  function Placed(t: Table, key: Key, a: Arrival, now: int, hash: Key -> nat): (nat, Table)
    requires Inv(t)
  {
    Lookup(Room(t, a), Candidates(hash, key), key, now)
  }

  lemma LookupFewer(t: Table, cs: seq<nat>, key: Key, now: int)
    requires Inv(t) && InRange(cs, |t.slots|) && cs != []
    ensures var (i, u) := Lookup(t, cs, key, now);
      && Fewer(t.slots, u.slots) && i in cs
      && (u.slots[i].Used? ==> Matches(u.slots[i], key, now))
      && (u.slots[i].Empty? ==> forall k :: 0 <= k < |cs| ==> !Matches(u.slots[cs[k]], key, now))
  {
  }

  lemma PlacedFewer(t: Table, key: Key, a: Arrival, now: int, hash: Key -> nat)
    requires Inv(t)
    ensures var (i, u) := Placed(t, key, a, now, hash);
      && Inv(u) && Fewer(t.slots, u.slots) && i in Candidates(hash, key)
      && (u.slots[i].Used? ==> Matches(u.slots[i], key, now))
      && (u.slots[i].Empty? ==> forall c: nat :: c in Candidates(hash, key) ==> !Matches(u.slots[c], key, now))
  {
    EvictFewer(t);
    LookupFewer(Room(t, a), Candidates(hash, key), key, now);
  }

  /** What reassemble does to the slots: at most one is written, and it belongs to the packet. */
  lemma ReassembleSlots(t: Table, key: Key, a: Arrival, now: int, hash: Key -> nat)
    requires Inv(t) && Partial(a)
    ensures var (i, u) := Placed(t, key, a, now, hash);
      var r := Reassemble(t, key, a, now, hash).0;
      && r.slots == u.slots[i := r.slots[i]]
      && (r.slots[i].Used? ==> r.slots[i].key == key && i in Candidates(hash, key))
      && (r.slots[i].Used? ==> r.slots[i].stamp == if u.slots[i].Used? then u.slots[i].stamp else now)
  {
    PlacedFewer(t, key, a, now, hash);
  }

  lemma ReassembleTidy(t: Table, key: Key, a: Arrival, now: int, later: int, hash: Key -> nat)
    requires Tidy(t, now, hash) && now <= later
    ensures Tidy(Reassemble(t, key, a, later, hash).0, later, hash)
  {
    if Partial(a) {
      var (i, u) := Placed(t, key, a, later, hash);
      var r := Reassemble(t, key, a, later, hash).0;
      PlacedFewer(t, key, a, later, hash);
      FewerTidy(t, u, now, later, hash);
      ReassembleSlots(t, key, a, later, hash);
      WriteUnique(u.slots, i, r.slots[i], key, later, hash);
    }
  }

  lemma WriteUnique(slots: seq<Slot>, i: nat, s: Slot, key: Key, now: int, hash: Key -> nat)
    requires Keyed(slots, hash) && Unique(slots, now) && i < |slots| == FRAG_HASH_ENTRIES
    requires s.Used? ==> s.key == key && i in Candidates(hash, key)
    requires slots[i].Used? ==> Matches(slots[i], key, now)
    requires slots[i].Empty? ==> forall c: nat :: c in Candidates(hash, key) ==> !Matches(slots[c], key, now)
    ensures Keyed(slots[i := s], hash) && Unique(slots[i := s], now)
  {
    var r := slots[i := s];
    forall j | 0 <= j < |r| && j != i && Fresh(r[j], now) && s.Used?
      ensures r[j].key != s.key
    {
      assert r[j].key == key ==> j in Candidates(hash, key);
    }
  }

  /** Slot i is the only one that differs.  It is a candidate of the packet and held it, or none did;
      if it held another packet, or an expired one, no candidate was free and it was the one
      stored first.  The time of a slot is that of its first segment. */
  ghost predicate OneWritten(base: seq<Slot>, r: seq<Slot>, i: nat, cs: seq<nat>, key: Key, now: int)
    requires InRange(cs, |base|)
  {
    && i in cs && i < |base| == |r|
    && (forall s :: 0 <= s < |base| && s != i ==> r[s] == base[s])
    && (Matches(base[i], key, now) || forall k :: 0 <= k < |cs| ==> !Matches(base[cs[k]], key, now))
    && (base[i].Used? && !Matches(base[i], key, now) ==>
         forall k :: 0 <= k < |cs| ==> base[cs[k]].Used? && base[i].stamp <= base[cs[k]].stamp)
    && (r[i].Used? ==> r[i].key == key && r[i].stamp == if Matches(base[i], key, now) then base[i].stamp else now)
  }

  /** So little an arrival does to the table, once room has been made if it would pass the high mark. */
  lemma DisturbsLittle(t: Table, key: Key, a: Arrival, now: int, hash: Key -> nat) returns (i: nat)
    requires Inv(t) && Partial(a)
    ensures var base := if t.mem + a.truesize > 4 * 1024 * 1024 then Evict(t) else t;
      OneWritten(base.slots, Reassemble(t, key, a, now, hash).0.slots, i, Candidates(hash, key), key, now)
  {
    var base := if t.mem + a.truesize > 4 * 1024 * 1024 then Evict(t) else t;
    var (k, u) := Placed(t, key, a, now, hash);
    PlacedFewer(t, key, a, now, hash);
    ReassembleSlots(t, key, a, now, hash);
    WrittenWhereFound(base, k, u, Reassemble(t, key, a, now, hash).0.slots, Candidates(hash, key), key, now);
    i := k;
  }

  lemma WrittenWhereFound(t: Table, i: nat, u: Table, r: seq<Slot>, cs: seq<nat>, key: Key, now: int)
    requires Inv(t) && InRange(cs, |t.slots|) && cs != [] && (i, u) == Lookup(t, cs, key, now)
    requires |r| == |u.slots| && r == u.slots[i := r[i]]
    requires r[i].Used? ==> r[i].key == key && r[i].stamp == if u.slots[i].Used? then u.slots[i].stamp else now
    ensures OneWritten(t.slots, r, i, cs, key, now)
  {
  }

  // ------------------------------------------------------------------------- accounting

  function Max(a: int, b: int): int {
    if a > b then a else b
  }

  /** Copying a segment into the head adds no more than the segment takes by itself. */
  predicate Fair(a: Arrival) {
    a.copied.Some? ==> a.copied.value <= a.truesize
  }

  /** One arrival leaves the accounted memory at or below the larger of the high mark and the
      low mark plus its own size, or does not raise it at all. */
  lemma ReassembleBound(t: Table, key: Key, a: Arrival, now: int, hash: Key -> nat)
    requires Inv(t) && Fair(a)
    ensures var r := Reassemble(t, key, a, now, hash).0;
      r.mem == t.mem || 0 <= r.mem <= Max(REASM_HI_THRESH, REASM_LO_THRESH + a.truesize)
  {
    SumMemBounds(Reassemble(t, key, a, now, hash).0.slots);
    if Partial(a) {
      EvictsOldest(t);
      LookupMem(Room(t, a), Candidates(hash, key), key, now);
      var (i, u) := Placed(t, key, a, now, hash);
      if u.slots[i].Used? { AdvanceMem(u, i, a); }
    }
  }

  lemma LookupMem(t: Table, cs: seq<nat>, key: Key, now: int)
    requires Inv(t) && InRange(cs, |t.slots|) && cs != []
    ensures Lookup(t, cs, key, now).1.mem <= t.mem
  {
  }

  lemma AdvanceMem(t: Table, i: nat, a: Arrival)
    requires Inv(t) && i < |t.slots| && t.slots[i].Used? && Partial(a) && Fair(a)
    ensures Advance(t, i, a).0.mem <= t.mem + a.truesize
  {
  }

  // ------------------------------------------------------------------------------- runs

  datatype Event = Packet(now: int, key: Key, a: Arrival) | Clean(now: int)

  function Empties(n: nat): (s: seq<Slot>)
    ensures |s| == n && forall i :: 0 <= i < n ==> s[i] == Empty
  {
    if n == 0 then [] else [Empty] + Empties(n - 1)
  }

  function NewTable(): (t: Table)
    ensures Inv(t)
  {
    var s := Empties(FRAG_HASH_ENTRIES);
    SumMemBounds(s);
    Table(s, [], 0)
  }

  function Step(t: Table, e: Event, hash: Key -> nat): (r: Table)
    requires Inv(t)
    ensures Inv(r)
  {
    match e
    case Packet(now, key, a) => Reassemble(t, key, a, now, hash).0
    case Clean(now) => Sweep(t, now, 0)
  }

  function Run(es: seq<Event>, hash: Key -> nat): (t: Table)
    ensures Inv(t)
  {
    if es == [] then NewTable() else Step(Run(es[..|es| - 1], hash), es[|es| - 1], hash)
  }

  ghost predicate Ordered(es: seq<Event>) {
    forall i, j :: 0 <= i < j < |es| ==> es[i].now <= es[j].now
  }

  /** Every truesize fits the bound and copying is fair. */
  ghost predicate Sized(es: seq<Event>, truesize: nat) {
    forall i :: 0 <= i < |es| && es[i].Packet? ==> es[i].a.truesize <= truesize && Fair(es[i].a)
  }

  lemma SweepBound(t: Table, now: int, j: nat)
    requires Inv(t) && j <= |t.slots|
    ensures 0 <= Sweep(t, now, j).mem <= t.mem
    decreases |t.slots| - j
  {
    SumMemBounds(t.slots);
    if j < |t.slots| {
      SweepBound(if t.slots[j].Used? && now > t.slots[j].stamp + FRAG_EXP_TIME then Free(t, j) else t, now, j + 1);
    }
  }

  lemma StepTidy(t: Table, e: Event, now: int, later: int, hash: Key -> nat)
    requires Tidy(t, now, hash) && now <= e.now <= later
    ensures Tidy(Step(t, e, hash), later, hash)
  {
    if e.Packet? {
      ReassembleTidy(t, e.key, e.a, now, e.now, hash);
      FewerTidy(Step(t, e, hash), Step(t, e, hash), e.now, later, hash);
    } else {
      FewerTidy(t, Step(t, e, hash), now, later, hash);
    }
  }

  /** Over every run: the accounting is exact, the LRU list names the used slots once each, no
      packet has two unexpired slots, and memory stays below its bound. */
  lemma {:induction false} RunInvariant(es: seq<Event>, hash: Key -> nat, now: int, truesize: nat)
    requires Ordered(es) && Sized(es, truesize)
    requires es != [] ==> es[|es| - 1].now <= now
    ensures Tidy(Run(es, hash), now, hash)
    ensures 0 <= Run(es, hash).mem <= Max(REASM_HI_THRESH, REASM_LO_THRESH + truesize)
  {
    if es != [] {
      var before, e := es[..|es| - 1], es[|es| - 1];
      RunInvariant(before, hash, e.now, truesize);
      var t := Run(before, hash);
      StepTidy(t, e, e.now, now, hash);
      match e {
        case Packet(_, key, a) => ReassembleBound(t, key, a, e.now, hash);
        case Clean(_) => SweepBound(t, e.now, 0);
      }
    }
  }

  // ------------------------------------------------------- packets do not mix in the table

  /** The chain lookup_frag finds for a packet. */
  ghost function View(t: Table, key: Key, now: int, hash: Key -> nat): Option<Chain>
    requires Inv(t)
  {
    match Find(t.slots, Candidates(hash, key), key, now)
    case Some(i) => Some(t.slots[i].chain)
    case None => None
  }

  lemma ViewSome(t: Table, key: Key, now: int, hash: Key -> nat, s: nat)
    requires Tidy(t, now, hash) && s < |t.slots| && Matches(t.slots[s], key, now)
    ensures Find(t.slots, Candidates(hash, key), key, now) == Some(s)
  {
    assert s in Candidates(hash, key);
  }

  /** If everything that now answers for a packet answered before, nothing has changed for the
      packet or its chain is gone. */
  lemma ViewShrinks(t: Table, r: Table, key: Key, now: int, later: int, hash: Key -> nat)
    requires Tidy(t, now, hash) && Inv(r)
    requires forall s: nat :: s < |r.slots| && Matches(r.slots[s], key, later) ==>
      r.slots[s] == t.slots[s] && Matches(t.slots[s], key, now)
    ensures View(r, key, later, hash) == View(t, key, now, hash) || View(r, key, later, hash) == None
  {
    var f := Find(r.slots, Candidates(hash, key), key, later);
    if f.Some? {
      ViewSome(t, key, now, hash, f.value);
    }
  }

  /** A fragment of the packet. */
  ghost predicate Own(e: Event, key: Key) {
    e.Packet? && e.key == key && Partial(e.a)
  }

  /** Another event cannot change the chain of a packet; it can only take its slot. */
  lemma OthersOnlyEvict(t: Table, e: Event, key: Key, now: int, hash: Key -> nat)
    requires Tidy(t, now, hash) && now <= e.now && !Own(e, key)
    ensures var v := View(Step(t, e, hash), key, e.now, hash);
      v == View(t, key, now, hash) || v == None
  {
    if e.Packet? && Partial(e.a) {
      PlacedFewer(t, e.key, e.a, e.now, hash);
      ReassembleSlots(t, e.key, e.a, e.now, hash);
    }
    ViewShrinks(t, Step(t, e, hash), key, now, e.now, hash);
  }

  lemma NothingMatches(t: Table, key: Key, now: int, hash: Key -> nat)
    requires Inv(t) && forall s: nat :: s < |t.slots| ==> !Matches(t.slots[s], key, now)
    ensures View(t, key, now, hash) == None
  {
  }

  /** Making room can take the chain of a packet, and do nothing else to it. */
  lemma RoomOnlyEvicts(t: Table, key: Key, a: Arrival, now: int, later: int, hash: Key -> nat)
    requires Tidy(t, now, hash) && now <= later
    ensures Tidy(Room(t, a), later, hash)
    ensures var v := View(Room(t, a), key, later, hash); v == View(t, key, now, hash) || v == None
  {
    EvictFewer(t);
    FewerTidy(t, Room(t, a), now, later, hash);
    ViewShrinks(t, Room(t, a), key, now, later, hash);
  }

  /** A fragment that finds its packet, once room has been made. */
  lemma OwnFound(t: Table, i: nat, key: Key, a: Arrival, now: int, hash: Key -> nat)
    requires Tidy(t, now, hash) && Partial(a) && i < |t.slots| && Matches(Room(t, a).slots[i], key, now)
    ensures var (r, v) := Reassemble(t, key, a, now, hash);
      (View(r, key, now, hash), v) == Accept(Some(Room(t, a).slots[i].chain), a)
  {
    var u := Room(t, a);
    RoomOnlyEvicts(t, key, a, now, now, hash);
    ViewSome(u, key, now, hash, i);
    var (r, v) := Reassemble(t, key, a, now, hash);
    assert (r, v) == Advance(u, i, a);
    ReassembleTidy(t, key, a, now, now, hash);
    if r.slots[i].Used? {
      ViewSome(r, key, now, hash, i);
    } else {
      forall s: nat | s < |r.slots|
        ensures !Matches(r.slots[s], key, now)
      {
        if s != i { assert r.slots[s] == u.slots[s] && u.slots[i].key == key; }
      }
      NothingMatches(r, key, now, hash);
    }
  }

  /** The first fragment of a packet. */
  lemma OwnStarts(t: Table, key: Key, a: Arrival, now: int, hash: Key -> nat)
    requires Tidy(t, now, hash) && Partial(a) && View(Room(t, a), key, now, hash) == None
    ensures var (r, v) := Reassemble(t, key, a, now, hash);
      (View(r, key, now, hash), v) == Accept(None, a)
  {
    var (i, u) := Placed(t, key, a, now, hash);
    var r := Reassemble(t, key, a, now, hash).0;
    ReassembleTidy(t, key, a, now, now, hash);
    assert u.slots[i].Empty? && r == Store(u, i, key, a, now);
    ViewSome(r, key, now, hash, i);
  }

  // ------------------------------------------------------- the list is in order of use

  lemma {:induction false} SweepSorted(t: Table, now: int, j: nat, u: seq<nat>)
    requires Inv(t) && j <= |t.slots| && SortedBy(t.lru, u)
    ensures SortedBy(Sweep(t, now, j).lru, u)
    decreases |t.slots| - j
  {
    if j < |t.slots| {
      var free := t.slots[j].Used? && now > t.slots[j].stamp + FRAG_EXP_TIME;
      if free { UnlistedSorted(t.lru, j, u); }
      SweepSorted(if free then Free(t, j) else t, now, j + 1, u);
    }
  }

  /** A segment kept moves the slot of its packet to the end, and no other event moves a slot. */
  lemma {:induction false} ReassembleSorted(t: Table, key: Key, a: Arrival, now: int, hash: Key -> nat, u: seq<nat>, n: nat)
    requires Tidy(t, now, hash) && |u| == |t.slots| && SortedBy(t.lru, u) && forall s :: 0 <= s < |u| ==> u[s] < n
    ensures var (r, v) := Reassemble(t, key, a, now, hash);
      if v != Kept then SortedBy(r.lru, u)
      else
        var f := Find(r.slots, Candidates(hash, key), key, now);
        f.Some? && f.value < |u| && SortedBy(r.lru, u[f.value := n])
  {
    var (r, v) := Reassemble(t, key, a, now, hash);
    ReassembleTidy(t, key, a, now, now, hash);
    if Partial(a) {
      var (i, w) := Placed(t, key, a, now, hash);
      PlacedSorted(t, key, a, now, hash, u);
      PlacedFewer(t, key, a, now, hash);
      UnlistedHas(w.lru, i);
      UnlistedSorted(w.lru, i, u);
      if v == Kept {
        ViewSome(r, key, now, hash, i);
        AppendSorted(if w.slots[i].Empty? then w.lru else Unlisted(w.lru, i), u, i, n);
      }
    }
  }

  lemma {:induction false} PlacedSorted(t: Table, key: Key, a: Arrival, now: int, hash: Key -> nat, u: seq<nat>)
    requires Inv(t) && SortedBy(t.lru, u)
    ensures SortedBy(Placed(t, key, a, now, hash).1.lru, u)
  {
    EvictSorted(t, u);
    UnlistedSorted(Room(t, a).lru, Victim(Room(t, a).slots, Candidates(hash, key)), u);
  }

  /** When each slot was last used: the number of the latest event that brought a segment kept for
      the packet in it. */
  ghost function LastUses(es: seq<Event>, hash: Key -> nat): (u: seq<nat>)
    ensures |u| == FRAG_HASH_ENTRIES && forall s :: 0 <= s < |u| ==> u[s] <= |es|
  {
    if es == [] then seq(FRAG_HASH_ENTRIES, _ => 0)
    else
      var before, e := es[..|es| - 1], es[|es| - 1];
      var u := LastUses(before, hash);
      if e.Clean? || Reassemble(Run(before, hash), e.key, e.a, e.now, hash).1 != Kept then u
      else
        match Find(Run(es, hash).slots, Candidates(hash, e.key), e.key, e.now)
        case Some(s) => u[s := |es|]
        case None => u
  }

  /** Over every run the list is in the order in which the slots were last used, so that those
      evicted first are those unused for longest. */
  lemma {:induction false} ListedByUse(es: seq<Event>, hash: Key -> nat)
    requires Ordered(es)
    ensures SortedBy(Run(es, hash).lru, LastUses(es, hash))
  {
    if es != [] {
      var before, e := es[..|es| - 1], es[|es| - 1];
      ListedByUse(before, hash);
      RunTidy(before, hash, e.now);
      match e
      case Packet(now, key, a) => ReassembleSorted(Run(before, hash), key, a, now, hash, LastUses(before, hash), |es|);
      case Clean(now) => SweepSorted(Run(before, hash), now, 0, LastUses(before, hash));
    }
  }

  function LastTime(es: seq<Event>): int {
    if es == [] then 0 else es[|es| - 1].now
  }

  /** The fragments of one packet, in order of arrival. */
  ghost function Arrivals(es: seq<Event>, key: Key): seq<Arrival> {
    if es == [] then []
    else
      var before, e := Arrivals(es[..|es| - 1], key), es[|es| - 1];
      if Own(e, key) then before + [e.a] else before
  }

  /** The packet never loses its slot: once it has a chain, neither the passage of time nor room
      made for a further fragment of it nor another event takes that chain away. */
  ghost predicate Undisturbed(es: seq<Event>, key: Key, hash: Key -> nat) {
    if es == [] then true
    else
      var before, e := es[..|es| - 1], es[|es| - 1];
      var t := Run(before, hash);
      var was := View(t, key, LastTime(before), hash);
      && Undisturbed(before, key, hash)
      && (was.Some? ==> View(if Own(e, key) then Room(t, e.a) else Step(t, e, hash), key, e.now, hash).Some?)
  }

  lemma {:induction false} RunTidy(es: seq<Event>, hash: Key -> nat, now: int)
    requires Ordered(es) && (es != [] ==> es[|es| - 1].now <= now)
    ensures Tidy(Run(es, hash), now, hash)
  {
    if es != [] {
      var before, e := es[..|es| - 1], es[|es| - 1];
      RunTidy(before, hash, e.now);
      StepTidy(Run(before, hash), e, e.now, now, hash);
    }
  }

  /** A fragment of a packet whose chain, if it has one, survives the room made for it. */
  lemma OwnStep(t: Table, key: Key, a: Arrival, now: int, later: int, hash: Key -> nat)
    requires Tidy(t, now, hash) && now <= later && Partial(a)
    requires View(t, key, now, hash).Some? ==> View(Room(t, a), key, later, hash).Some?
    ensures var (r, v) := Reassemble(t, key, a, later, hash);
      (View(r, key, later, hash), v) == Accept(View(t, key, now, hash), a)
  {
    RoomOnlyEvicts(t, key, a, now, later, hash);
    FewerTidy(t, t, now, later, hash);
    var f := Find(Room(t, a).slots, Candidates(hash, key), key, later);
    if f.Some? {
      OwnFound(t, f.value, key, a, later, hash);
    } else {
      OwnStarts(t, key, a, later, hash);
    }
  }

  /** The table before the last event, and what the packet's chain was. */
  lemma {:induction false} BeforeLast(es: seq<Event>, key: Key, hash: Key -> nat) returns (now: int)
    requires es != [] && Ordered(es)
    ensures var before := es[..|es| - 1];
      && now <= es[|es| - 1].now && Tidy(Run(before, hash), now, hash)
      && View(Run(before, hash), key, now, hash) == View(Run(before, hash), key, LastTime(before), hash)
  {
    var before, e := es[..|es| - 1], es[|es| - 1];
    now := if before == [] then e.now else LastTime(before);
    RunTidy(before, hash, now);
    if before == [] {
      NothingMatches(NewTable(), key, now, hash);
      NothingMatches(NewTable(), key, 0, hash);
    }
  }

  /** An undisturbed packet behaves in the shared table as if it had a slot to itself. */
  lemma {:induction false} TableFollows(es: seq<Event>, key: Key, hash: Key -> nat)
    requires Ordered(es) && Undisturbed(es, key, hash)
    ensures View(Run(es, hash), key, LastTime(es), hash) == Follow(Arrivals(es, key))
    ensures es != [] && Own(es[|es| - 1], key) ==>
      Reassemble(Run(es[..|es| - 1], hash), key, es[|es| - 1].a, es[|es| - 1].now, hash).1 == Last(Arrivals(es, key))
  {
    if es == [] {
      NothingMatches(NewTable(), key, 0, hash);
    } else {
      var before, e := es[..|es| - 1], es[|es| - 1];
      TableFollows(before, key, hash);
      var now := BeforeLast(es, key, hash);
      if Own(e, key) {
        OwnStep(Run(before, hash), key, e.a, now, e.now, hash);
        var fs := Arrivals(es, key);
        assert fs[..|fs| - 1] == Arrivals(before, key);
      } else {
        OthersOnlyEvict(Run(before, hash), e, key, now, hash);
      }
    }
  }

  /** One of several pieces is not the whole. */
  lemma ProperPart(sent: seq<Piece>, packet: Bytes, a: Arrival)
    requires Tiles(sent, 0, |packet|) && NonEmpty(sent) && Shows(sent, packet) && |sent| > 1
    requires a.tot == |packet| && a.Part() in sent
    ensures Partial(a)
  {
    TilingIsDisjoint(sent, 0, |packet|);
    var j :| 0 <= j < |sent| && sent[j] == a.Part();
    var m := if j == 0 then 1 else 0;
    assert ShowsPart(sent[j], packet) && ShowsPart(sent[m], packet);
    assert Holds(sent[m], sent[m].off) && !Holds(sent[j], sent[m].off);
  }

  /** Round trip through the table, for a packet cut in any way, among any other traffic.  A packet
      of one segment is handed over whenever that arrives, with its mark, and leaves no trace.
      The segments of a longer, undisturbed packet, in any order and with repetitions, yield it
      exactly when the last missing one arrives. */
  lemma TableRoundTrip(es: seq<Event>, key: Key, hash: Key -> nat, sent: seq<Piece>, packet: Bytes)
    requires Ordered(es) && es != [] && es[|es| - 1].Packet? && es[|es| - 1].key == key
    requires Tiles(sent, 0, |packet|) && NonEmpty(sent) && Shows(sent, packet)
    requires es[|es| - 1].a.tot == |packet| && es[|es| - 1].a.Part() in sent
    requires |sent| > 1 ==> Undisturbed(es, key, hash) && SegmentsOf(Arrivals(es, key), sent, packet)
                            && !HasAll(Arrivals(es[..|es| - 1], key), sent)
    ensures var before, e := es[..|es| - 1], es[|es| - 1];
      var (r, v) := Reassemble(Run(before, hash), key, e.a, e.now, hash);
      if |sent| == 1 then v == Handed(packet, e.a.ce) && r == Run(before, hash)
      else if e.a.Part() in Parts(Arrivals(before, key)) then v == Freed
      else if HasAll(Arrivals(es, key), sent) then v.Handed? && v.packet == packet
      else v == Kept
  {
    var a := es[|es| - 1].a;
    if |sent| == 1 {
      assert a.Part() == sent[0] && ShowsPart(sent[0], packet) && sent[1..] == [];
      assert packet[0..|packet|] == packet;
      NeverStored(Run(es[..|es| - 1], hash), key, a, es[|es| - 1].now, hash);
      return;
    }
    ProperPart(sent, packet, a);
    TableFollows(es, key, hash);
    var fs := Arrivals(es, key);
    assert fs[..|fs| - 1] == Arrivals(es[..|es| - 1], key);
    PacketRoundTrip(fs, sent, packet);
  }

  // ------------------------------------------------------- packets that are not disturbed

  /** The sizes of all segments there have been. */
  ghost function Sizes(es: seq<Event>): nat {
    if es == [] then 0
    else Sizes(es[..|es| - 1]) + if es[|es| - 1].Packet? then es[|es| - 1].a.truesize else 0
  }

  /** All within half a minute of the first event and within the high mark, and no other packet has a
      candidate slot in common with this one. */
  ghost predicate Quiet(es: seq<Event>, key: Key, hash: Key -> nat) {
    && Ordered(es) && Sizes(es) <= 4 * 1024 * 1024
    && (forall i :: 0 <= i < |es| ==> es[i].now < es[0].now + 30 * 1000)
    && forall i :: 0 <= i < |es| && es[i].Packet? ==>
      Fair(es[i].a) && (es[i].key == key || Apart(Candidates(hash, es[i].key), Candidates(hash, key)))
  }

  ghost predicate Apart(a: seq<nat>, b: seq<nat>) {
    forall x: nat :: x in a ==> x !in b
  }

  lemma QuietBefore(es: seq<Event>, key: Key, hash: Key -> nat)
    requires es != [] && Quiet(es, key, hash)
    ensures Quiet(es[..|es| - 1], key, hash) && Sizes(es[..|es| - 1]) <= Sizes(es)
  {
  }

  /** No slot was filled before the first event. */
  ghost predicate FilledSince(slots: seq<Slot>, start: int) {
    forall s :: 0 <= s < |slots| && slots[s].Used? ==> slots[s].stamp >= start
  }

  lemma {:induction false} RunFilled(es: seq<Event>, hash: Key -> nat)
    requires Ordered(es)
    ensures es != [] ==> FilledSince(Run(es, hash).slots, es[0].now)
  {
    if es != [] {
      var before, e := es[..|es| - 1], es[|es| - 1];
      RunFilled(before, hash);
      if before != [] { assert before[0] == es[0]; }
      StepFilled(Run(before, hash), e, hash, es[0].now);
    }
  }

  lemma {:induction false} StepFilled(t: Table, e: Event, hash: Key -> nat, start: int)
    requires Inv(t) && FilledSince(t.slots, start) && start <= e.now
    ensures FilledSince(Step(t, e, hash).slots, start)
  {
    if e.Packet? && Partial(e.a) {
      PlacedFewer(t, e.key, e.a, e.now, hash);
      ReassembleSlots(t, e.key, e.a, e.now, hash);
    }
  }

  lemma {:induction false} RunMem(es: seq<Event>, hash: Key -> nat)
    requires forall i :: 0 <= i < |es| && es[i].Packet? ==> Fair(es[i].a)
    ensures Run(es, hash).mem <= Sizes(es)
  {
    if es != [] {
      var before, e := es[..|es| - 1], es[|es| - 1];
      RunMem(before, hash);
      match e
      case Packet(now, key, a) => ArrivalMem(Run(before, hash), key, a, now, hash);
      case Clean(now) => SweepBound(Run(before, hash), now, 0);
    }
  }

  lemma ArrivalMem(t: Table, key: Key, a: Arrival, now: int, hash: Key -> nat)
    requires Inv(t) && Fair(a)
    ensures Reassemble(t, key, a, now, hash).0.mem <= t.mem + a.truesize
  {
    if Partial(a) {
      EvictsOldest(t);
      LookupMem(Room(t, a), Candidates(hash, key), key, now);
      var (i, u) := Placed(t, key, a, now, hash);
      if u.slots[i].Used? { AdvanceMem(u, i, a); }
    }
  }

  /** In quiet the chain of a packet stays where it is. */
  lemma {:induction false} QuietIsUndisturbed(es: seq<Event>, key: Key, hash: Key -> nat)
    requires Quiet(es, key, hash)
    ensures Undisturbed(es, key, hash)
  {
    if es != [] {
      QuietBefore(es, key, hash);
      QuietIsUndisturbed(es[..|es| - 1], key, hash);
      QuietStep(es, key, hash);
    }
  }

  lemma {:induction false} QuietStep(es: seq<Event>, key: Key, hash: Key -> nat)
    requires es != [] && Quiet(es, key, hash)
    ensures var before, e := es[..|es| - 1], es[|es| - 1];
      var t := Run(before, hash);
      View(t, key, LastTime(before), hash).Some? ==>
        View(if Own(e, key) then Room(t, e.a) else Step(t, e, hash), key, e.now, hash).Some?
  {
    var before, e := es[..|es| - 1], es[|es| - 1];
    if before == [] {
      NothingMatches(NewTable(), key, 0, hash);
    } else if View(Run(before, hash), key, LastTime(before), hash).Some? {
      QuietBefore(es, key, hash);
      RunMem(before, hash);
      RunFilled(before, hash);
      RunTidy(before, hash, LastTime(before));
      assert before[0] == es[0];
      StaysInSlot(Run(before, hash), e, key, LastTime(before), hash);
    }
  }

  lemma {:induction false} StaysInSlot(t: Table, e: Event, key: Key, now: int, hash: Key -> nat)
    requires Tidy(t, now, hash) && now <= e.now && FilledSince(t.slots, e.now - 30 * 1000 + 1)
    requires e.Packet? ==> t.mem + e.a.truesize <= 4 * 1024 * 1024
    requires e.Packet? ==> e.key == key || Apart(Candidates(hash, e.key), Candidates(hash, key))
    requires View(t, key, now, hash).Some?
    ensures View(if Own(e, key) then Room(t, e.a) else Step(t, e, hash), key, e.now, hash).Some?
  {
    var s := Find(t.slots, Candidates(hash, key), key, now).value;
    var r := if Own(e, key) then Room(t, e.a) else Step(t, e, hash);
    if e.Packet? && Partial(e.a) && e.key != key {
      var i := DisturbsLittle(t, e.key, e.a, e.now, hash);
    }
    assert r.slots[s] == t.slots[s];
    StepTidy(t, e, now, e.now, hash);
    FewerTidy(t, t, now, e.now, hash);
    ViewSome(r, key, e.now, hash, s);
  }
}
