/** struct stt_percpu of linux/compat/stt.c updated in place; every method is proved to compute
    the function of the same purpose in SttTable and SttRuns. */
module SttPerCpu {
  import opened Wrappers
  import opened Pieces
  import opened SttChain
  import opened HashSegments
  import opened SttTable
  import SttRuns

  class PerCpu {
    const fragHash: array<Slot>
    var fragLru: seq<nat>
    var fragMemUsed: int

    ghost function Value(): Table
      reads this, fragHash
    {
      Table(fragHash[..], fragLru, fragMemUsed)
    }

    constructor ()
      ensures Value() == SttRuns.NewTable() && fresh(fragHash)
    {
      fragHash := new Slot[FRAG_HASH_ENTRIES](i => Empty);
      fragLru, fragMemUsed := [], 0;
      new;
      assert fragHash[..] == SttRuns.Empties(FRAG_HASH_ENTRIES);
    }

    method FreeFrag(i: nat)
      requires Inv(Value()) && i < fragHash.Length && fragHash[i].Used?
      modifies this, fragHash
      ensures Value() == Free(old(Value()), i)
    {
      fragMemUsed := fragMemUsed - fragHash[i].chain.mem;
      fragLru := Unlisted(fragLru, i);
      fragHash[i] := Empty;
    }

    method EvictFrags()
      requires Inv(Value())
      modifies this, fragHash
      ensures Value() == Evict(old(Value()))
    {
      while fragLru != [] && fragMemUsed > REASM_LO_THRESH
        invariant Inv(Value()) && Evict(Value()) == Evict(old(Value()))
        decreases |fragLru|
      {
        OldestIsUsed(Value());
        FreeFrag(fragLru[0]);
      }
    }

    /** The search loop: the slot of the packet, or the slot to sacrifice.  The first candidate
        is the first victim. */
    method Scan(key: Key, hash: nat, now: int) returns (found: bool, i: nat)
      requires fragHash.Length == FRAG_HASH_ENTRIES
      ensures var cs := Segments(hash, FRAG_HASH_SEGS);
        if found then Find(fragHash[..], cs, key, now) == Some(i)
        else Find(fragHash[..], cs, key, now) == None && i == Victim(fragHash[..], cs)
    {
      ghost var slots := fragHash[..];
      var h: nat := hash / FRAG_HASH_ENTRIES;
      i := hash % FRAG_HASH_ENTRIES;
      ScanFirst(slots, hash, key, now);
      if Matches(fragHash[i], key, now) {
        return true, i;
      }
      var n: nat := FRAG_HASH_SEGS - 1;
      while n > 0
        invariant Scanned(slots, Segments(hash, FRAG_HASH_SEGS), h, n, i, key, now)
      {
        var c := h % FRAG_HASH_ENTRIES;
        ScanStep(slots, Segments(hash, FRAG_HASH_SEGS), h, n, i, key, now);
        if Matches(fragHash[c], key, now) {
          return true, c;
        }
        if Better(fragHash[c], fragHash[i]) {
          i := c;
        }
        h, n := h / FRAG_HASH_ENTRIES, n - 1;
      }
      ghost var cs := Segments(hash, FRAG_HASH_SEGS);
      assert cs[..|cs|] == cs;
      found := false;
    }

    method LookupFrag(key: Key, hash: nat, now: int) returns (i: nat)
      requires Inv(Value())
      modifies this, fragHash
      ensures (i, Value()) == Lookup(old(Value()), Segments(hash, FRAG_HASH_SEGS), key, now)
    {
      var found;
      found, i := Scan(key, hash, now);
      if !found && fragHash[i].Used? {
        FreeFrag(i);
      }
    }

    /** From lookup to the end of reassemble, the fragment belonging to slot i. */
    method Attach(i: nat, key: Key, a: Arrival, now: int) returns (v: Verdict)
      requires Inv(Value()) && i < fragHash.Length && Partial(a)
      modifies this, fragHash
      ensures (Value(), v) ==
        if old(fragHash[i]).Empty? then (Store(old(Value()), i, key, a, now), Kept) else Advance(old(Value()), i, a)
    {
      if fragHash[i].Empty? {
        fragHash[i] := Used(key, now, Start(a));
        fragLru := fragLru + [i];
        fragMemUsed := fragMemUsed + a.truesize;
        return Kept;
      }
      var Used(owner, stamp, chain) := fragHash[i];
      if Drops(chain.pieces, a) {
        return Freed;
      }
      var c := Extend(chain, a);
      fragMemUsed := fragMemUsed + Delta(chain.pieces, a);
      fragLru := Unlisted(fragLru, i);
      if c.tot == c.rcvd {
        fragMemUsed := fragMemUsed - c.mem;
        fragHash[i] := Empty;
        v := Handed(Glue(c.pieces), c.ce || c.own);
      } else {
        fragLru := fragLru + [i];
        fragHash[i] := Used(owner, stamp, c);
        v := Kept;
      }
    }

    method Receive(key: Key, a: Arrival, now: int, hash: Key -> nat) returns (v: Verdict)
      requires Inv(Value())
      modifies this, fragHash
      ensures Inv(Value())
      ensures (Value(), v) == Reassemble(old(Value()), key, a, now, hash)
      ensures a.data == [] || a.off + |a.data| > a.tot ==> v == Freed && Value() == old(Value())
      ensures a.data != [] && a.off == 0 && a.tot == |a.data| ==> v == Handed(a.data, a.ce) && Value() == old(Value())
    {
      if |a.data| == 0 || a.off + |a.data| > a.tot {
        return Freed;
      }
      if a.tot == |a.data| {
        return Handed(a.data, a.ce);
      }
      if fragMemUsed + a.truesize > REASM_HI_THRESH {
        EvictFrags();
      }
      var i := LookupFrag(key, hash(key), now);
      v := Attach(i, key, a, now);
    }

    method CleanPercpu(now: int)
      requires Inv(Value())
      modifies this, fragHash
      ensures Inv(Value()) && Value() == SttRuns.Sweep(old(Value()), now, 0)
    {
      var j := 0;
      while j < FRAG_HASH_ENTRIES
        invariant 0 <= j <= FRAG_HASH_ENTRIES
        invariant Inv(Value()) && SttRuns.Sweep(Value(), now, j) == SttRuns.Sweep(old(Value()), now, 0)
      {
        if !(fragHash[j].Empty? || now < fragHash[j].stamp + FRAG_EXP_TIME) {
          if fragHash[j].Used? && now > fragHash[j].stamp + FRAG_EXP_TIME {
            FreeFrag(j);
          }
        }
        j := j + 1;
      }
    }
  }

  /** All but the last n candidates have been looked at without success; i is the best victim
      among them. */
  ghost predicate Scanned(slots: seq<Slot>, cs: seq<nat>, h: nat, n: nat, i: nat, key: Key, now: int) {
    && |slots| == FRAG_HASH_ENTRIES && InRange(cs, |slots|) && n < |cs|
    && cs[|cs| - n..] == Segments(h, n)
    && Find(slots, cs, key, now) == Find(slots, Segments(h, n), key, now)
    && i == Victim(slots, cs[..|cs| - n])
  }

  lemma ScanFirst(slots: seq<Slot>, hash: nat, key: Key, now: int)
    requires |slots| == FRAG_HASH_ENTRIES
    ensures var i, cs := hash % FRAG_HASH_ENTRIES, Segments(hash, FRAG_HASH_SEGS);
      if Matches(slots[i], key, now) then Find(slots, cs, key, now) == Some(i)
      else Scanned(slots, cs, hash / FRAG_HASH_ENTRIES, FRAG_HASH_SEGS - 1, i, key, now)
  {
    var cs := Segments(hash, FRAG_HASH_SEGS);
    assert cs[..1] == [hash % FRAG_HASH_ENTRIES];
    assert cs[1..] == Segments(hash / FRAG_HASH_ENTRIES, FRAG_HASH_SEGS - 1);
  }

  lemma ScanStep(slots: seq<Slot>, cs: seq<nat>, h: nat, n: nat, i: nat, key: Key, now: int)
    requires Scanned(slots, cs, h, n, i, key, now) && n > 0
    ensures var c := h % FRAG_HASH_ENTRIES;
      if Matches(slots[c], key, now) then Find(slots, cs, key, now) == Some(c)
      else Scanned(slots, cs, h / FRAG_HASH_ENTRIES, n - 1, if Better(slots[c], slots[i]) then c else i, key, now)
  {
    var c := h % FRAG_HASH_ENTRIES;
    var rest := Segments(h / FRAG_HASH_ENTRIES, n - 1);
    assert Segments(h, n) == [c] + rest && Segments(h, n)[1..] == rest;
    var k := |cs| - n;
    assert cs[k] == cs[k..][0] && cs[k + 1..] == cs[k..][1..];
    assert cs[..k + 1][..k] == cs[..k];
  }
}
