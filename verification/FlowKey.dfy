/** Flow keys, masks and the byte ranges a match touches (flow_table.c and update_range of
    flow_netlink.c).  A key is a run of machine words; a mask has bits for the words of its
    range. */
module FlowKey {
  type Word = bv64

  const WORD_BYTES := 8

  /** Words from start up to end matter. */
  datatype MaskBits = MaskBits(bits: seq<Word>, start: nat, end: nat)

  function At(key: seq<Word>, i: nat): Word {
    if i < |key| then key[i] else 0
  }

  function And(a: Word, b: Word): Word { a & b }

  function Xor(a: Word, b: Word): Word { a ^ b }

  function Or(a: Word, b: Word): Word { a | b }

  /** What "key AND mask equals flow key" means. */
  ghost predicate Matches(flowKey: seq<Word>, key: seq<Word>, m: MaskBits) {
    forall i: nat :: m.start <= i < m.end ==> At(flowKey, i) == And(At(key, i), At(m.bits, i))
  }

  /** The words of a range, which are what is hashed. */
  function Words(key: seq<Word>, start: nat, end: nat): (r: seq<Word>)
    ensures |r| == if start < end then end - start else 0
    ensures forall i :: 0 <= i < |r| ==> r[i] == At(key, start + i)
    decreases end - start
  {
    if start >= end then [] else [At(key, start)] + Words(key, start + 1, end)
  }

  function FlowHash(key: seq<Word>, m: MaskBits, hash: seq<Word> -> nat): nat {
    hash(Words(key, m.start, m.end))
  }

  /** The words of a range with the mask applied. */
  function MaskedWords(key: seq<Word>, m: MaskBits, i: nat): (r: seq<Word>)
    ensures |r| == if i < m.end then m.end - i else 0
    ensures forall j :: 0 <= j < |r| ==> r[j] == And(At(key, i + j), At(m.bits, i + j))
    decreases m.end - i
  {
    if i >= m.end then [] else [And(At(key, i), At(m.bits, i))] + MaskedWords(key, m, i + 1)
  }

  /** A flow matches exactly when its words are the masked words of the key. */
  lemma MatchesWords(flowKey: seq<Word>, key: seq<Word>, m: MaskBits)
    ensures Matches(flowKey, key, m) <==> Words(flowKey, m.start, m.end) == MaskedWords(key, m, m.start)
  {
    var a, b := Words(flowKey, m.start, m.end), MaskedWords(key, m, m.start);
    if a == b {
      forall i: nat | m.start <= i < m.end
        ensures At(flowKey, i) == And(At(key, i), At(m.bits, i))
      {
        assert a[i - m.start] == b[i - m.start];
      }
    }
  }

  /** mask_equal. */
  predicate MaskEqual(a: MaskBits, b: MaskBits) {
    a.end == b.end && a.start == b.start && Words(a.bits, a.start, a.end) == Words(b.bits, b.start, b.end)
  }

  /** Equal masks match the same keys. */
  lemma MaskEqualMatches(a: MaskBits, b: MaskBits, flowKey: seq<Word>, key: seq<Word>)
    requires MaskEqual(a, b)
    ensures Matches(flowKey, key, a) <==> Matches(flowKey, key, b)
  {
    forall i: nat | a.start <= i < a.end
      ensures At(a.bits, i) == At(b.bits, i)
    {
      assert Words(a.bits, a.start, a.end)[i - a.start] == Words(b.bits, b.start, b.end)[i - a.start];
    }
  }

  /** The words that ovs_flow_mask_key goes over. */
  function Span(key: seq<Word>, m: MaskBits, full: bool): MaskBits {
    if full then m.(start := 0, end := |key|) else m
  }

  /** ovs_flow_mask_key: the whole key, or only the words in the range of the mask, in which case
      what is before the range is left as zero. */
  method MaskKey(key: seq<Word>, m: MaskBits, full: bool) returns (masked: seq<Word>)
    ensures var s := Span(key, m, full); Words(masked, s.start, s.end) == MaskedWords(key, s, s.start)
    ensures full ==> |masked| == |key|
  {
    var s := Span(key, m, full);
    masked := seq(s.start, i => 0 as Word);
    var i := s.start;
    while i < s.end
      invariant s.start <= i && (i <= s.end || i == s.start) && |masked| == i
      invariant forall j: nat :: s.start <= j < i ==> At(masked, j) == And(At(key, j), At(m.bits, j))
    {
      masked := masked + [And(At(key, i), At(m.bits, i))];
      i := i + 1;
    }
    assert Words(masked, s.start, s.end) == MaskedWords(key, s, s.start);
  }

  /** Both modes agree on the range of the mask, so a flow stored with a key masked as a whole
      matches the same keys. */
  lemma MaskKeyAgrees(key: seq<Word>, m: MaskBits, masked: seq<Word>)
    requires m.start <= m.end <= |key|
    requires Words(masked, 0, |key|) == MaskedWords(key, m.(start := 0, end := |key|), 0)
    ensures Matches(masked, key, m)
  {
    var s := m.(start := 0, end := |key|);
    forall i: nat | m.start <= i < m.end
      ensures At(masked, i) == And(At(key, i), At(m.bits, i))
    {
      assert Words(masked, 0, |key|)[i] == MaskedWords(key, s, 0)[i];
    }
  }

  lemma OrXor(d: Word, a: Word, b: Word)
    ensures Or(d, Xor(a, b)) == 0 <==> d == 0 && a == b
  {
    XorZero(a, b);
    OrZero(d, Xor(a, b));
  }

  lemma XorZero(a: Word, b: Word)
    ensures Xor(a, b) == 0 <==> a == b
  {
    if Xor(a, b) == 0 {
      calc {
        b;
        a ^ (a ^ b);
        a ^ 0;
        a;
      }
    }
  }

  lemma OrZero(a: Word, b: Word)
    ensures Or(a, b) == 0 <==> a == 0 && b == 0
  {
  }

  /** cmp_key: gather all differences before testing. */
  method CmpKey(key1: seq<Word>, key2: seq<Word>, start: nat, end: nat) returns (equal: bool)
    ensures equal <==> Words(key1, start, end) == Words(key2, start, end)
  {
    var diffs: Word := 0;
    var i := start;
    ghost var a, b := Words(key1, start, end), Words(key2, start, end);
    while i < end
      invariant start <= i && (i <= end || i == start)
      invariant diffs == 0 <==> forall j: nat :: start <= j < i ==> At(key1, j) == At(key2, j)
    {
      OrXor(diffs, At(key1, i), At(key2, i));
      diffs := Or(diffs, Xor(At(key1, i), At(key2, i)));
      i := i + 1;
    }
    equal := diffs == 0;
    if a == b {
      forall j: nat | start <= j < i
        ensures At(key1, j) == At(key2, j)
      {
        assert a[j - start] == b[j - start];
      }
    }
  }

  // ----------------------------------------------------------------- range of a match

  datatype Range = Range(start: nat, end: nat)

  function RoundDown(n: nat): nat { n - n % WORD_BYTES }

  function RoundUp(n: nat): nat { RoundDown(n + WORD_BYTES - 1) }

  /** update_range; a range with equal ends is not set yet. */
  function UpdateRange(r: Range, offset: nat, size: nat): Range {
    var start, end := RoundDown(offset), RoundUp(offset + size);
    if r.start == r.end then Range(start, end)
    else Range(if r.start > start then start else r.start, if r.end < end then end else r.end)
  }

  datatype Field = Field(offset: nat, size: nat)

  function RangeOf(fields: seq<Field>): Range {
    if fields == [] then Range(0, 0)
    else
      var f := fields[|fields| - 1];
      UpdateRange(RangeOf(fields[..|fields| - 1]), f.offset, f.size)
  }

  predicate Contains(r: Range, f: Field) {
    r.start <= f.offset && f.offset + f.size <= r.end
  }

  ghost predicate ContainsAll(r: Range, fields: seq<Field>) {
    forall i :: 0 <= i < |fields| ==> Contains(r, fields[i])
  }

  predicate Aligned(r: Range) {
    r.start % WORD_BYTES == 0 && r.end % WORD_BYTES == 0
  }

  lemma Rounding(n: nat, m: nat)
    requires m % WORD_BYTES == 0
    ensures RoundDown(n) <= n <= RoundUp(n) && RoundDown(n) % WORD_BYTES == 0 && RoundUp(n) % WORD_BYTES == 0
    ensures m <= n ==> m <= RoundDown(n)
    ensures n <= m ==> RoundUp(n) <= m
  {
  }

  /** A range with equal ends has seen no field that holds anything. */
  lemma {:induction false} RangeHolds(fields: seq<Field>)
    ensures Aligned(RangeOf(fields)) && RangeOf(fields).start <= RangeOf(fields).end
    ensures forall i :: 0 <= i < |fields| && fields[i].size > 0 ==>
      RangeOf(fields).start < RangeOf(fields).end && Contains(RangeOf(fields), fields[i])
  {
    if fields != [] {
      var before, f := fields[..|fields| - 1], fields[|fields| - 1];
      Rounding(f.offset, 0);
      Rounding(f.offset + f.size, 0);
      RangeHolds(before);
      forall i | 0 <= i < |fields| && fields[i].size > 0
        ensures RangeOf(fields).start < RangeOf(fields).end && Contains(RangeOf(fields), fields[i])
      {
        if i < |fields| - 1 { assert before[i].size > 0 && Contains(RangeOf(before), before[i]); }
      }
    }
  }

  lemma {:induction false} RangeIsLeast(fields: seq<Field>, r: Range)
    requires fields != [] && Aligned(r) && ContainsAll(r, fields)
    ensures r.start <= RangeOf(fields).start && RangeOf(fields).end <= r.end
  {
    var before, f := fields[..|fields| - 1], fields[|fields| - 1];
    assert Contains(r, f);
    Rounding(f.offset, r.start);
    Rounding(f.offset + f.size, r.end);
    if before != [] {
      RangeIsLeast(before, r);
    }
  }

  /** Whatever order the fields of a match come in, its range holds every field that is not empty,
      and no whole number of words that holds them all is smaller.  An empty field may widen the
      range to its place, but never further. */
  lemma RangeIsHull(fields: seq<Field>, r: Range)
    requires fields != []
    ensures Aligned(RangeOf(fields))
    ensures forall i :: 0 <= i < |fields| && fields[i].size > 0 ==> Contains(RangeOf(fields), fields[i])
    ensures Aligned(r) && ContainsAll(r, fields) ==> r.start <= RangeOf(fields).start && RangeOf(fields).end <= r.end
  {
    RangeHolds(fields);
    if Aligned(r) && ContainsAll(r, fields) { RangeIsLeast(fields, r); }
  }
}
