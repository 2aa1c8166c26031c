/** The CountMax sketch (countmax.c): an array of buckets per line, each bucket running a
    weighted majority vote among the flow keys that hash into it. */
module CountMax {

  /** flow_key.h with FIVE_TUPLE; flow_key_equal compares exactly these fields. */
  datatype FlowKey = FlowKey(srcIp: nat, dstIp: nat, srcPort: nat, dstPort: nat, protocol: nat)

  /** Memory comes from kzalloc, so every bucket starts with the all-zero key. */
  const ZERO_KEY := FlowKey(0, 0, 0, 0, 0)

  const MAX_ELEM := 0x7FFF_FFFF_FFFF_FFFF

  datatype Bucket = Bucket(key: FlowKey, count: int)

  datatype Update = Weighed(key: FlowKey, value: int)

  /** What one update does to the bucket it hits. */
  function Feed(b: Bucket, u: Update): Bucket {
    if u.key == b.key then b.(count := b.count + u.value)
    else if u.value > b.count then Bucket(u.key, u.value - b.count)
    else b.(count := b.count - u.value)
  }

  /** The state of bucket i of a line of w buckets after a run of updates. */
  function BucketAfter(hash: FlowKey -> nat, w: nat, log: seq<Update>, i: nat): Bucket
    requires w > 0
  {
    if log == [] then Bucket(ZERO_KEY, 0)
    else
      var u := log[|log| - 1];
      var b := BucketAfter(hash, w, log[..|log| - 1], i);
      if hash(u.key) % w == i then Feed(b, u) else b
  }

  function QueryAfter(hash: FlowKey -> nat, w: nat, log: seq<Update>, k: FlowKey): int
    requires w > 0
  {
    var b := BucketAfter(hash, w, log, hash(k) % w);
    if b.key == k then b.count else 0
  }

  /** The true weight of a key. */
  function Weight(log: seq<Update>, k: FlowKey): int {
    if log == [] then 0
    else
      Weight(log[..|log| - 1], k) +
      if log[|log| - 1].key == k then log[|log| - 1].value else 0
  }

  /** The total weight that landed in bucket i. */
  function Load(hash: FlowKey -> nat, w: nat, log: seq<Update>, i: nat): int
    requires w > 0
  {
    if log == [] then 0
    else
      Load(hash, w, log[..|log| - 1], i) +
      if hash(log[|log| - 1].key) % w == i then log[|log| - 1].value else 0
  }

  ghost predicate NonNegative(log: seq<Update>) {
    forall j :: 0 <= j < |log| ==> log[j].value >= 0
  }

  /** What key k has over the key recorded: its count, or the count against it. */
  function Signed(b: Bucket, k: FlowKey): int {
    if b.key == k then b.count else -b.count
  }

  /** An update adds its weight to what its key has over the key recorded; it makes its key the
      recorded one only by making that positive, so that of two keys of equal weight the first
      stays; and it leaves every other bucket alone. */
  lemma OneVote(hash: FlowKey -> nat, w: nat, log: seq<Update>, u: Update, i: nat)
    requires w > 0
    ensures var b, r := BucketAfter(hash, w, log, i), BucketAfter(hash, w, log + [u], i);
      if hash(u.key) % w != i then r == b
      else
        && Signed(r, u.key) == Signed(b, u.key) + u.value
        && r.key == if b.key == u.key || Signed(b, u.key) + u.value > 0 then u.key else b.key
  {
    assert (log + [u])[..|log|] == log;
  }

  /** The vote invariant.  Every unit of weight that the recorded key lost was paired with a
      unit of some other key, so a key that is not recorded owns at most half of what was
      paired, and the recorded one at most half of that on top of its count. */
  lemma {:induction false} VoteInvariant(hash: FlowKey -> nat, w: nat, log: seq<Update>, i: nat, k: FlowKey)
    requires w > 0 && NonNegative(log) && hash(k) % w == i
    ensures
      var b := BucketAfter(hash, w, log, i);
      var f := Weight(log, k);
      var t := Load(hash, w, log, i);
      && 0 <= b.count <= t
      && 0 <= f <= t
      && (k == b.key ==> b.count <= f && 2 * f <= t + b.count)
      && (k != b.key ==> 2 * f <= t - b.count)
  {
    if log != [] {
      VoteInvariant(hash, w, log[..|log| - 1], i, k);
    }
  }

  /** Main result: the two-sided error bound of a query, for every key and every run of
      non-negative updates. */
  lemma QueryBounds(hash: FlowKey -> nat, w: nat, log: seq<Update>, k: FlowKey)
    requires w > 0 && NonNegative(log)
    ensures
      var f := Weight(log, k);
      var t := Load(hash, w, log, hash(k) % w);
      var q := QueryAfter(hash, w, log, k);
      0 <= q <= f && 2 * f - t <= q
  {
    VoteInvariant(hash, w, log, hash(k) % w, k);
  }

  /** A key holding more than half of its bucket's weight is the recorded key. */
  lemma MajorityIsRecorded(hash: FlowKey -> nat, w: nat, log: seq<Update>, k: FlowKey)
    requires w > 0 && NonNegative(log)
    requires 2 * Weight(log, k) > Load(hash, w, log, hash(k) % w)
    ensures BucketAfter(hash, w, log, hash(k) % w).key == k
    ensures QueryAfter(hash, w, log, k) > 0
  {
    VoteInvariant(hash, w, log, hash(k) % w, k);
  }

  /** While the weight of a bucket stays within a signed 64-bit word, so does its counter. */
  lemma NoCounterOverflow(hash: FlowKey -> nat, w: nat, log: seq<Update>, i: nat)
    requires w > 0 && NonNegative(log) && i < w
    requires Load(hash, w, log, i) <= MAX_ELEM
    ensures 0 <= BucketAfter(hash, w, log, i).count <= MAX_ELEM
  {
    CountWithinLoad(hash, w, log, i);
  }

  lemma {:induction false} CountWithinLoad(hash: FlowKey -> nat, w: nat, log: seq<Update>, i: nat)
    requires w > 0 && NonNegative(log)
    ensures 0 <= BucketAfter(hash, w, log, i).count <= Load(hash, w, log, i)
  {
    if log != [] { CountWithinLoad(hash, w, log[..|log| - 1], i); }
  }

  class CountMaxLine {
    const hash: FlowKey -> nat
    const w: nat
    const keys: array<FlowKey>
    const counters: array<int>
    /** Every update the line has seen, oldest first. */
    ghost var log: seq<Update>

    ghost predicate Valid()
      reads this, keys, counters
    {
      && w > 0 && keys.Length == w && counters.Length == w
      && forall i :: 0 <= i < w ==> Bucket(keys[i], counters[i]) == BucketAfter(hash, w, log, i)
    }

    constructor (hash: FlowKey -> nat, w: nat)
      requires w > 0
      ensures Valid() && this.hash == hash && this.w == w && log == []
      ensures fresh(keys) && fresh(counters)
    {
      this.hash := hash;
      this.w := w;
      keys := new FlowKey[w](_ => ZERO_KEY);
      counters := new int[w](_ => 0);
      log := [];
    }

    method Update(key: FlowKey, value: int)
      requires Valid()
      modifies `log, keys, counters
      ensures Valid() && log == old(log) + [Weighed(key, value)]
    {
      ghost var was := log;
      log := log + [Weighed(key, value)];
      assert log[..|log| - 1] == was;
      var index := hash(key) % w;
      if key == keys[index] {
        counters[index] := counters[index] + value;
      } else {
        var now := counters[index];
        if value > now {
          counters[index] := value - now;
          keys[index] := key;
        } else {
          counters[index] := counters[index] - value;
        }
      }
    }

    method Query(key: FlowKey) returns (r: int)
      requires Valid()
      ensures r == QueryAfter(hash, w, log, key)
    {
      var index := hash(key) % w;
      if key == keys[index] {
        r := counters[index];
      } else {
        r := 0;
      }
    }
  }

  /** Fresh, empty lines that share no storage. */
  method MakeLines(hash: FlowKey -> nat, w: nat, d: nat) returns (ls: array<CountMaxLine>, ghost cs: set<object>)
    requires w > 0
    ensures fresh(ls) && fresh(cs) && ls.Length == d && ls !in cs
    ensures forall j :: 0 <= j < d ==> ls[j].Valid() && ls[j].log == [] && ls[j].hash == hash && ls[j].w == w
    ensures forall j :: 0 <= j < d ==> ls[j] in cs && ls[j].keys in cs && ls[j].counters in cs
    ensures forall j, k :: 0 <= j < k < d ==> (ls[j] != ls[k] && ls[j].keys != ls[k].keys && ls[j].counters != ls[k].counters)
  {
    var s: seq<CountMaxLine> := [];
    cs := {};
    for i := 0 to d
      invariant |s| == i && fresh(cs)
      invariant forall j :: 0 <= j < i ==> fresh(s[j]) && s[j].Valid() && s[j].log == []
      invariant forall j :: 0 <= j < i ==> s[j].hash == hash && s[j].w == w
      invariant forall j :: 0 <= j < i ==> s[j] in cs && s[j].keys in cs && s[j].counters in cs
      invariant forall j, k :: 0 <= j < k < i ==> s[j] != s[k]
      invariant forall j, k :: 0 <= j < k < i ==> s[j].keys != s[k].keys
      invariant forall j, k :: 0 <= j < k < i ==> s[j].counters != s[k].counters
    {
      var line := new CountMaxLine(hash, w);
      s := s + [line];
      cs := cs + {line, line.keys, line.counters};
    }
    ls := new CountMaxLine[d](i requires 0 <= i < |s| => s[i]);
  }

  class CountMaxSketch {
    const w: nat
    const d: nat
    const hash: FlowKey -> nat
    const lines: array<CountMaxLine>
    ghost var log: seq<Update>
    /** The cells of all lines. */
    ghost const cells: set<object>

    ghost predicate Shape()
      reads this, lines
    {
      && w > 0 && lines.Length == d
      && (forall i :: 0 <= i < d ==> lines[i].hash == hash && lines[i].w == w)
      && (forall i :: 0 <= i < d ==> lines[i] in cells && lines[i].keys in cells && lines[i].counters in cells)
      && (forall i, j :: 0 <= i < j < d ==> (lines[i] != lines[j]
            && lines[i].keys != lines[j].keys && lines[i].counters != lines[j].counters))
      && lines !in cells && this !in cells
    }

    /** Every line applies flow_key_hash_old without the mask drawn for it, so all lines
        index by the same function and hold the same contents. */
    ghost predicate Valid()
      reads this, lines, cells
    {
      && Shape()
      && forall i :: 0 <= i < d ==> lines[i].Valid() && lines[i].log == log
    }

    constructor (hash: FlowKey -> nat, w: nat, d: nat)
      requires w > 0
      ensures Valid() && this.w == w && this.d == d && this.hash == hash && log == []
      ensures fresh(lines) && fresh(cells)
    {
      var ls, cs := MakeLines(hash, w, d);
      this.w, this.d, this.hash := w, d, hash;
      lines, cells, log := ls, cs, [];
    }

    method Update(key: FlowKey, value: int)
      requires Valid()
      modifies `log, cells
      ensures Valid() && log == old(log) + [Weighed(key, value)]
    {
      ghost var now := log + [Weighed(key, value)];
      for i := 0 to d
        invariant Shape() && log == old(log)
        invariant forall j :: 0 <= j < d ==> lines[j].Valid()
        invariant forall j :: 0 <= j < d ==> lines[j].log == if j < i then now else log
      {
        lines[i].Update(key, value);
      }
      log := now;
    }

    /** The best of the lines is what any one line answers: extra lines add nothing. */
    method Query(key: FlowKey) returns (max: int)
      requires Valid()
      ensures NonNegative(log) && d > 0 ==> max == QueryAfter(hash, w, log, key)
      ensures d == 0 ==> max == 0
    {
      max := 0;
      for i := 0 to d
        invariant i == 0 ==> max == 0
        invariant i > 0 ==> max == if QueryAfter(hash, w, log, key) > 0 then QueryAfter(hash, w, log, key) else 0
      {
        var q := lines[i].Query(key);
        if q > max {
          max := q;
        }
      }
      if d > 0 && NonNegative(log) {
        QueryBounds(hash, w, log, key);
      }
    }
  }
}
