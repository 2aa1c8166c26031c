/** Division by an invariant 32-bit divisor through one multiplication and two shifts
    (linux/compat/reciprocal_div.c and its header), and its use in picking an upcall
    socket (vport.c).  Machine words are integers; every wrap-around or truncation the
    C code could perform is written as a remainder. */
module ReciprocalDiv {

  const TWO_32 := 0x1_0000_0000
  const TWO_64 := 0x1_0000_0000_0000_0000

  type u32 = x: int | 0 <= x < TWO_32

  function Pow2(n: nat): (p: nat)
    ensures p >= 1
  {
    if n == 0 then 1 else 2 * Pow2(n - 1)
  }

  /** Index, counted from one, of the highest set bit; zero for zero. */
  function Fls(x: nat): (l: nat)
    ensures x < Pow2(l)
    ensures x > 0 ==> l > 0 && Pow2(l - 1) <= x
  {
    if x == 0 then 0 else 1 + Fls(x / 2)
  }

  /** An unsigned right shift. */
  function Shr(x: nat, n: nat): nat {
    QuotientIsNatural(x, Pow2(n));
    x / Pow2(n)
  }

  lemma QuotientIsNatural(x: nat, p: nat)
    requires p >= 1
    ensures x / p >= 0
  {
  }

  datatype ReciprocalValue = ReciprocalValue(m: u32, sh1: nat, sh2: nat)

  /** The 64-bit numerator handed to do_div, before and after wrap-around. */
  function Numerator(d: u32, l: nat): int {
    TWO_32 * (Pow2(l) - d)
  }

  /** rpl_reciprocal_value: 64-bit arithmetic, then truncation to 32 bits. */
  function Reciprocal(d: u32): ReciprocalValue
    requires d != 0
  {
    var l := Fls(d - 1);
    var m := (Numerator(d, l) % TWO_64) / d + 1;
    ReciprocalValue(m % TWO_32, if l < 1 then l else 1, if l - 1 > 0 then l - 1 else 0)
  }

  /** rpl_reciprocal_divide: every 32-bit intermediate wraps. */
  function Divide(a: u32, r: ReciprocalValue): u32 {
    var t := Shr(a * r.m, 32) % TWO_32;
    var diff := (a - t) % TWO_32;
    var sum := (t + Shr(diff, r.sh1)) % TWO_32;
    ShrShrinks(sum, r.sh2);
    Shr(sum, r.sh2)
  }

  lemma ShrShrinks(x: nat, n: nat)
    ensures Shr(x, n) <= x
  {
    QuotientShrinks(x, Pow2(n));
  }

  lemma QuotientShrinks(x: nat, p: nat)
    requires p >= 1
    ensures x / p <= x
  {
    var q := x / p;
    assert q * p <= x;
    MulGrows(q, p);
  }

  lemma MulGrows(x: nat, p: nat)
    requires p >= 1
    ensures x <= x * p
  {
  }

  lemma {:induction false} Pow2Monotone(m: nat, n: nat)
    requires m <= n
    ensures Pow2(m) <= Pow2(n)
  {
    if m < n { Pow2Monotone(m, n - 1); }
  }

  lemma Pow2At32()
    ensures Pow2(32) == TWO_32
  {
    assert Pow2(8) == 256;
    assert Pow2(16) == 0x1_0000;
    assert Pow2(24) == 0x100_0000;
  }

  lemma MulStep(x: nat, y: nat, k: nat)
    ensures x < y ==> x * k + k <= y * k
    ensures x <= y ==> x * k <= y * k
  {
    if x < y { assert y * k == x * k + k + (y - x - 1) * k; }
  }

  /** The quotient is pinned by the two products around it. */
  lemma QuotientBetween(x: nat, k: nat, q: nat)
    requires k > 0
    requires q * k <= x < q * k + k
    ensures x / k == q
  {
    var e := x / k;
    assert e * k <= x < e * k + k;
    MulStep(e, q, k);
    MulStep(q, e, k);
  }

  lemma FlsIsTight(d: u32)
    requires d > 1
    ensures var l := Fls(d - 1); 1 <= l <= 32 && d <= Pow2(l) <= 2 * d - 2
  {
    var l := Fls(d - 1);
    assert Pow2(l) == 2 * Pow2(l - 1);
    Pow2At32();
    if l > 32 { Pow2Monotone(32, l - 1); assert false; }
  }

  lemma QuotientOf(n: nat, d: nat) returns (q: nat)
    requires d > 0
    ensures q * d <= n < q * d + d
  {
    q := n / d;
  }

  lemma QuotientFitsWord(n: nat, d: u32, q: nat)
    requires d > 1 && n <= TWO_32 * (d - 2) && q * d <= n
    ensures q + 1 < TWO_32
  {
    MulStep(TWO_32 - 1, q, d);
    assert (TWO_32 - 1) * d == TWO_32 * d - d;
  }

  /** Nothing overflows while the reciprocal is computed, and the multiplier
      satisfies the bound on which the method of Granlund and Montgomery rests:
      the implied 33-bit constant exceeds 2^(32+l) / d by at most 2^l / d. */
  lemma MultiplierBound(d: u32) returns (l: nat, p: nat, m: u32)
    requires d > 1
    ensures l == Fls(d - 1) && 1 <= l <= 32 && p == Pow2(l)
    ensures 0 <= Numerator(d, l) < TWO_64
    ensures Reciprocal(d) == ReciprocalValue(m, 1, l - 1)
    ensures d <= p < 2 * d
    ensures TWO_32 * p < (TWO_32 + m) * d <= TWO_32 * p + p
  {
    FlsIsTight(d);
    l := Fls(d - 1);
    p := Pow2(l);
    var n := Numerator(d, l);
    NumeratorFits(d, p);
    var q := QuotientOf(n, d);
    QuotientFitsWord(n, d, q);
    m := q + 1;
    ConstantBetween(n, d, p, m);
    NoTruncation(d, l, m);
  }

  lemma NumeratorFits(d: u32, p: nat)
    requires d > 1 && d <= p <= 2 * d - 2
    ensures 0 <= TWO_32 * (p - d) <= TWO_32 * (d - 2)
    ensures TWO_32 * (p - d) < TWO_64
  {
  }

  lemma NoTruncation(d: u32, l: nat, m: u32)
    requires d > 1 && l == Fls(d - 1) && l >= 1
    requires 0 <= Numerator(d, l) < TWO_64
    requires m > 0 && (m - 1) * d <= Numerator(d, l) < (m - 1) * d + d
    ensures Reciprocal(d) == ReciprocalValue(m, 1, l - 1)
  {
    Small(Numerator(d, l), TWO_64);
    QuotientBetween(Numerator(d, l), d, m - 1);
    Small(m, TWO_32);
  }

  lemma Small(x: nat, k: nat)
    requires x < k
    ensures x % k == x
  {
  }

  lemma ConstantBetween(n: nat, d: u32, p: nat, m: nat)
    requires d > 1 && d <= p && n == TWO_32 * (p - d) && m > 0
    requires (m - 1) * d <= n < (m - 1) * d + d
    ensures TWO_32 * p < (TWO_32 + m) * d <= TWO_32 * p + p
  {
    assert (TWO_32 + m) * d == TWO_32 * d + (m - 1) * d + d;
  }

  /** Halving first and shifting the rest later is one division. */
  lemma TwoStepShift(x: nat, l: nat)
    requires l >= 1
    ensures Shr(x / 2, l - 1) == Shr(x, l)
  {
    HalveThenDivide(x, Pow2(l - 1));
  }

  lemma HalveThenDivide(x: nat, k: nat)
    requires k > 0
    ensures (x / 2) / k == x / (2 * k)
  {
    var q := QuotientOf(x, 2 * k);
    assert q * (2 * k) == 2 * (q * k);
    QuotientBetween(x, 2 * k, q);
    QuotientBetween(x / 2, k, q);
  }

  /** With sh1 = 1 no 32-bit step of the division wraps. */
  lemma DivideShape(a: u32, m: u32, l: nat)
    requires l >= 1
    ensures var t := a * m / TWO_32;
      t <= a && Divide(a, ReciprocalValue(m, 1, l - 1)) == (a + t) / Pow2(l)
  {
    HighPart(a, m);
    DivideSteps(a, m, l, a * m / TWO_32);
    TwoStepShift(a + a * m / TWO_32, l);
  }

  lemma HighPart(a: u32, m: u32)
    ensures a * m / TWO_32 <= a
  {
    MulStep(m, TWO_32, a);
    HighProduct(a, m, a * m / TWO_32);
  }

  lemma DivideSteps(a: u32, m: u32, l: nat, t: nat)
    requires l >= 1 && t == a * m / TWO_32 && t <= a
    ensures Divide(a, ReciprocalValue(m, 1, l - 1)) == Shr((a + t) / 2, l - 1)
  {
    Pow2At32();
    Small(t, TWO_32);
    Small(a - t, TWO_32);
    assert Pow2(1) == 2;
    assert t + (a - t) / 2 == (a + t) / 2;
    Small((a + t) / 2, TWO_32);
  }

  /** For a divisor above one the multiply-and-shift form is floor division. */
  lemma ExactAboveOne(a: u32, d: u32)
    requires d > 1
    ensures Divide(a, Reciprocal(d)) == a / d
  {
    var l, p, m := MultiplierBound(d);
    DivideShape(a, m, l);
    FinalQuotient(a, d, p, m, a * m / TWO_32);
  }

  lemma HighProduct(a: nat, m: nat, t: nat)
    requires t == a * m / TWO_32 && a * m <= a * TWO_32
    ensures t <= a
  {
    assert t * TWO_32 <= a * TWO_32;
  }

  /** The heart of the method: a * (2^32 + m) / 2^(32+l) rounds down to a / d. */
  lemma FinalQuotient(a: u32, d: u32, p: nat, m: nat, t: nat)
    requires d > 1 && d <= p && m < TWO_32 && t == a * m / TWO_32
    requires TWO_32 * p < (TWO_32 + m) * d <= TWO_32 * p + p
    ensures (a + t) / p == a / d
  {
    var q := QuotientOf(a, d);
    var r := a - q * d;
    var c := TWO_32 + m;
    ProductSplit(a, m, t, c, d, q, r);
    Lower(a, t, p, c, d, q, r);
    Upper(a, t, p, c, d, q, r);
    QuotientBetween(a + t, p, q);
    QuotientBetween(a, d, q);
  }

  lemma ProductSplit(a: nat, m: nat, t: nat, c: nat, d: nat, q: nat, r: nat)
    requires t == a * m / TWO_32 && c == TWO_32 + m && a == q * d + r
    ensures (a + t) * TWO_32 <= a * c < (a + t) * TWO_32 + TWO_32
    ensures a * c == q * (c * d) + r * c
  {
    assert a * c == a * TWO_32 + a * m;
    assert a * c == (q * d) * c + r * c;
    assert (q * d) * c == q * (c * d);
  }

  lemma Lower(a: nat, t: nat, p: nat, c: nat, d: nat, q: nat, r: nat)
    requires a * c == q * (c * d) + r * c
    requires a * c < (a + t) * TWO_32 + TWO_32
    requires TWO_32 * p < c * d
    ensures q * p <= a + t
  {
    assert q * (c * d) >= q * (TWO_32 * p);
    assert q * (TWO_32 * p) == (q * p) * TWO_32;
    assert r * c >= 0;
    assert (q * p) * TWO_32 < (a + t + 1) * TWO_32;
  }

  lemma Upper(a: nat, t: nat, p: nat, c: nat, d: nat, q: nat, r: nat)
    requires d > 1 && a < TWO_32 && r < d && a == q * d + r
    requires a * c == q * (c * d) + r * c
    requires (a + t) * TWO_32 <= a * c
    requires c * d <= TWO_32 * p + p && p >= 1
    ensures a + t < q * p + p
  {
    ScaleUp(a, t, p, c, d);
    Descale(a, t, p, d);
    NextMultiple(a, p, d, q, r);
    Cancel(d, a + t, q * p + p);
  }

  lemma Descale(a: nat, t: nat, p: nat, d: nat)
    requires d * ((a + t) * TWO_32) <= TWO_32 * (a * p) + a * p
    requires a < TWO_32 && p >= 1
    ensures d * (a + t) < (a + 1) * p
  {
    MulStep(a, TWO_32, p);
    assert (a + 1) * p == a * p + p;
    assert d * ((a + t) * TWO_32) == TWO_32 * (d * (a + t));
  }

  lemma NextMultiple(a: nat, p: nat, d: nat, q: nat, r: nat)
    requires r < d && a == q * d + r
    ensures (a + 1) * p <= d * (q * p + p)
  {
    assert (q + 1) * d == q * d + d;
    MulStep(a + 1, (q + 1) * d, p);
    assert ((q + 1) * d) * p == d * (q * p + p) by {
      assert (q + 1) * p == q * p + p;
    }
  }

  lemma ScaleUp(a: nat, t: nat, p: nat, c: nat, d: nat)
    requires (a + t) * TWO_32 <= a * c && c * d <= TWO_32 * p + p
    ensures d * ((a + t) * TWO_32) <= TWO_32 * (a * p) + a * p
  {
    MulStep((a + t) * TWO_32, a * c, d);
    MulStep(c * d, TWO_32 * p + p, a);
    assert (a * c) * d == (c * d) * a;
    assert (TWO_32 * p + p) * a == TWO_32 * (a * p) + a * p;
  }

  lemma Cancel(d: nat, x: nat, y: nat)
    requires d * x < d * y
    ensures x < y
  {
    MulStep(y, x, d);
  }

  /** Main result: for every dividend and every non-zero divisor of 32 bits the
      precomputed reciprocal divides exactly. */
  lemma DivideExact(a: u32, d: u32)
    requires d != 0
    ensures Divide(a, Reciprocal(d)) == a / d
  {
    if d == 1 {
      Pow2At32();
      assert Fls(0) == 0;
      assert Reciprocal(1) == ReciprocalValue(1, 0, 0);
      assert Shr(a * 1, 32) == 0;
    } else {
      ExactAboveOne(a, d);
    }
  }

  /** The sockets of a port and the reciprocal of their number. */
  datatype PortIds = PortIds(ids: seq<u32>, reciprocal: ReciprocalValue)

  datatype Configured = Invalid | Configured(portIds: PortIds)

  predicate ValidPortIds(p: PortIds) {
    0 < |p.ids| < TWO_32 && p.reciprocal == Reciprocal(|p.ids|)
  }

  /** The u32 that four bytes spell, in host order. */
  function Word(bytes: seq<int>, at: nat): u32
    requires at + 4 <= |bytes|
  {
    bytes[at] % 256 + 0x100 * (bytes[at + 1] % 256) + 0x1_0000 * (bytes[at + 2] % 256) + 0x100_0000 * (bytes[at + 3] % 256)
  }

  /** ovs_vport_set_upcall_portids: an empty attribute, or one that is not a whole number of words,
      is refused, so the number of sockets is never zero; the sockets are the words of the
      attribute. */
  function SetUpcallPortIds(attr: seq<int>): (r: Configured)
    requires |attr| < TWO_32
    ensures r.Invalid? <==> |attr| == 0 || |attr| % 4 != 0
    ensures r.Configured? ==> ValidPortIds(r.portIds) && 4 * |r.portIds.ids| == |attr|
    ensures r.Configured? ==> forall i :: 0 <= i < |r.portIds.ids| ==> r.portIds.ids[i] == Word(attr, 4 * i)
  {
    if |attr| == 0 || |attr| % 4 != 0 then Invalid
    else
      var n := |attr| / 4;
      Configured(PortIds(seq(n, i requires 0 <= i < n => Word(attr, 4 * i)), Reciprocal(n)))
  }

  /** ovs_vport_find_upcall_portid, for a hash that was already computed: every word wraps, and
      yet the index is the hash modulo the number of sockets. */
  function FindUpcallPortId(p: PortIds, hash: u32): (r: u32)
    requires ValidPortIds(p)
    ensures r == p.ids[hash % |p.ids|]
  {
    if |p.ids| == 1 && p.ids[0] == 0 then 0
    else
      DivideExact(hash, |p.ids|);
      var i := (hash - (|p.ids| * Divide(hash, p.reciprocal)) % TWO_32) % TWO_32;
      assert i == hash % |p.ids| by { IndexIsRemainder(hash, |p.ids|); }
      p.ids[i]
  }

  lemma IndexIsRemainder(hash: u32, n: u32)
    requires n != 0
    ensures (hash - (n * (hash / n)) % TWO_32) % TWO_32 == hash % n
  {
    var q := QuotientOf(hash, n);
    QuotientBetween(hash, n, q);
    RemainderWraps(hash, n * q, hash % n);
  }

  lemma RemainderWraps(hash: u32, product: nat, r: nat)
    requires hash == product + r
    ensures (hash - product % TWO_32) % TWO_32 == r
  {
  }
}
