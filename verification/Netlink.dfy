/** Netlink attributes as bytes: a 16-bit length that counts the four header bytes, a 16-bit type,
    the payload, and zeros up to a multiple of four. */
module Netlink {
  type Byte = b: int | 0 <= b < 256

  type Bytes = seq<Byte>

  const NLA_HDRLEN := 4
  const U16 := 0x1_0000
  /** nla_type removes the nested and byte-order bits. */
  const NLA_TYPE_MASK := 0x4000

  function Align(n: nat): (r: nat)
    ensures r % 4 == 0 && n <= r < n + 4
    ensures n % 4 == 0 ==> r == n
  {
    if n % 4 == 0 then n else n + (4 - n % 4)
  }

  lemma WholeWords(m: nat, n: nat)
    requires m % 4 == 0 && n % 4 == 0
    ensures (m + n) % 4 == 0
  {
  }

  /** There is one multiple of four within reach. */
  lemma AlignUnique(n: nat, r: nat)
    requires r % 4 == 0 && n <= r < n + 4
    ensures Align(n) == r
  {
    var a, b := Align(n) / 4, r / 4;
    assert Align(n) == 4 * a && r == 4 * b;
  }

  lemma Assoc(a: Bytes, b: Bytes, c: Bytes)
    ensures a + b + c == a + (b + c)
  {
  }

  function Zeros(n: nat): (r: Bytes)
    ensures |r| == n
  {
    seq(n, i => 0)
  }

  function Put16(n: nat): (r: Bytes)
    requires n < U16
    ensures |r| == 2
  {
    [n % 256, n / 256]
  }

  function Get16(b: Bytes, at: nat): (n: nat)
    requires at + 2 <= |b|
    ensures n < U16
  {
    b[at] as int + 256 * (b[at + 1] as int)
  }

  datatype Attr = Attr(typ: nat, data: Bytes)

  ghost predicate Fits(a: Attr) {
    a.typ < U16 && NLA_HDRLEN + |a.data| < U16
  }

  /** nla_total_size. */
  function Size(a: Attr): nat {
    Align(NLA_HDRLEN + |a.data|)
  }

  /** An attribute as nla_put writes it. */
  function Enc(a: Attr): (r: Bytes)
    requires Fits(a)
    ensures |r| == Size(a)
  {
    Put16(NLA_HDRLEN + |a.data|) + Put16(a.typ) + a.data + Zeros(Size(a) - NLA_HDRLEN - |a.data|)
  }

  /** nla_ok. */
  predicate Ok(b: Bytes) {
    |b| >= NLA_HDRLEN && NLA_HDRLEN <= Get16(b, 0) <= |b|
  }

  /** The attribute a buffer starts with. */
  function First(b: Bytes): (a: Attr)
    requires Ok(b)
    ensures a.typ < U16 && NLA_HDRLEN + |a.data| == Get16(b, 0) <= |b|
    ensures Get16(b, 0) < U16
  {
    Attr(Get16(b, 2), b[NLA_HDRLEN..Get16(b, 0)])
  }

  /** nla_next; the padding of the last attribute may be missing. */
  function Rest(b: Bytes): (r: Bytes)
    requires Ok(b)
    ensures |r| < |b|
    ensures |r| == if Align(Get16(b, 0)) <= |b| then |b| - Align(Get16(b, 0)) else 0
  {
    if Align(Get16(b, 0)) <= |b| then b[Align(Get16(b, 0))..] else []
  }

  /** In a buffer of whole words every attribute has its padding. */
  lemma RestWords(b: Bytes)
    requires Ok(b) && |b| % 4 == 0
    ensures Fits(First(b)) && |Rest(b)| % 4 == 0 && |b| == Size(First(b)) + |Rest(b)|
  {
  }

  lemma EncHeader(a: Attr, rest: Bytes)
    requires Fits(a)
    ensures var b := Enc(a) + rest;
      && Get16(b, 0) == NLA_HDRLEN + |a.data| && Get16(b, 2) == a.typ
      && b[NLA_HDRLEN..NLA_HDRLEN + |a.data|] == a.data && b[Size(a)..] == rest
  {
    var b := Enc(a) + rest;
    assert b[0..2] == Put16(NLA_HDRLEN + |a.data|);
    assert b[2..4] == Put16(a.typ);
    assert b[0] == Put16(NLA_HDRLEN + |a.data|)[0] && b[1] == Put16(NLA_HDRLEN + |a.data|)[1];
    assert b[2] == Put16(a.typ)[0] && b[3] == Put16(a.typ)[1];
  }

  /** Reading back what was written. */
  lemma FirstEnc(a: Attr, rest: Bytes)
    requires Fits(a)
    ensures var b := Enc(a) + rest;
      Ok(b) && First(b) == a && Rest(b) == rest && Get16(b, 0) == NLA_HDRLEN + |a.data|
  {
    EncHeader(a, rest);
  }

  /** Overwrite the length field at a position. */
  function Patch(b: Bytes, at: nat, len: nat): (r: Bytes)
    requires at + 2 <= |b| && len < U16
    ensures |r| == |b|
  {
    b[..at] + Put16(len) + b[at + 2..]
  }

  /** An empty attribute whose length is patched after its payload has been appended is the
      attribute with that payload. */
  lemma PatchNests(before: Bytes, typ: nat, payload: Bytes)
    requires typ < U16 && NLA_HDRLEN + |payload| < U16 && |payload| % 4 == 0
    ensures Patch(before + Enc(Attr(typ, [])) + payload, |before|, NLA_HDRLEN + |payload|) ==
      before + Enc(Attr(typ, payload))
  {
    var b := before + Enc(Attr(typ, [])) + payload;
    var n := NLA_HDRLEN + |payload|;
    assert Zeros(0) == [];
    assert Enc(Attr(typ, [])) == Put16(NLA_HDRLEN) + Put16(typ);
    assert b[|before| + 2..] == Put16(typ) + payload;
    assert b[..|before|] == before;
    assert Enc(Attr(typ, payload)) == Put16(n) + Put16(typ) + payload;
    assert before + Put16(n) + (Put16(typ) + payload) == before + (Put16(n) + Put16(typ) + payload);
  }
}
