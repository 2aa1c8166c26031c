/** Both the STT table and the mask cache give an item a few places: the bytes of its 32-bit hash
    number the entries it may use (FRAG_HASH_SEGS in linux/compat/stt.c, MC_HASH_SEGS in
    flow_table.c). */
module HashSegments {
  const ENTRIES := 256
  const SEGS := 4

  /** The lowest n bytes of a hash, lowest first. */
  function Segments(hash: nat, n: nat): (r: seq<nat>)
    ensures |r| == n && forall i :: 0 <= i < n ==> r[i] < ENTRIES
  {
    if n == 0 then [] else [hash % ENTRIES] + Segments(hash / ENTRIES, n - 1)
  }

  /** The candidates are the four bytes of a 32-bit hash, the lowest first. */
  lemma {:induction false} BytesOfHash(h: nat)
    ensures Segments(h, 4) == [h % 0x100, h / 0x100 % 0x100, h / 0x1_0000 % 0x100, h / 0x100_0000 % 0x100]
  {
    var a, b := h / 0x100, h / 0x100 / 0x100;
    assert b == h / 0x1_0000 && b / 0x100 == h / 0x100_0000;
    assert Segments(b / 0x100, 1) == [b / 0x100 % 0x100] + [];
    assert Segments(b, 2) == [b % 0x100] + Segments(b / 0x100, 1);
    assert Segments(a, 3) == [a % 0x100] + Segments(b, 2);
  }
}
