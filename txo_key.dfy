/**
  The disk backend's key layout: the 16-byte compressed transaction id
  followed by the 4-byte output index, 20 bytes in all. The source writes both
  integers in the machine's native byte order; this model fixes it to
  little-endian. The properties proved here (the key splits back into its
  parts, and distinct parts give distinct keys) hold for either order.
*/
module TxoKeys {
  import opened Bitcoin

  type Key = Bytes

  const KEY_LEN: nat := 20

  function Pow256(width: nat): (p: nat)
    ensures p > 0
  {
    if width == 0 then 1 else 256 * Pow256(width - 1)
  }

  lemma Pow256Widths()
    ensures Pow256(4) == 0x1_0000_0000
    ensures Pow256(16) == 0x1_0000_0000_0000_0000_0000_0000_0000_0000
  {
  }

  /** `x` as `width` little-endian bytes. */
  function LeBytes(x: nat, width: nat): (r: Bytes)
    requires x < Pow256(width)
    ensures |r| == width
  {
    if width == 0 then [] else [(x % 256) as u8] + LeBytes(x / 256, width - 1)
  }

  /** The number that little-endian bytes `s` denote. */
  function FromLe(s: Bytes): (x: nat)
    ensures x < Pow256(|s|)
  {
    if s == [] then 0 else s[0] as nat + 256 * FromLe(s[1..])
  }

  /** Reading back the bytes of `x` gives `x`. */
  lemma {:induction false} LeRoundTrip(x: nat, width: nat)
    requires x < Pow256(width)
    ensures FromLe(LeBytes(x, width)) == x
  {
    if width > 0 {
      LeRoundTrip(x / 256, width - 1);
      assert LeBytes(x, width)[1..] == LeBytes(x / 256, width - 1);
    }
  }

  /** `txo_key`: the compressed id's 16 bytes, then the index's 4 bytes. */
  function TxoKey(id: u128, n: u32): (k: Key)
    ensures |k| == KEY_LEN
  {
    Pow256Widths();
    LeBytes(id as nat, 16) + LeBytes(n as nat, 4)
  }

  /** The compressed id a 20-byte key was built from. */
  function KeyId(k: Key): u128
    requires |k| == KEY_LEN
  {
    Pow256Widths();
    FromLe(k[..16]) as u128
  }

  /** The output index a 20-byte key was built from. */
  function KeyIndex(k: Key): u32
    requires |k| == KEY_LEN
  {
    Pow256Widths();
    FromLe(k[16..]) as u32
  }

  /** The key splits back into the id and the index it was built from. */
  lemma TxoKeySplit(id: u128, n: u32)
    ensures KeyId(TxoKey(id, n)) == id && KeyIndex(TxoKey(id, n)) == n
  {
    Pow256Widths();
    var k := TxoKey(id, n);
    assert k[..16] == LeBytes(id as nat, 16);
    assert k[16..] == LeBytes(n as nat, 4);
    LeRoundTrip(id as nat, 16);
    LeRoundTrip(n as nat, 4);
  }

  /** Distinct (id, index) pairs get distinct keys. */
  lemma TxoKeyInjective(id1: u128, n1: u32, id2: u128, n2: u32)
    ensures TxoKey(id1, n1) == TxoKey(id2, n2) <==> id1 == id2 && n1 == n2
  {
    TxoKeySplit(id1, n1);
    TxoKeySplit(id2, n2);
  }
}
