/** Bytes, and the little-endian byte order in which the fixed-width integer
    fields of a record lie in account data (the on-chain virtual machine is
    little-endian, so a field's in-memory image is its `to_le_bytes`). */
module Bytes {

  /** Rust's `u8`. */
  newtype uint8 = x: int | 0 <= x < 256

  /** 256^w: how many values a `w`-byte unsigned integer can hold. Its bound
      `p >= 1` is only there so that `ToLe`'s precondition can be met (by 0). */
  function Pow256(w: nat): (p: nat)
    ensures p >= 1
  {
    if w == 0 then 1 else 256 * Pow256(w - 1)
  }

  /** The `w`-byte little-endian image of `n` (least significant byte first). */
  function ToLe(n: nat, w: nat): (s: seq<uint8>)
    requires n < Pow256(w)
    ensures |s| == w
  {
    if w == 0 then [] else [(n % 256) as uint8] + ToLe(n / 256, w - 1)
  }

  /** The unsigned integer a little-endian byte string denotes. */
  function FromLe(s: seq<uint8>): (n: nat)
    ensures n < Pow256(|s|)
  {
    if |s| == 0 then 0 else s[0] as nat + 256 * FromLe(s[1..])
  }

  /** Reading back a written integer gives the integer. */
  lemma {:induction false} FromLeToLe(n: nat, w: nat)
    requires n < Pow256(w)
    ensures FromLe(ToLe(n, w)) == n
  {
    if w > 0 {
      var s := ToLe(n, w);
      assert s[1..] == ToLe(n / 256, w - 1);
      FromLeToLe(n / 256, w - 1);
    }
  }

  /** Writing back a read integer gives the bytes it was read from: every byte
      string of width `w` is the image of exactly one integer below 256^w. */
  lemma {:induction false} ToLeFromLe(s: seq<uint8>)
    ensures ToLe(FromLe(s), |s|) == s
  {
    if |s| > 0 {
      var n := FromLe(s);
      assert n % 256 == s[0] as nat;
      assert n / 256 == FromLe(s[1..]);
      ToLeFromLe(s[1..]);
      assert s == [s[0]] + s[1..];
    }
  }
}
