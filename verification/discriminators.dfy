/** The one-byte type tag at offset 0 of every account the program owns
    (`AccountDiscriminator`, a `#[repr(u8)]` enum), and its two conversions with
    `u8` (derived with `IntoPrimitive` and `TryFromPrimitive`). The values are
    part of the on-chain format: renumbering a variant orphans existing accounts. */
module Discriminators {
  import opened Bytes
  import opened Outcomes

  datatype AccountDiscriminator = Bus | Proof | Treasury

  /** `u8::from(d)` (`IntoPrimitive`): the tag byte of accounts of kind `d`.
      No kind is tagged 0, so an all-zero buffer is never an account. */
  function ToU8(d: AccountDiscriminator): (b: uint8)
    ensures b != 0
    ensures b as int <= 3
  {
    match d
    case Bus => 1
    case Proof => 2
    case Treasury => 3
  }

  /** num_enum's error for a byte that names no variant; it carries the byte. */
  datatype TryFromPrimitiveError = TryFromPrimitiveError(number: uint8)

  /** `AccountDiscriminator::try_from(b)` (`TryFromPrimitive`): the kind tagged `b`. */
  function TryFromU8(b: uint8): (r: Result<AccountDiscriminator, TryFromPrimitiveError>)
    ensures r.Success? <==> exists d :: ToU8(d) == b
    ensures r.Success? ==> ToU8(r.value) == b
    ensures r.Failure? ==> r.error == TryFromPrimitiveError(b)
  {
    if b == 1 then assert ToU8(Bus) == b; Success(Bus)
    else if b == 2 then assert ToU8(Proof) == b; Success(Proof)
    else if b == 3 then assert ToU8(Treasury) == b; Success(Treasury)
    else Failure(TryFromPrimitiveError(b))
  }

  /** No two kinds share a tag byte. */
  lemma ToU8Injective(d: AccountDiscriminator, e: AccountDiscriminator)
    ensures ToU8(d) == ToU8(e) <==> d == e
  {
  }

  /** The two conversions are inverse: decoding `b` yields `d` exactly when `d`
      encodes to `b`; in particular decoding an encoded kind gives it back. */
  lemma TryFromU8IsInverse(d: AccountDiscriminator, b: uint8)
    ensures TryFromU8(b) == Success(d) <==> ToU8(d) == b
    ensures TryFromU8(ToU8(d)) == Success(d)
  {
  }

  /** Decoding succeeds for exactly the three bytes 1, 2 and 3. */
  lemma TryFromU8Domain(b: uint8)
    ensures TryFromU8(b).Success? <==> 1 <= b <= 3
  {
  }
}
