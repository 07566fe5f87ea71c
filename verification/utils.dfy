/** The discriminator-tagged account codec that the `impl_account_from_bytes`,
    `impl_to_bytes` and `impl_instruction_from_bytes` macros attach to each record
    type, written once as generic functions over the record type.

    An account buffer is an 8-byte header followed by the record's image:
    byte 0 is the `AccountDiscriminator` tag of the record type, bytes 1..7 are
    reserved and never read. Instruction data carries no header at all. */
module Utils {
  import opened Bytes
  import opened Outcomes
  import opened Discriminators
  import Bytemuck

  /** Length of the account header; the record starts at this offset. */
  const HEADER_LEN: nat := 8

  /** A record type stored in accounts: the discriminator it declares
      (`Discriminator::discriminator()`) and its `Pod` layout. */
  datatype AccountType = AccountType(discriminator: AccountDiscriminator, layout: Bytemuck.Layout)

  /** The buffers that hold an account of type `t`: tagged with `t`'s
      discriminator and exactly one header plus one record long. */
  predicate IsAccountOf(t: AccountType, data: seq<uint8>) {
    |data| == HEADER_LEN + Bytemuck.SizeOf(t.layout) && data[0] == ToU8(t.discriminator)
  }

  /** The buffers on which reading an account of type `t` panics: the tag byte
      is missing, or it matches but the buffer ends inside the header. */
  predicate PanicsOn(t: AccountType, data: seq<uint8>) {
    |data| == 0 || (data[0] == ToU8(t.discriminator) && |data| < HEADER_LEN)
  }

  /** `AccountDeserialize::try_from_bytes`: the record an account buffer holds.
      It returns the record exactly when the buffer holds an account of type `t`,
      and then the record's image is the buffer past the header; every other
      non-panicking buffer is refused with `InvalidAccountData`. A buffer with the
      wrong tag is refused whatever its length. */
  function TryFromBytes(t: AccountType, data: seq<uint8>): (r: Outcome<Bytemuck.Value>)
    ensures r.Panicked? <==> PanicsOn(t, data)
    ensures |data| == 0 ==> r == Panicked(IndexOutOfBounds(0, 0))
    ensures 0 < |data| < HEADER_LEN && data[0] == ToU8(t.discriminator) ==>
              r == Panicked(SliceStartOutOfRange(HEADER_LEN, |data|))
    ensures r.Returned? ==> (r.result.Success? <==> IsAccountOf(t, data))
    ensures r.Returned? && r.result.Success? ==>
              Bytemuck.Conforms(t.layout, r.result.value)
              && Bytemuck.BytesOf(t.layout, r.result.value) == data[HEADER_LEN..]
    ensures r.Returned? && r.result.Failure? ==> r.result.error == InvalidAccountData
  {
    if |data| == 0 then Panicked(IndexOutOfBounds(0, |data|))
    else if ToU8(t.discriminator) != data[0] then Returned(Failure(InvalidAccountData))
    else if |data| < HEADER_LEN then Panicked(SliceStartOutOfRange(HEADER_LEN, |data|))
    else
      match Bytemuck.TryFromBytes(t.layout, data[HEADER_LEN..])
      case Success(v) => Returned(Success(v))
      case Failure(_) => Returned(Failure(InvalidAccountData))
  }

  /** `AccountDeserialize::try_from_bytes_mut`: an exclusive reference to the
      record an account buffer holds. It succeeds exactly when the buffer holds
      an account of type `t`, and then it borrows all of the buffer past the
      header and nothing else. */
  function TryFromBytesMut(t: AccountType, data: seq<uint8>): (r: Outcome<Bytemuck.MutRef>)
    ensures r.Panicked? <==> PanicsOn(t, data)
    ensures r.Returned? ==> (r.result.Success? <==> IsAccountOf(t, data))
    ensures r.Returned? && r.result.Success? ==>
              Bytemuck.Borrows(t.layout, data, r.result.value)
              && r.result.value.offset == HEADER_LEN
              && r.result.value.offset + r.result.value.len == |data|
    ensures r.Returned? && r.result.Failure? ==> r.result.error == InvalidAccountData
  {
    if |data| == 0 then Panicked(IndexOutOfBounds(0, |data|))
    else if ToU8(t.discriminator) != data[0] then Returned(Failure(InvalidAccountData))
    else if |data| < HEADER_LEN then Panicked(SliceStartOutOfRange(HEADER_LEN, |data|))
    else
      match Bytemuck.TryFromBytesMut(t.layout, data, HEADER_LEN)
      case Success(r) => Returned(Success(r))
      case Failure(_) => Returned(Failure(InvalidAccountData))
  }

  /** `to_bytes` (`impl_to_bytes`): the record's exact byte image. */
  function ToBytes(layout: Bytemuck.Layout, v: Bytemuck.Value): (s: seq<uint8>)
    requires Bytemuck.Conforms(layout, v)
    ensures |s| == Bytemuck.SizeOf(layout)
    ensures Bytemuck.TryFromBytes(layout, s) == Success(v)
  {
    Bytemuck.FromImageBytesOf(layout, v);
    Bytemuck.BytesOf(layout, v)
  }

  /** `try_from_bytes` of `impl_instruction_from_bytes`: instruction data read as
      a record, with no header and no tag. It succeeds exactly when the data is
      one record long, its result's image is then the data, and it fails only
      with `InvalidInstructionData`. It never panics. */
  function InstructionTryFromBytes(layout: Bytemuck.Layout, data: seq<uint8>): (r: Result<Bytemuck.Value, ProgramError>)
    ensures r.Success? <==> |data| == Bytemuck.SizeOf(layout)
    ensures r.Success? ==> Bytemuck.Conforms(layout, r.value) && Bytemuck.BytesOf(layout, r.value) == data
    ensures r.Failure? ==> r.error == InvalidInstructionData
  {
    match Bytemuck.TryFromBytes(layout, data)
    case Success(v) => Success(v)
    case Failure(_) => Failure(InvalidInstructionData)
  }

  /** A non-empty buffer whose tag is not `t`'s is refused with
      `InvalidAccountData` by both views, whatever its length: the header is
      never sliced. */
  lemma WrongTagRejected(t: AccountType, data: seq<uint8>)
    requires |data| > 0 && data[0] != ToU8(t.discriminator)
    ensures TryFromBytes(t, data) == Returned(Failure(InvalidAccountData))
    ensures TryFromBytesMut(t, data) == Returned(Failure(InvalidAccountData))
  {
  }

  /** With the right tag and a whole header, a buffer is accepted exactly when
      it is one record longer than the header, and its record is the bytes past
      the header; otherwise it is refused with `InvalidAccountData`. */
  lemma TaggedBufferAcceptedIffExactSize(t: AccountType, data: seq<uint8>)
    requires |data| >= HEADER_LEN && data[0] == ToU8(t.discriminator)
    ensures |data| - HEADER_LEN == Bytemuck.SizeOf(t.layout) ==>
              TryFromBytes(t, data) == Returned(Success(Bytemuck.FromImage(t.layout, data[HEADER_LEN..])))
    ensures |data| - HEADER_LEN != Bytemuck.SizeOf(t.layout) ==>
              TryFromBytes(t, data) == Returned(Failure(InvalidAccountData))
  {
  }

  /** No buffer is an account of two record types with different discriminators. */
  lemma AtMostOneKindAccepts(t: AccountType, u: AccountType, data: seq<uint8>)
    requires t.discriminator != u.discriminator
    ensures !(TryFromBytes(t, data).Returned? && TryFromBytes(t, data).result.Success?
              && TryFromBytes(u, data).Returned? && TryFromBytes(u, data).result.Success?)
  {
    ToU8Injective(t.discriminator, u.discriminator);
  }

  /** `a` and `b` differ at most in the reserved header bytes 1..7. */
  predicate SameOutsideReserved(a: seq<uint8>, b: seq<uint8>) {
    && |a| == |b|
    && (|a| > 0 ==> a[0] == b[0])
    && forall i :: HEADER_LEN <= i < |a| ==> a[i] == b[i]
  }

  /** The reserved header bytes are never read: buffers that differ only there
      give the same outcome from both views. */
  lemma ReservedBytesIgnored(t: AccountType, a: seq<uint8>, b: seq<uint8>)
    requires SameOutsideReserved(a, b)
    ensures TryFromBytes(t, a) == TryFromBytes(t, b)
    ensures TryFromBytesMut(t, a) == TryFromBytesMut(t, b)
  {
    if |a| >= HEADER_LEN {
      assert a[HEADER_LEN..] == b[HEADER_LEN..];
    }
  }

  /** The mutable view accepts, refuses and panics on exactly the buffers the
      shared view does, with the same error or panic, and the record it borrows
      is the record the shared view returns. */
  lemma MutMatchesShared(t: AccountType, data: seq<uint8>)
    ensures TryFromBytesMut(t, data).Panicked? <==> TryFromBytes(t, data).Panicked?
    ensures TryFromBytesMut(t, data).Panicked? ==>
              TryFromBytesMut(t, data).panic == TryFromBytes(t, data).panic
    ensures TryFromBytesMut(t, data).Returned? && TryFromBytesMut(t, data).result.Failure? <==>
              TryFromBytes(t, data).Returned? && TryFromBytes(t, data).result.Failure?
    ensures TryFromBytesMut(t, data).Returned? && TryFromBytesMut(t, data).result.Success? <==>
              TryFromBytes(t, data).Returned? && TryFromBytes(t, data).result.Success?
    ensures TryFromBytesMut(t, data).Returned? && TryFromBytesMut(t, data).result.Success? ==>
              Bytemuck.Load(t.layout, data, TryFromBytesMut(t, data).result.value)
              == TryFromBytes(t, data).result.value
  {
    var m := TryFromBytesMut(t, data);
    if m.Returned? && m.result.Success? {
      var ref := m.result.value;
      assert data[ref.offset..ref.offset + ref.len] == data[HEADER_LEN..];
    }
  }

  /** Writing a record through the mutable view changes only the bytes past the
      header: the length and the header (tag included) are kept, so the buffer
      still holds an account of type `t`, and reading it afterwards, through
      either view, gives the record written. */
  lemma WriteThroughMut(t: AccountType, data: seq<uint8>, v: Bytemuck.Value)
    requires TryFromBytesMut(t, data).Returned? && TryFromBytesMut(t, data).result.Success?
    requires Bytemuck.Conforms(t.layout, v)
    ensures var ref := TryFromBytesMut(t, data).result.value;
            var after := Bytemuck.Store(t.layout, data, ref, v);
            && |after| == |data|
            && after[..HEADER_LEN] == data[..HEADER_LEN]
            && TryFromBytesMut(t, after) == TryFromBytesMut(t, data)
            && TryFromBytes(t, after) == Returned(Success(v))
  {
    var ref := TryFromBytesMut(t, data).result.value;
    var after := Bytemuck.Store(t.layout, data, ref, v);
    assert after[0] == after[..HEADER_LEN][0] == data[..HEADER_LEN][0] == data[0];
    assert after[HEADER_LEN..] == Bytemuck.BytesOf(t.layout, v);
    Bytemuck.FromImageBytesOf(t.layout, v);
  }

  /** Prefixing a record's image with any header that carries the record
      type's tag gives a buffer the shared view reads back as that record. */
  lemma AccountRoundTrip(t: AccountType, header: seq<uint8>, v: Bytemuck.Value)
    requires |header| == HEADER_LEN && header[0] == ToU8(t.discriminator)
    requires Bytemuck.Conforms(t.layout, v)
    ensures IsAccountOf(t, header + ToBytes(t.layout, v))
    ensures TryFromBytes(t, header + ToBytes(t.layout, v)) == Returned(Success(v))
  {
    var data := header + ToBytes(t.layout, v);
    assert data[HEADER_LEN..] == ToBytes(t.layout, v);
  }

  /** Instruction data written with `to_bytes` is read back as the same record. */
  lemma InstructionRoundTrip(layout: Bytemuck.Layout, v: Bytemuck.Value)
    requires Bytemuck.Conforms(layout, v)
    ensures InstructionTryFromBytes(layout, ToBytes(layout, v)) == Success(v)
  {
  }
}
