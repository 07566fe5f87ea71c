# Discriminator-tagged account codec

A Dafny model of the account-data codec in `src/utils.rs` of the ore program
(a Solana program). Every account the program owns holds one fixed-layout
record behind an 8-byte header. Byte 0 of the header is the record type's
`AccountDiscriminator` tag: Bus = 1, Proof = 2, Treasury = 3. Bytes 1..7 are
reserved and never read. Three macros give each record type its codec:

- `impl_account_from_bytes` provides `try_from_bytes` and `try_from_bytes_mut`.
  Both check the tag byte. Then they let `bytemuck` reinterpret `data[8..]` in
  place as the record. That cast needs the slice to be exactly the record's size.
  Either check failing gives `InvalidAccountData`.
- `impl_to_bytes` gives `to_bytes`, the record's byte image (`bytemuck::bytes_of`).
- `impl_instruction_from_bytes` does the same exact-size cast on instruction data.
  There is no header and no tag, and failure gives `InvalidInstructionData`.

The macros are modelled once, as generic functions over a record type.

- `Utils.AccountType` is a record type: the discriminator it declares, plus its `Pod` layout.
- `Bytemuck.Layout` is the field widths in order. `size_of::<T>()` is their sum,
  because `#[derive(Pod)]` refuses padding.
- A record value is a sequence of field values. Its image lays the fields end
  to end. Integer fields are little-endian: the on-chain virtual machine is
  little-endian.

Files, one module each:

- `outcomes.dfy` (`Outcomes`): `Result`, the `ProgramError` variants the code
  raises, and `Outcome`. An `Outcome` either returns a `Result` or panics.
  Rust panics on `data[0]` when `data` is empty, and on `data[8..]` when `data`
  is shorter than 8. The model keeps those panics as explicit outcomes, not
  as preconditions.
- `bytes.dfy` (`Bytes`): `uint8` and little-endian integer images, with both round trips.
- `discriminators.dfy` (`Discriminators`): the `AccountDiscriminator` enum and
  its `IntoPrimitive` / `TryFromPrimitive` conversions.
- `bytemuck.dfy` (`Bytemuck`): what the codec uses from `bytemuck`. This is
  `bytes_of`, `try_from_bytes`, and `try_from_bytes_mut` with reading and
  writing through the `&mut T` it returns. It also proves that record values
  and byte images of the record's size correspond one to one.
- `utils.dfy` (`Utils`): the three macros' bodies and the properties of the account codec.

A buffer is accepted only when it is exactly 8 + `size_of::<T>()` bytes long.
`bytemuck::try_from_bytes` refuses any other length, so a longer buffer gets
`InvalidAccountData`.

## Model

| member | source | states |
|---|---|---|
| Discriminators.ToU8 | src/utils.rs:36-42 | Every kind's tag byte is one of 1..3, and none is 0, so an all-zero buffer is never an account |
| Discriminators.TryFromU8 | src/utils.rs:36-42 | `try_from` succeeds exactly on the bytes that some kind encodes to. On success the kind encodes back to the byte. Otherwise the error carries the offending byte |
| Discriminators.ToU8Injective | src/utils.rs:36-42 | Two kinds have the same tag byte iff they are the same kind |
| Discriminators.TryFromU8IsInverse | src/utils.rs:36-42 | Decoding `b` gives `d` iff `d` encodes to `b`; decode(encode(d)) = d |
| Discriminators.TryFromU8Domain | src/utils.rs:36-42 | Decoding a byte succeeds for exactly 1, 2 and 3 |
| Bytemuck.BytesOf | src/utils.rs:57-59 | A record's image is exactly `size_of::<T>()` bytes long |
| Bytemuck.FromImage | src/utils.rs:74 | Any slice of exactly the record's size reads as a well-formed record value |
| Bytemuck.FromImageBytesOf | src/utils.rs:57-59 | Reading a record's image in place gives the record back |
| Bytemuck.BytesOfFromImage | src/utils.rs:74 | Every slice of the record's size is the image of the record it reads as, so values and images correspond one to one |
| Bytemuck.TryFromBytes | src/utils.rs:74 | The cast succeeds iff the slice is exactly the record's size. The record it yields has the slice as its image. Otherwise it fails with a size mismatch |
| Bytemuck.TryFromBytesMut | src/utils.rs:84 | The mutable cast of `buf[from..]` succeeds iff that suffix is exactly the record's size. It then borrows that whole suffix and nothing before it |
| Bytemuck.Load | src/utils.rs:84 | Reading through a `&mut T` gives the record whose image is the borrowed bytes |
| Bytemuck.Store | src/utils.rs:84 | Writing a record through a `&mut T` changes only the borrowed bytes, keeps the length, and leaves the written record readable through the reference |
| Utils.TryFromBytes | src/utils.rs:68-77 | Panics iff the buffer is empty, or has the right tag and is shorter than 8. Returns a record iff the buffer is tagged with the type's discriminator and is exactly 8 + size bytes long; that record's image is `data[8..]`. Every other buffer gets `InvalidAccountData` |
| Utils.TryFromBytesMut | src/utils.rs:78-87 | Panics, succeeds and fails on the same buffers as the shared view. On success it borrows exactly `data[8..]`, never the header. Its only error is `InvalidAccountData` |
| Utils.ToBytes | src/utils.rs:54-61 | `to_bytes` gives exactly `size_of::<T>()` bytes, which the exact-size cast reads back as the same record |
| Utils.InstructionTryFromBytes | src/utils.rs:93-104 | Instruction data is accepted iff it is exactly one record long, with no header or tag; the record's image is then the whole data. It never panics, and its only error is `InvalidInstructionData`, never `InvalidAccountData` |
| Utils.WrongTagRejected | src/utils.rs:71-73 | A non-empty buffer with the wrong tag gets `InvalidAccountData` from both views, whatever its length; the slice `data[8..]` is never reached |
| Utils.TaggedBufferAcceptedIffExactSize | src/utils.rs:74-76 | With the right tag and at least 8 bytes, a buffer gives back the record read from `data[8..]` iff its length is exactly 8 + size, and `InvalidAccountData` otherwise |
| Utils.AtMostOneKindAccepts | src/utils.rs:71-76 | No buffer is accepted as records of two types with different discriminators |
| Utils.ReservedBytesIgnored | src/utils.rs:71-87 | Two buffers that differ only in header bytes 1..7 get identical outcomes from both views |
| Utils.MutMatchesShared | src/utils.rs:68-87 | The mutable view panics, fails and succeeds exactly when the shared view does, with the same panic. The record it borrows is the record the shared view returns |
| Utils.WriteThroughMut | src/utils.rs:78-87 | Writing any record through the mutable view keeps the length and bytes 0..7, so the account still parses. Both views then read back exactly the record written |
| Utils.AccountRoundTrip | src/utils.rs:57-76 | Any 8-byte header carrying the type's tag, followed by `to_bytes(r)`, is a valid account of that type, and the shared view reads it back as `r` |
| Utils.InstructionRoundTrip | src/utils.rs:57-59 | Instruction data produced by `to_bytes(r)` parses back as `r` |

Helpers without rows:

- `Bytes.Pow256`, `Bytes.ToLe`, `Bytes.FromLe` and their two round-trip lemmas
  `FromLeToLe` and `ToLeFromLe`.
- `Bytemuck.Width` and `Bytemuck.SizeOf`. `SizeOf` is `size_of::<T>()`.
- `Bytemuck.FieldFits` and `Bytemuck.Conforms`: the values a field or a record can hold.
- `Bytemuck.EncodeField`, `Bytemuck.DecodeField` and their two round-trip lemmas.
  `FromImageBytesOf` and `BytesOfFromImage` are built from these lemmas.
- `Bytemuck.Borrows`: a mutable reference lies inside the buffer and spans one record.
- `Utils.IsAccountOf`: the buffers accepted as an account of a given type.
- `Utils.PanicsOn`: the buffers on which the account views panic.
- `Utils.SameOutsideReserved`: two buffers that differ at most in header bytes 1..7.

## Left out

- `create_pda` (src/utils.rs:7-34): it only reads the `Rent` sysvar and calls
  `invoke_signed` and `system_instruction::create_account` across programs.
  All of this is runtime I/O and foreign calls, with no local logic to state.
- bytemuck's alignment check (`TargetAlignmentGreaterAndInputNotAligned`):
  slices are assumed suitably aligned, so the only failure modelled is the size mismatch.
- Signed integer fields (`i64` and the like): layouts have unsigned
  little-endian integers and byte arrays only. A signed field's image is the
  image of its two's-complement bit pattern, which an unsigned field of the same width already covers.
- Zero-copy aliasing and borrow lifetimes: `&T` and `&mut T` are modelled by
  the record value and by a `MutRef(offset, len)` window. Exclusivity is Rust's
  borrow checker's guarantee, not the codec's behaviour.
- The fields and meaning of the Bus, Proof and Treasury records: those
  structs are not part of this model, so record types are generic over a layout.
- Panics are modelled as a `Panicked` outcome that carries the out-of-range
  index or slice start. Rust's panic message text and unwinding are not modelled.
