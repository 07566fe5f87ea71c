/** What the codec relies on from `bytemuck`: a `Pod` record type has a fixed,
    padding-free layout, so a value of it IS its byte image. `bytes_of` exposes
    that image, and `try_from_bytes` / `try_from_bytes_mut` reinterpret a byte
    slice as a record, in place, when the slice has exactly the record's size.

    A record type is described by its layout: the widths of its fields in
    declaration order. `#[derive(Pod)]` refuses structs with padding, so the
    image is the fields' images laid end to end. */
module Bytemuck {
  import opened Bytes
  import opened Outcomes

  /** A field of a `Pod` record: an unsigned little-endian integer of `width`
      bytes (`u8` … `u128`), or a byte array `[u8; len]` (a `Pubkey`, a hash). */
  datatype FieldKind = UInt(width: nat) | ByteArray(len: nat)

  type Layout = seq<FieldKind>

  /** The value held in one field. */
  datatype FieldValue = UIntValue(n: nat) | ArrayValue(bytes: seq<uint8>)

  /** A record value, field by field. */
  type Value = seq<FieldValue>

  function Width(k: FieldKind): nat {
    match k
    case UInt(w) => w
    case ByteArray(len) => len
  }

  /** `size_of::<T>()` for a padding-free record. */
  function SizeOf(layout: Layout): nat {
    if |layout| == 0 then 0 else Width(layout[0]) + SizeOf(layout[1..])
  }

  /** `v` is a value a field of kind `k` can hold. */
  predicate FieldFits(k: FieldKind, v: FieldValue) {
    match k
    case UInt(w) => v.UIntValue? && v.n < Pow256(w)
    case ByteArray(len) => v.ArrayValue? && |v.bytes| == len
  }

  /** `v` is a value of the record type with this layout. */
  predicate Conforms(layout: Layout, v: Value) {
    |v| == |layout| && forall i :: 0 <= i < |layout| ==> FieldFits(layout[i], v[i])
  }

  /** The in-memory image of one field. */
  function EncodeField(k: FieldKind, v: FieldValue): (s: seq<uint8>)
    requires FieldFits(k, v)
    ensures |s| == Width(k)
  {
    match k
    case UInt(w) => ToLe(v.n, w)
    case ByteArray(_) => v.bytes
  }

  /** The field value an image of the field's width holds. */
  function DecodeField(k: FieldKind, s: seq<uint8>): (v: FieldValue)
    requires |s| == Width(k)
    ensures FieldFits(k, v)
  {
    match k
    case UInt(_) => UIntValue(FromLe(s))
    case ByteArray(_) => ArrayValue(s)
  }

  lemma DecodeEncodeField(k: FieldKind, v: FieldValue)
    requires FieldFits(k, v)
    ensures DecodeField(k, EncodeField(k, v)) == v
  {
    if k.UInt? {
      FromLeToLe(v.n, k.width);
    }
  }

  lemma EncodeDecodeField(k: FieldKind, s: seq<uint8>)
    requires |s| == Width(k)
    ensures EncodeField(k, DecodeField(k, s)) == s
  {
    if k.UInt? {
      ToLeFromLe(s);
    }
  }

  /** `bytemuck::bytes_of`: the record's image, exactly `size_of::<T>()` bytes. */
  function BytesOf(layout: Layout, v: Value): (s: seq<uint8>)
    requires Conforms(layout, v)
    ensures |s| == SizeOf(layout)
    decreases |layout|
  {
    if |layout| == 0 then []
    else EncodeField(layout[0], v[0]) + BytesOf(layout[1..], v[1..])
  }

  /** The record an image of exactly `size_of::<T>()` bytes is, read in place. */
  function FromImage(layout: Layout, s: seq<uint8>): (v: Value)
    requires |s| == SizeOf(layout)
    ensures Conforms(layout, v)
    decreases |layout|
  {
    if |layout| == 0 then []
    else
      var w := Width(layout[0]);
      [DecodeField(layout[0], s[..w])] + FromImage(layout[1..], s[w..])
  }

  /** Reading a record's image gives the record back. */
  lemma {:induction false} FromImageBytesOf(layout: Layout, v: Value)
    requires Conforms(layout, v)
    ensures FromImage(layout, BytesOf(layout, v)) == v
    decreases |layout|
  {
    if |layout| > 0 {
      var head := EncodeField(layout[0], v[0]);
      var tail := BytesOf(layout[1..], v[1..]);
      var s := BytesOf(layout, v);
      assert s[..|head|] == head;
      assert s[|head|..] == tail;
      DecodeEncodeField(layout[0], v[0]);
      FromImageBytesOf(layout[1..], v[1..]);
      assert v == [v[0]] + v[1..];
    }
  }

  /** Every image of the right size is the image of the record it reads as:
      record values and byte images correspond one to one. */
  lemma {:induction false} BytesOfFromImage(layout: Layout, s: seq<uint8>)
    requires |s| == SizeOf(layout)
    ensures BytesOf(layout, FromImage(layout, s)) == s
    decreases |layout|
  {
    if |layout| > 0 {
      var w := Width(layout[0]);
      var v := FromImage(layout, s);
      assert v[0] == DecodeField(layout[0], s[..w]);
      assert v[1..] == FromImage(layout[1..], s[w..]);
      EncodeDecodeField(layout[0], s[..w]);
      BytesOfFromImage(layout[1..], s[w..]);
      assert s == s[..w] + s[w..];
    }
  }

  /** bytemuck's failure when the slice does not have the record's size (its
      alignment failure is not modelled). */
  datatype PodCastError = SizeMismatch

  /** `bytemuck::try_from_bytes::<T>(s)`: `s` read as a `T`, provided it is
      exactly `size_of::<T>()` bytes long; the result's image is `s` itself. */
  function TryFromBytes(layout: Layout, s: seq<uint8>): (r: Result<Value, PodCastError>)
    ensures r.Success? <==> |s| == SizeOf(layout)
    ensures r.Success? ==> Conforms(layout, r.value) && BytesOf(layout, r.value) == s
    ensures r.Failure? ==> r.error == SizeMismatch
  {
    if |s| != SizeOf(layout) then Failure(SizeMismatch)
    else
      BytesOfFromImage(layout, s);
      Success(FromImage(layout, s))
  }

  /** A `&mut T` into a buffer: exclusive access to the `len` bytes at `offset`. */
  datatype MutRef = MutRef(offset: nat, len: nat)

  /** `r` is an exclusive reference to a `T` lying inside `buf`. */
  predicate Borrows(layout: Layout, buf: seq<uint8>, r: MutRef) {
    r.len == SizeOf(layout) && r.offset + r.len <= |buf|
  }

  /** `bytemuck::try_from_bytes_mut::<T>(&mut buf[from..])`: a mutable `T` over
      the whole suffix from `from`, provided that suffix has exactly the size of `T`. */
  function TryFromBytesMut(layout: Layout, buf: seq<uint8>, from: nat): (r: Result<MutRef, PodCastError>)
    requires from <= |buf|
    ensures r.Success? <==> |buf| - from == SizeOf(layout)
    ensures r.Success? ==> Borrows(layout, buf, r.value)
    ensures r.Success? ==> r.value.offset == from && r.value.offset + r.value.len == |buf|
    ensures r.Failure? ==> r.error == SizeMismatch
  {
    if |buf| - from != SizeOf(layout) then Failure(SizeMismatch)
    else Success(MutRef(from, SizeOf(layout)))
  }

  /** `*r`: the record the referenced bytes currently hold. */
  function Load(layout: Layout, buf: seq<uint8>, r: MutRef): (v: Value)
    requires Borrows(layout, buf, r)
    ensures Conforms(layout, v)
    ensures BytesOf(layout, v) == buf[r.offset..r.offset + r.len]
  {
    BytesOfFromImage(layout, buf[r.offset..r.offset + r.len]);
    FromImage(layout, buf[r.offset..r.offset + r.len])
  }

  /** The buffer after `*r = v`: the write lands in the referenced bytes and
      nowhere else, and reading through `r` afterwards gives `v`. */
  function Store(layout: Layout, buf: seq<uint8>, r: MutRef, v: Value): (b: seq<uint8>)
    requires Borrows(layout, buf, r)
    requires Conforms(layout, v)
    ensures |b| == |buf|
    ensures b[..r.offset] == buf[..r.offset]
    ensures b[r.offset + r.len..] == buf[r.offset + r.len..]
    ensures b[r.offset..r.offset + r.len] == BytesOf(layout, v)
    ensures Load(layout, b, r) == v
  {
    var b := buf[..r.offset] + BytesOf(layout, v) + buf[r.offset + r.len..];
    assert b[r.offset..r.offset + r.len] == BytesOf(layout, v);
    FromImageBytesOf(layout, v);
    b
  }
}
