/**
 * Fixed byte layouts: a record is an ordered list of typed fields laid out back to
 * back with no padding between them, each field an unsigned integer of a given size
 * and byte order, a run of raw bytes, or an array of UTF-16 code units (always
 * stored little-endian). Decoding cuts a buffer of exactly the declared size into
 * the fields; encoding writes them back.
 */
module Layout {
  import opened Numeric
  import opened Errors

  datatype Kind =
    | UInt(size: nat, order: ByteOrder)
    | Bytes(len: nat)
    | Units(count: nat)

  /** A named field of a layout. */
  datatype FieldSpec = FieldSpec(name: string, kind: Kind)

  type RecordLayout = seq<FieldSpec>

  /** The decoded content of one field. */
  datatype Value =
    | Num(n: nat)
    | Raw(bytes: seq<u8>)
    | Text(units: seq<u16>)

  function Size(k: Kind): nat
  {
    match k
    case UInt(size, _) => size
    case Bytes(len) => len
    case Units(count) => 2 * count
  }

  /** The number of bytes a layout occupies. */
  function TotalSize(l: RecordLayout): nat
  {
    if |l| == 0 then 0 else Size(l[0].kind) + TotalSize(l[1..])
  }

  /** The byte offset of field i: the sizes of the fields before it. */
  function Offset(l: RecordLayout, i: nat): nat
    requires i <= |l|
  {
    if i == 0 then 0 else Offset(l, i - 1) + Size(l[i - 1].kind)
  }

  lemma {:induction false} OffsetOfPrefix(l: RecordLayout, i: nat)
    requires i <= |l|
    ensures TotalSize(l[..i]) == Offset(l, i)
  {
    if i > 0 {
      OffsetOfPrefix(l, i - 1);
      TotalSizeSplit(l[..i], i - 1);
      assert l[..i][..i - 1] == l[..i - 1];
    }
  }

  /** The size of a layout is the size of its first k fields plus that of the rest. */
  lemma {:induction false} TotalSizeSplit(l: RecordLayout, k: nat)
    requires k <= |l|
    ensures TotalSize(l) == TotalSize(l[..k]) + TotalSize(l[k..])
  {
    if k > 0 {
      TotalSizeSplit(l[1..], k - 1);
      assert l[1..][..k - 1] == l[..k][1..];
      assert l[1..][k - 1..] == l[k..];
    }
  }

  /** The size of a layout is the offset just past its last field. */
  lemma TotalSizeIsEndOffset(l: RecordLayout)
    ensures TotalSize(l) == Offset(l, |l|)
  {
    OffsetOfPrefix(l, |l|);
    assert l[..|l|] == l;
  }

  /** The value has the shape the field kind declares, and an integer fits its size. */
  predicate Fits(k: Kind, v: Value)
  {
    match k
    case UInt(size, _) => v.Num? && v.n < Pow256(size)
    case Bytes(len) => v.Raw? && |v.bytes| == len
    case Units(count) => v.Text? && |v.units| == count
  }

  predicate FitsAll(l: RecordLayout, vs: seq<Value>)
  {
    |vs| == |l| && forall i :: 0 <= i < |l| ==> Fits(l[i].kind, vs[i])
  }

  function EncodeUnits(us: seq<u16>): (s: seq<u8>)
    ensures |s| == 2 * |us|
  {
    if |us| == 0 then [] else LeBytes(us[0] as nat, 2) + EncodeUnits(us[1..])
  }

  function DecodeUnits(s: seq<u8>): (us: seq<u16>)
    requires |s| % 2 == 0
    ensures |us| == |s| / 2
  {
    if |s| == 0 then []
    else
      LeValueBound(s[..2]);
      [LeValue(s[..2]) as u16] + DecodeUnits(s[2..])
  }

  function EncodeValue(k: Kind, v: Value): (s: seq<u8>)
    requires Fits(k, v)
    ensures |s| == Size(k)
  {
    match k
    case UInt(size, order) => ToBytes(v.n, size, order)
    case Bytes(_) => v.bytes
    case Units(_) => EncodeUnits(v.units)
  }

  function DecodeValue(k: Kind, s: seq<u8>): (v: Value)
    requires |s| == Size(k)
    ensures Fits(k, v)
  {
    match k
    case UInt(size, order) => FromBytesBound(s, order); Num(FromBytes(s, order))
    case Bytes(_) => Raw(s)
    case Units(_) => Text(DecodeUnits(s))
  }

  /** The fields' encodings, concatenated in layout order. */
  function EncodeAll(l: RecordLayout, vs: seq<Value>): (s: seq<u8>)
    requires FitsAll(l, vs)
    ensures |s| == TotalSize(l)
  {
    if |l| == 0 then []
    else EncodeValue(l[0].kind, vs[0]) + EncodeAll(l[1..], vs[1..])
  }

  /** Cuts a buffer of the layout's exact size into its fields. */
  function DecodeAll(l: RecordLayout, s: seq<u8>): (vs: seq<Value>)
    requires |s| == TotalSize(l)
    ensures FitsAll(l, vs)
  {
    if |l| == 0 then []
    else
      var n := Size(l[0].kind);
      [DecodeValue(l[0].kind, s[..n])] + DecodeAll(l[1..], s[n..])
  }

  /** Decoding refuses a buffer whose length is not the layout's size. */
  function Decode(l: RecordLayout, s: seq<u8>): (r: Result<seq<Value>>)
    ensures r.Ok? <==> |s| == TotalSize(l)
    ensures r.Ok? ==> FitsAll(l, r.value) && r.value == DecodeAll(l, s)
    ensures !r.Ok? ==> r.error == SizeError
  {
    if |s| == TotalSize(l) then Ok(DecodeAll(l, s)) else Err(SizeError)
  }

  lemma {:induction false} UnitsRoundTrip(us: seq<u16>)
    ensures DecodeUnits(EncodeUnits(us)) == us
  {
    if |us| > 0 {
      var s := EncodeUnits(us);
      assert s[..2] == LeBytes(us[0] as nat, 2);
      assert s[2..] == EncodeUnits(us[1..]);
      LeRoundTrip(us[0] as nat, 2);
      UnitsRoundTrip(us[1..]);
    }
  }

  lemma {:induction false} UnitsBytesRoundTrip(s: seq<u8>)
    requires |s| % 2 == 0
    ensures EncodeUnits(DecodeUnits(s)) == s
  {
    if |s| > 0 {
      UnitsBytesRoundTrip(s[2..]);
      LeBytesOfValue(s[..2]);
      assert s == s[..2] + s[2..];
    }
  }

  lemma ValueRoundTrip(k: Kind, v: Value)
    requires Fits(k, v)
    ensures DecodeValue(k, EncodeValue(k, v)) == v
  {
    match k
    case UInt(size, order) => IntegerRoundTrip(v.n, size, order);
    case Bytes(_) =>
    case Units(_) => UnitsRoundTrip(v.units);
  }

  lemma ValueBytesRoundTrip(k: Kind, s: seq<u8>)
    requires |s| == Size(k)
    ensures EncodeValue(k, DecodeValue(k, s)) == s
  {
    match k
    case UInt(size, order) => BytesRoundTrip(s, order);
    case Bytes(_) =>
    case Units(_) => UnitsBytesRoundTrip(s);
  }

  /** Encoding the fields and decoding the bytes gives the fields back. */
  lemma {:induction false} DecodeEncode(l: RecordLayout, vs: seq<Value>)
    requires FitsAll(l, vs)
    ensures DecodeAll(l, EncodeAll(l, vs)) == vs
  {
    if |l| > 0 {
      var s := EncodeAll(l, vs);
      var n := Size(l[0].kind);
      assert s[..n] == EncodeValue(l[0].kind, vs[0]);
      assert s[n..] == EncodeAll(l[1..], vs[1..]);
      ValueRoundTrip(l[0].kind, vs[0]);
      FitsAllTail(l, vs);
      DecodeEncode(l[1..], vs[1..]);
    }
  }

  /** Decoding a buffer and encoding the fields gives the buffer back. */
  lemma {:induction false} EncodeDecode(l: RecordLayout, s: seq<u8>)
    requires |s| == TotalSize(l)
    ensures EncodeAll(l, DecodeAll(l, s)) == s
  {
    if |l| > 0 {
      var n := Size(l[0].kind);
      var vs := DecodeAll(l, s);
      assert vs[1..] == DecodeAll(l[1..], s[n..]);
      ValueBytesRoundTrip(l[0].kind, s[..n]);
      EncodeDecode(l[1..], s[n..]);
      assert s == s[..n] + s[n..];
    }
  }

  /** The offset of field i counted from the second field on, plus the first field's size. */
  lemma {:induction false} OffsetOfTail(l: RecordLayout, i: nat)
    requires 0 < i <= |l|
    ensures Offset(l, i) == Size(l[0].kind) + Offset(l[1..], i - 1)
  {
    if i > 1 {
      OffsetOfTail(l, i - 1);
      assert l[1..][i - 2] == l[i - 1];
    }
  }

  /** Field i's encoding sits in the record's image at the field's offset. */
  lemma {:induction false} EncodedFieldAt(l: RecordLayout, vs: seq<Value>, i: nat)
    requires FitsAll(l, vs) && i < |l|
    ensures Offset(l, i) + Size(l[i].kind) <= TotalSize(l)
    ensures EncodeAll(l, vs)[Offset(l, i)..Offset(l, i) + Size(l[i].kind)] == EncodeValue(l[i].kind, vs[i])
    decreases |l|, 1
  {
    if i == 0 {
      FitsAllTail(l, vs);
      HeadOfAppend(EncodeValue(l[0].kind, vs[0]), EncodeAll(l[1..], vs[1..]));
    } else {
      EncodedLaterFieldAt(l, vs, i);
    }
  }

  /** The step for a field after the first: its place in the rest of the image, shifted by the first field. */
  lemma {:induction false} EncodedLaterFieldAt(l: RecordLayout, vs: seq<Value>, i: nat)
    requires FitsAll(l, vs) && 0 < i < |l|
    ensures Offset(l, i) + Size(l[i].kind) <= TotalSize(l)
    ensures EncodeAll(l, vs)[Offset(l, i)..Offset(l, i) + Size(l[i].kind)] == EncodeValue(l[i].kind, vs[i])
    decreases |l|, 0
  {
    FitsAllTail(l, vs);
    var head, rest := EncodeValue(l[0].kind, vs[0]), EncodeAll(l[1..], vs[1..]);
    assert l[1..][i - 1] == l[i] && vs[1..][i - 1] == vs[i];
    EncodedFieldAt(l[1..], vs[1..], i - 1);
    OffsetOfTail(l, i);
    SliceOfAppend(head, rest, Offset(l[1..], i - 1), Size(l[i].kind), Offset(l, i), EncodeValue(l[i].kind, vs[i]));
  }

  lemma HeadOfAppend(a: seq<u8>, b: seq<u8>)
    ensures (a + b)[0..|a|] == a
  {
  }

  /** A run of bytes at offset o in b lies at |a| + o in a + b. */
  lemma SliceOfAppend(a: seq<u8>, b: seq<u8>, o: nat, w: nat, at: nat, run: seq<u8>)
    requires o + w <= |b| && b[o..o + w] == run && at == |a| + o
    ensures at + w <= |a + b| && (a + b)[at..at + w] == run
  {
    assert (a + b)[at..at + w] == b[o..o + w];
  }

  /** Field i is decoded from the bytes at the field's offset. */
  lemma DecodedFieldAt(l: RecordLayout, s: seq<u8>, i: nat)
    requires |s| == TotalSize(l) && i < |l|
    ensures Offset(l, i) + Size(l[i].kind) <= |s|
    ensures DecodeAll(l, s)[i] == DecodeValue(l[i].kind, s[Offset(l, i)..Offset(l, i) + Size(l[i].kind)])
  {
    var vs := DecodeAll(l, s);
    EncodeDecode(l, s);
    EncodedFieldAt(l, vs, i);
    ValueRoundTrip(l[i].kind, vs[i]);
  }

  /** The fields after the first fit the rest of the layout. */
  lemma FitsAllTail(l: RecordLayout, vs: seq<Value>)
    requires FitsAll(l, vs) && |l| > 0
    ensures Fits(l[0].kind, vs[0]) && FitsAll(l[1..], vs[1..])
  {
    assert forall i :: 0 <= i < |l| - 1 ==> l[1..][i] == l[i + 1] && vs[1..][i] == vs[i + 1];
  }

  /** The value of a field whose bytes are all zero. */
  function ZeroValue(k: Kind): (v: Value)
    ensures Fits(k, v)
  {
    match k
    case UInt(_, _) => Num(0)
    case Bytes(len) => Raw(seq(len, _ => 0))
    case Units(count) => Text(seq(count, _ => 0))
  }

  predicate AllZero(s: seq<u8>)
  {
    forall k :: 0 <= k < |s| ==> s[k] == 0
  }

  lemma {:induction false} LeBytesOfZero(n: nat)
    ensures AllZero(LeBytes(0, n))
  {
    if n > 0 {
      LeBytesOfZero(n - 1);
    }
  }

  lemma {:induction false} BeBytesOfZero(n: nat)
    ensures AllZero(BeBytes(0, n))
  {
    if n > 0 {
      BeBytesOfZero(n - 1);
    }
  }

  lemma {:induction false} UnitsOfZero(us: seq<u16>)
    requires forall k :: 0 <= k < |us| ==> us[k] == 0
    ensures AllZero(EncodeUnits(us))
  {
    if |us| > 0 {
      LeBytesOfZero(2);
      UnitsOfZero(us[1..]);
    }
  }

  /** A field holding its zero value is encoded as zero bytes. */
  lemma ZeroValueEncodesToZeros(k: Kind)
    ensures AllZero(EncodeValue(k, ZeroValue(k)))
  {
    match k
    case UInt(size, order) =>
      if order == BigEndian { BeBytesOfZero(size); } else { LeBytesOfZero(size); }
    case Bytes(_) =>
    case Units(count) => UnitsOfZero(seq(count, _ => 0));
  }

  /** A record whose every field holds its zero value is encoded as zero bytes. */
  lemma {:induction false} ZeroRecordEncodesToZeros(l: RecordLayout, vs: seq<Value>)
    requires |vs| == |l|
    requires forall i :: 0 <= i < |l| ==> vs[i] == ZeroValue(l[i].kind)
    ensures FitsAll(l, vs)
    ensures AllZero(EncodeAll(l, vs))
  {
    if |l| > 0 {
      assert forall i :: 0 <= i < |l| - 1 ==> l[1..][i] == l[i + 1] && vs[1..][i] == vs[i + 1];
      ZeroRecordEncodesToZeros(l[1..], vs[1..]);
      ZeroValueEncodesToZeros(l[0].kind);
    }
  }
}
