/**
 * The 0x5C-byte Mii avatar record: its fields in declared order, its fifteen
 * bit-field groups, and its byte-exact decoding and encoding.
 */
module Mii {
  import opened Numeric
  import opened Layout
  import opened Errors
  import BitField

  type Mac = s: seq<u8> | |s| == 6 witness [0, 0, 0, 0, 0, 0]
  type MiiName = s: seq<u16> | |s| == 10 witness [0, 0, 0, 0, 0, 0, 0, 0, 0, 0]

  /**
   * The byte order in which a 16- or 32-bit bit-field group word is assembled
   * from its storage bytes before sub-field bit offsets are counted. The storage
   * is declared big-endian; whether the accessors count bit offsets on that value
   * or on the host-order reading of the same bytes depends on an accessor
   * template that is not part of this model, so the choice is this one constant.
   */
  const GroupWordOrder: ByteOrder := BigEndian

  /** The byte order of the plain `u16 pad` field: host order, little-endian on the usual hosts. */
  const HostOrder: ByteOrder := LittleEndian

  /** A Mii record. Bit-field groups hold their whole storage word. */
  datatype MiiData = MiiData(
    magic: u8,
    miiOptions: u8,
    miiPos: u8,
    consoleIdentity: u8,
    systemId: u64,
    miiId: u32,
    mac: Mac,
    pad: u16,
    miiDetails: u16,
    miiName: MiiName,
    height: u8,
    width: u8,
    faceStyle: u8,
    faceDetails: u8,
    hairStyle: u8,
    hairDetails: u8,
    eyeDetails: u32,
    eyebrowDetails: u32,
    noseDetails: u16,
    mouthDetails: u16,
    mustacheDetails: u16,
    beardDetails: u16,
    glassesDetails: u16,
    moleDetails: u16,
    authorName: MiiName)

  /** Every field zero, as value-initialisation leaves it. */
  const DefaultMii: MiiData := MiiData(0, 0, 0, 0, 0, 0, seq(6, _ => 0), 0, 0,
    seq(10, _ => 0), 0, 0, 0, 0, 0, 0, 0, 0, 0, 0, 0, 0, 0, 0, seq(10, _ => 0))

  /** Every integer field is zero and every array holds only zeros. */
  predicate IsZero(m: MiiData)
  {
    && m.magic == 0 && m.miiOptions == 0 && m.miiPos == 0 && m.consoleIdentity == 0
    && m.systemId == 0 && m.miiId == 0 && m.pad == 0 && m.miiDetails == 0
    && m.height == 0 && m.width == 0 && m.faceStyle == 0 && m.faceDetails == 0
    && m.hairStyle == 0 && m.hairDetails == 0 && m.eyeDetails == 0 && m.eyebrowDetails == 0
    && m.noseDetails == 0 && m.mouthDetails == 0 && m.mustacheDetails == 0
    && m.beardDetails == 0 && m.glassesDetails == 0 && m.moleDetails == 0
    && (forall k :: 0 <= k < 6 ==> m.mac[k] == 0)
    && (forall k :: 0 <= k < 10 ==> m.miiName[k] == 0 && m.authorName[k] == 0)
  }

  /** The value-initialised record is the zero record, and the only one. */
  lemma DefaultMiiIsZero(m: MiiData)
    ensures IsZero(m) <==> m == DefaultMii
  {
    if IsZero(m) {
      assert m.mac == DefaultMii.mac;
      assert m.miiName == DefaultMii.miiName;
      assert m.authorName == DefaultMii.authorName;
    }
  }

  const MiiSize: nat := 0x5C

  /** The packed layout, one entry per declared field, in declaration order. */
  const MiiLayout: RecordLayout := [
    FieldSpec("magic", UInt(1, BigEndian)),
    FieldSpec("mii_options", UInt(1, BigEndian)),
    FieldSpec("mii_pos", UInt(1, BigEndian)),
    FieldSpec("console_identity", UInt(1, BigEndian)),
    FieldSpec("system_id", UInt(8, BigEndian)),
    FieldSpec("mii_id", UInt(4, BigEndian)),
    FieldSpec("mac", Bytes(6)),
    FieldSpec("pad", UInt(2, HostOrder)),
    FieldSpec("mii_details", UInt(2, GroupWordOrder)),
    FieldSpec("mii_name", Units(10)),
    FieldSpec("height", UInt(1, BigEndian)),
    FieldSpec("width", UInt(1, BigEndian)),
    FieldSpec("face_style", UInt(1, BigEndian)),
    FieldSpec("face_details", UInt(1, BigEndian)),
    FieldSpec("hair_style", UInt(1, BigEndian)),
    FieldSpec("hair_details", UInt(1, BigEndian)),
    FieldSpec("eye_details", UInt(4, GroupWordOrder)),
    FieldSpec("eyebrow_details", UInt(4, GroupWordOrder)),
    FieldSpec("nose_details", UInt(2, GroupWordOrder)),
    FieldSpec("mouth_details", UInt(2, GroupWordOrder)),
    FieldSpec("mustache_details", UInt(2, GroupWordOrder)),
    FieldSpec("beard_details", UInt(2, GroupWordOrder)),
    FieldSpec("glasses_details", UInt(2, GroupWordOrder)),
    FieldSpec("mole_details", UInt(2, GroupWordOrder)),
    FieldSpec("author_name", Units(10))
  ]

  /** The record's fields as layout values, in declaration (and serialization) order. */
  function Fields(m: MiiData): (vs: seq<Value>)
    ensures FitsAll(MiiLayout, vs)
  {
    [Num(m.magic as nat), Num(m.miiOptions as nat), Num(m.miiPos as nat),
     Num(m.consoleIdentity as nat), Num(m.systemId as nat), Num(m.miiId as nat),
     Raw(m.mac), Num(m.pad as nat), Num(m.miiDetails as nat), Text(m.miiName),
     Num(m.height as nat), Num(m.width as nat), Num(m.faceStyle as nat),
     Num(m.faceDetails as nat), Num(m.hairStyle as nat), Num(m.hairDetails as nat),
     Num(m.eyeDetails as nat), Num(m.eyebrowDetails as nat), Num(m.noseDetails as nat),
     Num(m.mouthDetails as nat), Num(m.mustacheDetails as nat), Num(m.beardDetails as nat),
     Num(m.glassesDetails as nat), Num(m.moleDetails as nat), Text(m.authorName)]
  }

  /** What the layout guarantees of the fields before the name: each integer fits its width. */
  lemma HeadFieldsFit(vs: seq<Value>)
    requires FitsAll(MiiLayout, vs)
    ensures vs[0].Num? && vs[0].n < 0x100
    ensures vs[1].Num? && vs[1].n < 0x100
    ensures vs[2].Num? && vs[2].n < 0x100
    ensures vs[3].Num? && vs[3].n < 0x100
    ensures vs[4].Num? && vs[4].n < 0x1_0000_0000_0000_0000
    ensures vs[5].Num? && vs[5].n < 0x1_0000_0000
    ensures vs[6].Raw? && |vs[6].bytes| == 6
    ensures vs[7].Num? && vs[7].n < 0x1_0000
    ensures vs[8].Num? && vs[8].n < 0x1_0000
  {
    Pow256Values();
    assert Fits(MiiLayout[0].kind, vs[0]);
    assert Fits(MiiLayout[1].kind, vs[1]);
    assert Fits(MiiLayout[2].kind, vs[2]);
    assert Fits(MiiLayout[3].kind, vs[3]);
    assert Fits(MiiLayout[4].kind, vs[4]);
    assert Fits(MiiLayout[5].kind, vs[5]);
    assert Fits(MiiLayout[6].kind, vs[6]);
    assert Fits(MiiLayout[7].kind, vs[7]);
    assert Fits(MiiLayout[8].kind, vs[8]);
  }

  /** What the layout guarantees of the fields from the name on. */
  lemma TailFieldsFit(vs: seq<Value>)
    requires FitsAll(MiiLayout, vs)
    ensures vs[9].Text? && |vs[9].units| == 10
    ensures vs[10].Num? && vs[10].n < 0x100
    ensures vs[11].Num? && vs[11].n < 0x100
    ensures vs[12].Num? && vs[12].n < 0x100
    ensures vs[13].Num? && vs[13].n < 0x100
    ensures vs[14].Num? && vs[14].n < 0x100
    ensures vs[15].Num? && vs[15].n < 0x100
    ensures vs[16].Num? && vs[16].n < 0x1_0000_0000
    ensures vs[17].Num? && vs[17].n < 0x1_0000_0000
    ensures vs[18].Num? && vs[18].n < 0x1_0000
    ensures vs[19].Num? && vs[19].n < 0x1_0000
    ensures vs[20].Num? && vs[20].n < 0x1_0000
    ensures vs[21].Num? && vs[21].n < 0x1_0000
    ensures vs[22].Num? && vs[22].n < 0x1_0000
    ensures vs[23].Num? && vs[23].n < 0x1_0000
    ensures vs[24].Text? && |vs[24].units| == 10
  {
    Pow256Values();
    assert Fits(MiiLayout[9].kind, vs[9]);
    assert Fits(MiiLayout[10].kind, vs[10]);
    assert Fits(MiiLayout[11].kind, vs[11]);
    assert Fits(MiiLayout[12].kind, vs[12]);
    assert Fits(MiiLayout[13].kind, vs[13]);
    assert Fits(MiiLayout[14].kind, vs[14]);
    assert Fits(MiiLayout[15].kind, vs[15]);
    assert Fits(MiiLayout[16].kind, vs[16]);
    assert Fits(MiiLayout[17].kind, vs[17]);
    assert Fits(MiiLayout[18].kind, vs[18]);
    assert Fits(MiiLayout[19].kind, vs[19]);
    assert Fits(MiiLayout[20].kind, vs[20]);
    assert Fits(MiiLayout[21].kind, vs[21]);
    assert Fits(MiiLayout[22].kind, vs[22]);
    assert Fits(MiiLayout[23].kind, vs[23]);
    assert Fits(MiiLayout[24].kind, vs[24]);
  }

  function FromFields(vs: seq<Value>): MiiData
    requires FitsAll(MiiLayout, vs)
  {
    HeadFieldsFit(vs);
    TailFieldsFit(vs);
    MiiData(vs[0].n as u8, vs[1].n as u8, vs[2].n as u8, vs[3].n as u8,
      vs[4].n as u64, vs[5].n as u32, vs[6].bytes, vs[7].n as u16, vs[8].n as u16,
      vs[9].units, vs[10].n as u8, vs[11].n as u8, vs[12].n as u8, vs[13].n as u8,
      vs[14].n as u8, vs[15].n as u8, vs[16].n as u32, vs[17].n as u32,
      vs[18].n as u16, vs[19].n as u16, vs[20].n as u16, vs[21].n as u16,
      vs[22].n as u16, vs[23].n as u16, vs[24].units)
  }

  lemma FieldsRoundTrip(m: MiiData)
    ensures FromFields(Fields(m)) == m
  {
  }

  lemma FromFieldsRoundTrip(vs: seq<Value>)
    requires FitsAll(MiiLayout, vs)
    ensures Fields(FromFields(vs)) == vs
  {
    Pow256Values();
    var ws := Fields(FromFields(vs));
    forall i | 0 <= i < |vs| ensures ws[i] == vs[i] {
      assert Fits(MiiLayout[i].kind, vs[i]);
    }
  }

  /** The layout is exactly 0x5C bytes: no implicit padding. */
  lemma MiiLayoutSize()
    ensures TotalSize(MiiLayout) == MiiSize
  {
    MiiOffsets();
    TotalSizeIsEndOffset(MiiLayout);
  }

  /** The byte image of a record. */
  function Encode(m: MiiData): (s: seq<u8>)
    ensures |s| == MiiSize
  {
    MiiLayoutSize();
    EncodeAll(MiiLayout, Fields(m))
  }

  /**
   * Reads a record from a buffer of exactly 0x5C bytes. Every bit pattern is a
   * record: encoding the record read gives the buffer back.
   */
  function DecodeExact(s: seq<u8>): (m: MiiData)
    requires |s| == MiiSize
    ensures Encode(m) == s
  {
    MiiLayoutSize();
    var vs := DecodeAll(MiiLayout, s);
    FromFieldsRoundTrip(vs);
    Layout.EncodeDecode(MiiLayout, s);
    FromFields(vs)
  }

  /** Decoding refuses a buffer that is not exactly 0x5C bytes. */
  function Decode(s: seq<u8>): (r: Result<MiiData>)
    ensures r.Ok? <==> |s| == MiiSize
    ensures r.Ok? ==> r.value == DecodeExact(s)
    ensures !r.Ok? ==> r.error == SizeError
  {
    if |s| == MiiSize then Ok(DecodeExact(s)) else Err(SizeError)
  }

  /** A value-initialised record is stored as 0x5C zero bytes. */
  lemma DefaultMiiEncodesToZeros()
    ensures Layout.AllZero(Encode(DefaultMii))
  {
    MiiLayoutSize();
    DefaultFieldsZero(0, 9);
    DefaultFieldsZero(9, 17);
    DefaultFieldsZero(17, 25);
    ZeroRecordEncodesToZeros(MiiLayout, Fields(DefaultMii));
  }

  lemma DefaultFieldsZero(lo: nat, hi: nat)
    requires lo <= hi <= |MiiLayout|
    ensures forall i :: lo <= i < hi ==> Fields(DefaultMii)[i] == ZeroValue(MiiLayout[i].kind)
  {
  }

  /** Encoding a record and decoding the bytes gives the record back. */
  lemma DecodeEncode(m: MiiData)
    ensures DecodeExact(Encode(m)) == m
  {
    MiiLayoutSize();
    Layout.DecodeEncode(MiiLayout, Fields(m));
    FieldsRoundTrip(m);
  }

  lemma MiiOffset1()
    ensures Offset(MiiLayout, 1) == 1
  {
  }

  lemma MiiOffset2()
    ensures Offset(MiiLayout, 2) == 2
  {
    MiiOffset1();
  }

  lemma MiiOffset3()
    ensures Offset(MiiLayout, 3) == 3
  {
    MiiOffset2();
  }

  lemma MiiOffset4()
    ensures Offset(MiiLayout, 4) == 4
  {
    MiiOffset3();
  }

  lemma MiiOffset5()
    ensures Offset(MiiLayout, 5) == 12
  {
    MiiOffset4();
  }

  lemma MiiOffset6()
    ensures Offset(MiiLayout, 6) == 16
  {
    MiiOffset5();
  }

  lemma MiiOffset7()
    ensures Offset(MiiLayout, 7) == 22
  {
    MiiOffset6();
  }

  lemma MiiOffset8()
    ensures Offset(MiiLayout, 8) == 24
  {
    MiiOffset7();
  }

  lemma MiiOffset9()
    ensures Offset(MiiLayout, 9) == 26
  {
    MiiOffset8();
  }

  lemma MiiOffset10()
    ensures Offset(MiiLayout, 10) == 46
  {
    MiiOffset9();
  }

  lemma MiiOffset11()
    ensures Offset(MiiLayout, 11) == 47
  {
    MiiOffset10();
  }

  lemma MiiOffset12()
    ensures Offset(MiiLayout, 12) == 48
  {
    MiiOffset11();
  }

  lemma MiiOffset13()
    ensures Offset(MiiLayout, 13) == 49
  {
    MiiOffset12();
  }

  lemma MiiOffset14()
    ensures Offset(MiiLayout, 14) == 50
  {
    MiiOffset13();
  }

  lemma MiiOffset15()
    ensures Offset(MiiLayout, 15) == 51
  {
    MiiOffset14();
  }

  lemma MiiOffset16()
    ensures Offset(MiiLayout, 16) == 52
  {
    MiiOffset15();
  }

  lemma MiiOffset17()
    ensures Offset(MiiLayout, 17) == 56
  {
    MiiOffset16();
  }

  lemma MiiOffset18()
    ensures Offset(MiiLayout, 18) == 60
  {
    MiiOffset17();
  }

  lemma MiiOffset19()
    ensures Offset(MiiLayout, 19) == 62
  {
    MiiOffset18();
  }

  lemma MiiOffset20()
    ensures Offset(MiiLayout, 20) == 64
  {
    MiiOffset19();
  }

  lemma MiiOffset21()
    ensures Offset(MiiLayout, 21) == 66
  {
    MiiOffset20();
  }

  lemma MiiOffset22()
    ensures Offset(MiiLayout, 22) == 68
  {
    MiiOffset21();
  }

  lemma MiiOffset23()
    ensures Offset(MiiLayout, 23) == 70
  {
    MiiOffset22();
  }

  lemma MiiOffset24()
    ensures Offset(MiiLayout, 24) == 72
  {
    MiiOffset23();
  }

  lemma MiiOffset25()
    ensures Offset(MiiLayout, 25) == 92
  {
    MiiOffset24();
  }

  /** Field offsets of the packed record, and its end at 0x5C. */
  lemma MiiOffsets()
    ensures MiiLayout[4].name == "system_id" && Offset(MiiLayout, 4) == 4
    ensures MiiLayout[5].name == "mii_id" && Offset(MiiLayout, 5) == 12
    ensures MiiLayout[6].name == "mac" && Offset(MiiLayout, 6) == 16
    ensures MiiLayout[7].name == "pad" && Offset(MiiLayout, 7) == 22
    ensures MiiLayout[8].name == "mii_details" && Offset(MiiLayout, 8) == 24
    ensures MiiLayout[9].name == "mii_name" && Offset(MiiLayout, 9) == 26
    ensures MiiLayout[10].name == "height" && Offset(MiiLayout, 10) == 46
    ensures MiiLayout[16].name == "eye_details" && Offset(MiiLayout, 16) == 52
    ensures MiiLayout[23].name == "mole_details" && Offset(MiiLayout, 23) == 70
    ensures MiiLayout[24].name == "author_name" && Offset(MiiLayout, 24) == 72
    ensures Offset(MiiLayout, |MiiLayout|) == MiiSize
  {
    MiiOffset4(); MiiOffset5(); MiiOffset6(); MiiOffset7(); MiiOffset8();
    MiiOffset9(); MiiOffset10(); MiiOffset16(); MiiOffset23(); MiiOffset24(); MiiOffset25();
  }

  /** Field i of a record is stored in the record's image at the field's offset. */
  lemma FieldImageAt(m: MiiData, i: nat)
    requires i < |MiiLayout|
    ensures Offset(MiiLayout, i) + Size(MiiLayout[i].kind) <= MiiSize
    ensures Encode(m)[Offset(MiiLayout, i)..Offset(MiiLayout, i) + Size(MiiLayout[i].kind)]
              == EncodeValue(MiiLayout[i].kind, Fields(m)[i])
  {
    MiiLayoutSize();
    EncodedFieldAt(MiiLayout, Fields(m), i);
  }

  lemma SystemIdImage(m: MiiData)
    ensures Encode(m)[4..12] == BeBytes(m.systemId as nat, 8)
  {
    MiiOffset4();
    FieldKindAt(m, 4, UInt(8, BigEndian), Num(m.systemId as nat));
  }

  lemma MiiIdImage(m: MiiData)
    ensures Encode(m)[12..16] == BeBytes(m.miiId as nat, 4)
  {
    MiiOffset5();
    FieldKindAt(m, 5, UInt(4, BigEndian), Num(m.miiId as nat));
  }

  lemma MacImage(m: MiiData)
    ensures Encode(m)[16..22] == m.mac
  {
    MiiOffset6();
    FieldKindAt(m, 6, Bytes(6), Raw(m.mac));
  }

  /** Field i has kind k and value v, so the image holds v's encoding at the field's offset. */
  lemma FieldKindAt(m: MiiData, i: nat, k: Kind, v: Value)
    requires i < |MiiLayout| && MiiLayout[i].kind == k && Fields(m)[i] == v
    ensures Fits(k, v) && Offset(MiiLayout, i) + Size(k) <= MiiSize
    ensures Encode(m)[Offset(MiiLayout, i)..Offset(MiiLayout, i) + Size(k)] == EncodeValue(k, v)
  {
    FieldImageAt(m, i);
  }

  lemma PadImage(m: MiiData)
    ensures Encode(m)[22..24] == ToBytes(m.pad as nat, 2, HostOrder)
  {
    MiiOffset7();
    FieldKindAt(m, 7, UInt(2, HostOrder), Num(m.pad as nat));
  }

  lemma MiiDetailsImage(m: MiiData)
    ensures Encode(m)[24..26] == ToBytes(m.miiDetails as nat, 2, GroupWordOrder)
  {
    MiiOffset8();
    FieldKindAt(m, 8, UInt(2, GroupWordOrder), Num(m.miiDetails as nat));
  }

  lemma MiiNameImage(m: MiiData)
    ensures Encode(m)[26..46] == EncodeUnits(m.miiName)
  {
    MiiOffset9();
    FieldKindAt(m, 9, Units(10), Text(m.miiName));
  }

  lemma EyeDetailsImage(m: MiiData)
    ensures Encode(m)[52..56] == ToBytes(m.eyeDetails as nat, 4, GroupWordOrder)
  {
    MiiOffset16();
    FieldKindAt(m, 16, UInt(4, GroupWordOrder), Num(m.eyeDetails as nat));
  }

  lemma MoleDetailsImage(m: MiiData)
    ensures Encode(m)[70..72] == ToBytes(m.moleDetails as nat, 2, GroupWordOrder)
  {
    MiiOffset23();
    FieldKindAt(m, 23, UInt(2, GroupWordOrder), Num(m.moleDetails as nat));
  }

  lemma AuthorNameImage(m: MiiData)
    ensures Encode(m)[72..92] == EncodeUnits(m.authorName)
  {
    MiiOffset24();
    FieldKindAt(m, 24, Units(10), Text(m.authorName));
  }

  /**
   * Where the image holds each field: the bytes at the offsets the packed
   * declaration gives are the field's value in its declared byte order.
   */
  lemma MiiImage(m: MiiData)
    ensures Encode(m)[0..1] == [m.magic as u8]
    ensures Encode(m)[4..12] == BeBytes(m.systemId as nat, 8)
    ensures Encode(m)[12..16] == BeBytes(m.miiId as nat, 4)
    ensures Encode(m)[16..22] == m.mac
    ensures Encode(m)[22..24] == ToBytes(m.pad as nat, 2, HostOrder)
    ensures Encode(m)[24..26] == ToBytes(m.miiDetails as nat, 2, GroupWordOrder)
    ensures Encode(m)[26..46] == EncodeUnits(m.miiName)
    ensures Encode(m)[52..56] == ToBytes(m.eyeDetails as nat, 4, GroupWordOrder)
    ensures Encode(m)[70..72] == ToBytes(m.moleDetails as nat, 2, GroupWordOrder)
    ensures Encode(m)[72..92] == EncodeUnits(m.authorName)
  {
    MagicImage(m);
    SystemIdImage(m);
    MiiIdImage(m);
    MacImage(m);
    PadImage(m);
    MiiDetailsImage(m);
    MiiNameImage(m);
    EyeDetailsImage(m);
    MoleDetailsImage(m);
    AuthorNameImage(m);
  }

  lemma MagicImage(m: MiiData)
    ensures Encode(m)[0..1] == [m.magic as u8]
  {
    MiiOffset1();
    FieldKindAt(m, 0, UInt(1, BigEndian), Num(m.magic as nat));
  }

  // ---------------------------------------------------------------------------
  // Bit-field groups
  // ---------------------------------------------------------------------------

  /** The record's bit-field groups, each a storage word shared by named sub-fields. */
  datatype Group =
    | MiiOptions | MiiPos | ConsoleIdentity | MiiDetails | FaceStyle | FaceDetails
    | HairDetails | EyeDetails | EyebrowDetails | NoseDetails | MouthDetails
    | MustacheDetails | BeardDetails | GlassesDetails | MoleDetails

  /**
   * The sub-field table of each group's union: the storage word's width and the
   * (offset, width) of each named sub-field, listed from the least significant bit
   * upward with no overlap and inside the word.
   */
  function GroupLayoutOf(g: Group): (l: BitField.GroupLayout)
    ensures l.bits in {8, 16, 32}
    ensures BitField.InOrderFrom(l.fields, 0, l.bits)
  {
    match g
    case MiiOptions => BitField.GroupLayout(8, [
      BitField.SubField("allow_copying", 0, 1), BitField.SubField("is_private_name", 1, 1),
      BitField.SubField("region_lock", 2, 2), BitField.SubField("char_set", 4, 2)])
    case MiiPos => BitField.GroupLayout(8, [
      BitField.SubField("page_index", 0, 4), BitField.SubField("slot_index", 4, 4)])
    case ConsoleIdentity => BitField.GroupLayout(8, [
      BitField.SubField("unknown0", 0, 4), BitField.SubField("origin_console", 4, 3)])
    case MiiDetails => BitField.GroupLayout(16, [
      BitField.SubField("sex", 0, 1), BitField.SubField("bday_month", 1, 4),
      BitField.SubField("bday_day", 5, 5), BitField.SubField("shirt_color", 10, 4),
      BitField.SubField("favorite", 14, 1)])
    case FaceStyle => BitField.GroupLayout(8, [
      BitField.SubField("disable_sharing", 0, 1), BitField.SubField("shape", 1, 4),
      BitField.SubField("skin_color", 5, 3)])
    case FaceDetails => BitField.GroupLayout(8, [
      BitField.SubField("wrinkles", 0, 4), BitField.SubField("makeup", 4, 4)])
    case HairDetails => BitField.GroupLayout(8, [
      BitField.SubField("color", 0, 3), BitField.SubField("flip", 3, 1)])
    case EyeDetails => BitField.GroupLayout(32, [
      BitField.SubField("style", 0, 6), BitField.SubField("color", 6, 3),
      BitField.SubField("scale", 9, 4), BitField.SubField("yscale", 13, 3),
      BitField.SubField("rotation", 16, 5), BitField.SubField("xspacing", 21, 4),
      BitField.SubField("yposition", 25, 5)])
    case EyebrowDetails => BitField.GroupLayout(32, [
      BitField.SubField("style", 0, 5), BitField.SubField("color", 5, 3),
      BitField.SubField("scale", 8, 4), BitField.SubField("yscale", 12, 3),
      BitField.SubField("pad", 15, 1), BitField.SubField("rotation", 16, 5),
      BitField.SubField("xspacing", 21, 4), BitField.SubField("yposition", 25, 5)])
    case NoseDetails => BitField.GroupLayout(16, [
      BitField.SubField("style", 0, 5), BitField.SubField("scale", 5, 4),
      BitField.SubField("yposition", 9, 5)])
    case MouthDetails => BitField.GroupLayout(16, [
      BitField.SubField("style", 0, 6), BitField.SubField("color", 6, 3),
      BitField.SubField("scale", 9, 4), BitField.SubField("yscale", 13, 3)])
    case MustacheDetails => BitField.GroupLayout(16, [
      BitField.SubField("mouth_yposition", 0, 5), BitField.SubField("mustach_style", 5, 3),
      BitField.SubField("pad", 8, 2)])
    case BeardDetails => BitField.GroupLayout(16, [
      BitField.SubField("style", 0, 3), BitField.SubField("color", 3, 3),
      BitField.SubField("scale", 6, 4), BitField.SubField("ypos", 10, 5)])
    case GlassesDetails => BitField.GroupLayout(16, [
      BitField.SubField("style", 0, 4), BitField.SubField("color", 4, 3),
      BitField.SubField("scale", 7, 4), BitField.SubField("ypos", 11, 5)])
    case MoleDetails => BitField.GroupLayout(16, [
      BitField.SubField("enable", 0, 1), BitField.SubField("scale", 1, 5),
      BitField.SubField("xpos", 6, 5), BitField.SubField("ypos", 11, 5)])
  }

  /** Every group's sub-fields are at least one bit wide, fit the storage word and are pairwise disjoint. */
  lemma GroupsWellFormed(g: Group)
    ensures BitField.WellFormed(GroupLayoutOf(g))
  {
    BitField.InOrderWellFormed(GroupLayoutOf(g));
  }

  /** The index in MiiLayout of the field that stores group g. */
  function GroupIndex(g: Group): nat
  {
    match g
    case MiiOptions => 1
    case MiiPos => 2
    case ConsoleIdentity => 3
    case MiiDetails => 8
    case FaceStyle => 12
    case FaceDetails => 13
    case HairDetails => 15
    case EyeDetails => 16
    case EyebrowDetails => 17
    case NoseDetails => 18
    case MouthDetails => 19
    case MustacheDetails => 20
    case BeardDetails => 21
    case GlassesDetails => 22
    case MoleDetails => 23
  }

  /** The name of the record member, a union over the storage word, that holds group g. */
  function GroupName(g: Group): string
  {
    match g
    case MiiOptions => "mii_options"
    case MiiPos => "mii_pos"
    case ConsoleIdentity => "console_identity"
    case MiiDetails => "mii_details"
    case FaceStyle => "face_style"
    case FaceDetails => "face_details"
    case HairDetails => "hair_details"
    case EyeDetails => "eye_details"
    case EyebrowDetails => "eyebrow_details"
    case NoseDetails => "nose_details"
    case MouthDetails => "mouth_details"
    case MustacheDetails => "mustache_details"
    case BeardDetails => "beard_details"
    case GlassesDetails => "glasses_details"
    case MoleDetails => "mole_details"
  }

  /**
   * Each group is stored as the one integer field its union is named after, whose
   * width is the group's word width.
   */
  lemma GroupStorage(g: Group)
    ensures GroupIndex(g) < |MiiLayout|
    ensures MiiLayout[GroupIndex(g)].name == GroupName(g)
    ensures MiiLayout[GroupIndex(g)].kind.UInt?
    ensures 8 * MiiLayout[GroupIndex(g)].kind.size == GroupLayoutOf(g).bits
    ensures GroupLayoutOf(g).bits > 8 ==> MiiLayout[GroupIndex(g)].kind.order == GroupWordOrder
  {
    GroupEntriesBytes();
    GroupEntriesFace();
    GroupEntriesFeatures();
  }

  /** The field that stores group g holds the group's word. */
  lemma GroupFieldHoldsWord(g: Group, m: MiiData)
    ensures GroupIndex(g) < |Fields(m)|
    ensures Fields(m)[GroupIndex(g)] == Num(Word(m, g))
  {
    GroupFields(m);
  }

  lemma GroupEntriesBytes()
    ensures MiiLayout[1] == FieldSpec("mii_options", UInt(1, BigEndian))
    ensures MiiLayout[2] == FieldSpec("mii_pos", UInt(1, BigEndian))
    ensures MiiLayout[3] == FieldSpec("console_identity", UInt(1, BigEndian))
    ensures MiiLayout[8] == FieldSpec("mii_details", UInt(2, GroupWordOrder))
  {
  }

  lemma GroupEntriesFace()
    ensures MiiLayout[12] == FieldSpec("face_style", UInt(1, BigEndian))
    ensures MiiLayout[13] == FieldSpec("face_details", UInt(1, BigEndian))
    ensures MiiLayout[15] == FieldSpec("hair_details", UInt(1, BigEndian))
    ensures MiiLayout[16] == FieldSpec("eye_details", UInt(4, GroupWordOrder))
    ensures MiiLayout[17] == FieldSpec("eyebrow_details", UInt(4, GroupWordOrder))
  {
  }

  lemma GroupEntriesFeatures()
    ensures MiiLayout[18] == FieldSpec("nose_details", UInt(2, GroupWordOrder))
    ensures MiiLayout[19] == FieldSpec("mouth_details", UInt(2, GroupWordOrder))
    ensures MiiLayout[20] == FieldSpec("mustache_details", UInt(2, GroupWordOrder))
    ensures MiiLayout[21] == FieldSpec("beard_details", UInt(2, GroupWordOrder))
    ensures MiiLayout[22] == FieldSpec("glasses_details", UInt(2, GroupWordOrder))
    ensures MiiLayout[23] == FieldSpec("mole_details", UInt(2, GroupWordOrder))
  {
  }

  lemma GroupFields(m: MiiData)
    ensures |Fields(m)| == 25
    ensures Fields(m)[1] == Num(m.miiOptions as nat) && Fields(m)[2] == Num(m.miiPos as nat)
    ensures Fields(m)[3] == Num(m.consoleIdentity as nat) && Fields(m)[8] == Num(m.miiDetails as nat)
    ensures Fields(m)[12] == Num(m.faceStyle as nat) && Fields(m)[13] == Num(m.faceDetails as nat)
    ensures Fields(m)[15] == Num(m.hairDetails as nat) && Fields(m)[16] == Num(m.eyeDetails as nat)
    ensures Fields(m)[17] == Num(m.eyebrowDetails as nat) && Fields(m)[18] == Num(m.noseDetails as nat)
    ensures Fields(m)[19] == Num(m.mouthDetails as nat) && Fields(m)[20] == Num(m.mustacheDetails as nat)
    ensures Fields(m)[21] == Num(m.beardDetails as nat) && Fields(m)[22] == Num(m.glassesDetails as nat)
    ensures Fields(m)[23] == Num(m.moleDetails as nat)
  {
  }

  /** The number of values group g's storage word can hold. */
  function WordLimit(g: Group): nat
  {
    match g
    case MiiOptions | MiiPos | ConsoleIdentity | FaceStyle | FaceDetails | HairDetails => 0x100
    case EyeDetails | EyebrowDetails => 0x1_0000_0000
    case MiiDetails | NoseDetails | MouthDetails | MustacheDetails | BeardDetails
       | GlassesDetails | MoleDetails => 0x1_0000
  }

  lemma WordLimitIsPow2(g: Group)
    ensures WordLimit(g) == Pow2(GroupLayoutOf(g).bits)
  {
    Pow2Values();
  }

  /** The storage word of group g. */
  function Word(m: MiiData, g: Group): (w: nat)
    ensures w < WordLimit(g)
  {
    match g
    case MiiOptions => m.miiOptions as nat
    case MiiPos => m.miiPos as nat
    case ConsoleIdentity => m.consoleIdentity as nat
    case MiiDetails => m.miiDetails as nat
    case FaceStyle => m.faceStyle as nat
    case FaceDetails => m.faceDetails as nat
    case HairDetails => m.hairDetails as nat
    case EyeDetails => m.eyeDetails as nat
    case EyebrowDetails => m.eyebrowDetails as nat
    case NoseDetails => m.noseDetails as nat
    case MouthDetails => m.mouthDetails as nat
    case MustacheDetails => m.mustacheDetails as nat
    case BeardDetails => m.beardDetails as nat
    case GlassesDetails => m.glassesDetails as nat
    case MoleDetails => m.moleDetails as nat
  }

  /** The record with the storage word of group g replaced by w. */
  function WithWord(m: MiiData, g: Group, w: nat): (m': MiiData)
    requires w < WordLimit(g)
    ensures Word(m', g) == w
    ensures forall h :: h != g ==> Word(m', h) == Word(m, h)
  {
    match g
    case MiiOptions => m.(miiOptions := w as u8)
    case MiiPos => m.(miiPos := w as u8)
    case ConsoleIdentity => m.(consoleIdentity := w as u8)
    case MiiDetails => m.(miiDetails := w as u16)
    case FaceStyle => m.(faceStyle := w as u8)
    case FaceDetails => m.(faceDetails := w as u8)
    case HairDetails => m.(hairDetails := w as u8)
    case EyeDetails => m.(eyeDetails := w as u32)
    case EyebrowDetails => m.(eyebrowDetails := w as u32)
    case NoseDetails => m.(noseDetails := w as u16)
    case MouthDetails => m.(mouthDetails := w as u16)
    case MustacheDetails => m.(mustacheDetails := w as u16)
    case BeardDetails => m.(beardDetails := w as u16)
    case GlassesDetails => m.(glassesDetails := w as u16)
    case MoleDetails => m.(moleDetails := w as u16)
  }

  /** Putting a group's old word back restores the record: no other field was touched. */
  lemma WithWordRestores(m: MiiData, g: Group, w: nat)
    requires w < WordLimit(g)
    ensures WithWord(WithWord(m, g, w), g, Word(m, g)) == m
  {
  }

  /** Reads sub-field i of group g. */
  function GetSubField(m: MiiData, g: Group, i: nat): (v: nat)
    requires i < |GroupLayoutOf(g).fields|
    ensures v < Pow2(GroupLayoutOf(g).fields[i].width)
  {
    BitField.Get(Word(m, g), GroupLayoutOf(g).fields[i])
  }

  /** Writes v into sub-field i of group g; refused with RangeError when v does not fit. */
  function SetSubField(m: MiiData, g: Group, i: nat, v: nat): (r: Result<MiiData>)
    requires i < |GroupLayoutOf(g).fields|
    ensures r.Ok? <==> v < Pow2(GroupLayoutOf(g).fields[i].width)
    ensures !r.Ok? ==> r.error == RangeError
  {
    match BitField.Set(Word(m, g), GroupLayoutOf(g).fields[i], v)
    case Err(e) => Err(e)
    case Ok(w) =>
      GroupsWellFormed(g);
      WordLimitIsPow2(g);
      BitField.SetThenGet(GroupLayoutOf(g), Word(m, g), i, v);
      Ok(WithWord(m, g, w))
  }

  /**
   * Writing an in-range value into one sub-field and reading it back gives that
   * value; the group's other sub-fields, every bit of its word outside that
   * sub-field, and every other group read as before; and
   * putting the old storage word back gives the original record, so nothing
   * outside this group's word has changed.
   */
  lemma SetSubFieldThenGet(m: MiiData, g: Group, i: nat, v: nat)
    requires i < |GroupLayoutOf(g).fields| && v < Pow2(GroupLayoutOf(g).fields[i].width)
    ensures SetSubField(m, g, i, v).Ok?
    ensures GetSubField(SetSubField(m, g, i, v).value, g, i) == v
    ensures forall j :: 0 <= j < |GroupLayoutOf(g).fields| && j != i ==>
              GetSubField(SetSubField(m, g, i, v).value, g, j) == GetSubField(m, g, j)
    ensures forall k ::
              (0 <= k < GroupLayoutOf(g).bits &&
               !(GroupLayoutOf(g).fields[i].offset <= k < GroupLayoutOf(g).fields[i].offset + GroupLayoutOf(g).fields[i].width)) ==>
              BitField.Bit(Word(SetSubField(m, g, i, v).value, g), k) == BitField.Bit(Word(m, g), k)
    ensures forall h :: h != g ==> Word(SetSubField(m, g, i, v).value, h) == Word(m, h)
    ensures WithWord(SetSubField(m, g, i, v).value, g, Word(m, g)) == m
  {
    SetSubFieldReadsBack(m, g, i, v);
    SetSubFieldKeepsOtherBits(m, g, i, v);
    var w' := BitField.Set(Word(m, g), GroupLayoutOf(g).fields[i], v).value;
    WithWordRestores(m, g, w');
  }

  /** The sub-field half of SetSubFieldThenGet: the written value reads back and the group's other sub-fields keep theirs. */
  lemma SetSubFieldReadsBack(m: MiiData, g: Group, i: nat, v: nat)
    requires i < |GroupLayoutOf(g).fields| && v < Pow2(GroupLayoutOf(g).fields[i].width)
    ensures SetSubField(m, g, i, v).Ok?
    ensures GetSubField(SetSubField(m, g, i, v).value, g, i) == v
    ensures forall j :: 0 <= j < |GroupLayoutOf(g).fields| && j != i ==>
              GetSubField(SetSubField(m, g, i, v).value, g, j) == GetSubField(m, g, j)
  {
    GroupsWellFormed(g);
    WordLimitIsPow2(g);
    var l, w := GroupLayoutOf(g), Word(m, g);
    BitField.SetThenGet(l, w, i, v);
    SetSubFieldIsWithWord(m, g, i, v);
    var m' := WithWord(m, g, BitField.Set(w, l.fields[i], v).value);
    assert SetSubField(m, g, i, v).value == m';
    assert Word(m', g) == BitField.Set(w, l.fields[i], v).value;
  }

  /** The bit half of SetSubFieldThenGet: every bit of the group's word outside sub-field i is unchanged. */
  lemma SetSubFieldKeepsOtherBits(m: MiiData, g: Group, i: nat, v: nat)
    requires i < |GroupLayoutOf(g).fields| && v < Pow2(GroupLayoutOf(g).fields[i].width)
    ensures SetSubField(m, g, i, v).Ok?
    ensures forall k ::
              (0 <= k < GroupLayoutOf(g).bits &&
               !(GroupLayoutOf(g).fields[i].offset <= k < GroupLayoutOf(g).fields[i].offset + GroupLayoutOf(g).fields[i].width)) ==>
              BitField.Bit(Word(SetSubField(m, g, i, v).value, g), k) == BitField.Bit(Word(m, g), k)
  {
    GroupsWellFormed(g);
    WordLimitIsPow2(g);
    BitField.SetThenGet(GroupLayoutOf(g), Word(m, g), i, v);
    SetSubFieldIsWithWord(m, g, i, v);
  }

  /** Setting a sub-field that fits stores the updated word back into its group. */
  lemma SetSubFieldIsWithWord(m: MiiData, g: Group, i: nat, v: nat)
    requires i < |GroupLayoutOf(g).fields| && v < Pow2(GroupLayoutOf(g).fields[i].width)
    ensures BitField.Set(Word(m, g), GroupLayoutOf(g).fields[i], v).Ok?
    ensures BitField.Set(Word(m, g), GroupLayoutOf(g).fields[i], v).value < WordLimit(g)
    ensures SetSubField(m, g, i, v) == Ok(WithWord(m, g, BitField.Set(Word(m, g), GroupLayoutOf(g).fields[i], v).value))
  {
    GroupsWellFormed(g);
    WordLimitIsPow2(g);
    BitField.SetThenGet(GroupLayoutOf(g), Word(m, g), i, v);
  }
}
