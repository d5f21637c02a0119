/**
 * The 0x120-byte friend-data record: two magic words, reserved and opaque regions,
 * UTF-16 text arrays, the 8-byte friend profile and the embedded checksummed Mii.
 * Every integer of this record is little-endian; the embedded Mii keeps its own
 * byte orders.
 */
module FriendData {
  import opened Numeric
  import opened Errors
  import opened Layout
  import Mii
  import Checksummed

  const MagicMyData: u32 := 0x46504D44
  const MagicNumber: u32 := 0x20101021

  const FriendCommentSize: nat := 0x10
  const FriendScreenNameSize: nat := 0xB

  type Bytes3 = s: seq<u8> | |s| == 3 witness [0, 0, 0]
  type Bytes5 = s: seq<u8> | |s| == 5 witness [0, 0, 0, 0, 0]

  // ---------------------------------------------------------------------------
  // FriendProfile
  // ---------------------------------------------------------------------------

  datatype FriendProfile = FriendProfile(
    region: u8, country: u8, area: u8, language: u8, platform: u8, padding: Bytes3)

  const ProfileSize: nat := 8

  const ProfileLayout: RecordLayout := [
    FieldSpec("region", UInt(1, LittleEndian)),
    FieldSpec("country", UInt(1, LittleEndian)),
    FieldSpec("area", UInt(1, LittleEndian)),
    FieldSpec("language", UInt(1, LittleEndian)),
    FieldSpec("platform", UInt(1, LittleEndian)),
    FieldSpec("padding", Bytes(3))
  ]

  lemma ProfileLayoutSize()
    ensures TotalSize(ProfileLayout) == ProfileSize
  {
  }

  function ProfileFields(p: FriendProfile): (vs: seq<Value>)
    ensures FitsAll(ProfileLayout, vs)
  {
    Pow256Values();
    [Num(p.region as nat), Num(p.country as nat), Num(p.area as nat), Num(p.language as nat),
     Num(p.platform as nat), Raw(p.padding)]
  }

  function ProfileFromFields(vs: seq<Value>): FriendProfile
    requires FitsAll(ProfileLayout, vs)
  {
    Pow256Values();
    assert Fits(ProfileLayout[0].kind, vs[0]) && Fits(ProfileLayout[1].kind, vs[1]);
    assert Fits(ProfileLayout[2].kind, vs[2]) && Fits(ProfileLayout[3].kind, vs[3]);
    assert Fits(ProfileLayout[4].kind, vs[4]) && Fits(ProfileLayout[5].kind, vs[5]);
    FriendProfile(vs[0].n as u8, vs[1].n as u8, vs[2].n as u8, vs[3].n as u8, vs[4].n as u8,
      vs[5].bytes)
  }

  function EncodeProfile(p: FriendProfile): (s: seq<u8>)
    ensures |s| == ProfileSize
  {
    ProfileLayoutSize();
    EncodeAll(ProfileLayout, ProfileFields(p))
  }

  /** Reads a profile from 8 bytes; every bit pattern is a profile, and encoding it gives the bytes back. */
  function DecodeProfile(s: seq<u8>): (p: FriendProfile)
    requires |s| == ProfileSize
    ensures EncodeProfile(p) == s
  {
    ProfileLayoutSize();
    var vs := DecodeAll(ProfileLayout, s);
    Pow256Values();
    assert Fits(ProfileLayout[0].kind, vs[0]) && Fits(ProfileLayout[1].kind, vs[1]);
    assert Fits(ProfileLayout[2].kind, vs[2]) && Fits(ProfileLayout[3].kind, vs[3]);
    assert Fits(ProfileLayout[4].kind, vs[4]) && Fits(ProfileLayout[5].kind, vs[5]);
    assert ProfileFields(ProfileFromFields(vs)) == vs;
    Layout.EncodeDecode(ProfileLayout, s);
    ProfileFromFields(vs)
  }

  lemma ProfileRoundTrip(p: FriendProfile)
    ensures DecodeProfile(EncodeProfile(p)) == p
  {
    ProfileLayoutSize();
    Layout.DecodeEncode(ProfileLayout, ProfileFields(p));
  }

  // ---------------------------------------------------------------------------
  // FRDMyData
  // ---------------------------------------------------------------------------

  datatype FRDMyData = FRDMyData(
    magic: u32,
    magicNumber: u32,
    padding1: u64,
    unk10: seq<u8>,
    comment: seq<u16>,
    unk50: u64,
    profile: FriendProfile,
    localFriendCodeSeed: u64,
    unk68: seq<u16>,
    serialNumber: seq<u16>,
    displayName: seq<u16>,
    padding2: Bytes3,
    miiData: Checksummed.Stored,
    padding3: Bytes5)

  /** The arrays hold their declared number of bytes or code units. */
  predicate WellSized(r: FRDMyData)
  {
    && |r.unk10| == 0x20
    && |r.comment| == FriendCommentSize
    && |r.unk68| == 0xD
    && |r.serialNumber| == 0x10
    && |r.displayName| == FriendScreenNameSize
  }

  const MyDataSize: nat := 0x120

  /**
   * The layout, in declaration order, which is also the order serialization visits.
   * The record is not packed: it is laid out with natural alignment, and because
   * every field already starts at a multiple of its alignment and the size is a
   * multiple of 8, no padding is inserted (MyDataNaturallyAligned).
   */
  const MyDataLayout: RecordLayout := [
    FieldSpec("magic", UInt(4, LittleEndian)),
    FieldSpec("magic_number", UInt(4, LittleEndian)),
    FieldSpec("padding1", UInt(8, LittleEndian)),
    FieldSpec("unk10", Bytes(0x20)),
    FieldSpec("comment", Units(FriendCommentSize)),
    FieldSpec("unk50", UInt(8, LittleEndian)),
    FieldSpec("profile", Bytes(ProfileSize)),
    FieldSpec("local_friend_code_seed", UInt(8, LittleEndian)),
    FieldSpec("unk68", Units(0xD)),
    FieldSpec("serial_number", Units(0x10)),
    FieldSpec("display_name", Units(FriendScreenNameSize)),
    FieldSpec("padding2", Bytes(3)),
    FieldSpec("mii_data", Bytes(Checksummed.ChecksummedSize)),
    FieldSpec("padding3", Bytes(5))
  ]

  /** The record's fields as layout values; nested records are carried as their byte images. */
  function Fields(r: FRDMyData): (vs: seq<Value>)
    requires WellSized(r)
    ensures FitsAll(MyDataLayout, vs)
  {
    var profile, mii := EncodeProfile(r.profile), Checksummed.Encode(r.miiData);
    ShapesFit(r, profile, mii);
    [Num(r.magic as nat), Num(r.magicNumber as nat), Num(r.padding1 as nat), Raw(r.unk10),
     Text(r.comment), Num(r.unk50 as nat), Raw(profile), Num(r.localFriendCodeSeed as nat),
     Text(r.unk68), Text(r.serialNumber), Text(r.displayName), Raw(r.padding2), Raw(mii),
     Raw(r.padding3)]
  }

  /** A well-sized record's fields, with nested records of the right sizes, fit the layout. */
  lemma ShapesFit(r: FRDMyData, profile: seq<u8>, mii: seq<u8>)
    requires WellSized(r)
    requires |profile| == ProfileSize && |mii| == Checksummed.ChecksummedSize
    ensures FitsAll(MyDataLayout,
      [Num(r.magic as nat), Num(r.magicNumber as nat), Num(r.padding1 as nat), Raw(r.unk10),
       Text(r.comment), Num(r.unk50 as nat), Raw(profile), Num(r.localFriendCodeSeed as nat),
       Text(r.unk68), Text(r.serialNumber), Text(r.displayName), Raw(r.padding2), Raw(mii),
       Raw(r.padding3)])
  {
    Pow256Values();
  }

  lemma FieldsFit(vs: seq<Value>)
    requires FitsAll(MyDataLayout, vs)
    ensures vs[0].Num? && vs[0].n < 0x1_0000_0000 && vs[1].Num? && vs[1].n < 0x1_0000_0000
    ensures vs[2].Num? && vs[2].n < 0x1_0000_0000_0000_0000
    ensures vs[3].Raw? && |vs[3].bytes| == 0x20 && vs[4].Text? && |vs[4].units| == FriendCommentSize
    ensures vs[5].Num? && vs[5].n < 0x1_0000_0000_0000_0000
    ensures vs[6].Raw? && |vs[6].bytes| == ProfileSize
    ensures vs[7].Num? && vs[7].n < 0x1_0000_0000_0000_0000
    ensures vs[8].Text? && |vs[8].units| == 0xD && vs[9].Text? && |vs[9].units| == 0x10
    ensures vs[10].Text? && |vs[10].units| == FriendScreenNameSize
    ensures vs[11].Raw? && |vs[11].bytes| == 3
    ensures vs[12].Raw? && |vs[12].bytes| == Checksummed.ChecksummedSize
    ensures vs[13].Raw? && |vs[13].bytes| == 5
  {
    Pow256Values();
    assert Fits(MyDataLayout[0].kind, vs[0]);
    assert Fits(MyDataLayout[1].kind, vs[1]);
    assert Fits(MyDataLayout[2].kind, vs[2]);
    assert Fits(MyDataLayout[3].kind, vs[3]);
    assert Fits(MyDataLayout[4].kind, vs[4]);
    assert Fits(MyDataLayout[5].kind, vs[5]);
    assert Fits(MyDataLayout[6].kind, vs[6]);
    assert Fits(MyDataLayout[7].kind, vs[7]);
    assert Fits(MyDataLayout[8].kind, vs[8]);
    assert Fits(MyDataLayout[9].kind, vs[9]);
    assert Fits(MyDataLayout[10].kind, vs[10]);
    assert Fits(MyDataLayout[11].kind, vs[11]);
    assert Fits(MyDataLayout[12].kind, vs[12]);
    assert Fits(MyDataLayout[13].kind, vs[13]);
  }

  function FromFields(vs: seq<Value>): (r: FRDMyData)
    requires FitsAll(MyDataLayout, vs)
    ensures WellSized(r)
  {
    FieldsFit(vs);
    FRDMyData(vs[0].n as u32, vs[1].n as u32, vs[2].n as u64, vs[3].bytes, vs[4].units,
      vs[5].n as u64, DecodeProfile(vs[6].bytes), vs[7].n as u64, vs[8].units, vs[9].units,
      vs[10].units, vs[11].bytes, Checksummed.DecodeExact(vs[12].bytes), vs[13].bytes)
  }

  lemma FieldsRoundTrip(r: FRDMyData)
    requires WellSized(r)
    ensures FromFields(Fields(r)) == r
  {
    ProfileRoundTrip(r.profile);
    Checksummed.DecodeEncode(r.miiData);
  }

  lemma FromFieldsRoundTrip(vs: seq<Value>)
    requires FitsAll(MyDataLayout, vs)
    ensures Fields(FromFields(vs)) == vs
  {
    FieldsFit(vs);
    var ws := Fields(FromFields(vs));
    assert ws[0] == vs[0] && ws[1] == vs[1] && ws[2] == vs[2] && ws[3] == vs[3];
    assert ws[4] == vs[4] && ws[5] == vs[5] && ws[6] == vs[6] && ws[7] == vs[7];
    assert ws[8] == vs[8] && ws[9] == vs[9] && ws[10] == vs[10] && ws[11] == vs[11];
    assert ws[12] == vs[12] && ws[13] == vs[13];
    SameFourteen(ws, vs);
  }

  lemma SameFourteen(ws: seq<Value>, vs: seq<Value>)
    requires |ws| == 14 && |vs| == 14
    requires ws[0] == vs[0] && ws[1] == vs[1] && ws[2] == vs[2] && ws[3] == vs[3]
    requires ws[4] == vs[4] && ws[5] == vs[5] && ws[6] == vs[6] && ws[7] == vs[7]
    requires ws[8] == vs[8] && ws[9] == vs[9] && ws[10] == vs[10] && ws[11] == vs[11]
    requires ws[12] == vs[12] && ws[13] == vs[13]
    ensures ws == vs
  {
    assert forall i :: 0 <= i < 14 ==> ws[i] == vs[i];
  }

  /** The record with every text array at its declared length, and nothing between fields. */
  lemma MyDataLayoutSize()
    ensures TotalSize(MyDataLayout) == MyDataSize
  {
    MyDataOffsets();
    TotalSizeIsEndOffset(MyDataLayout);
  }

  lemma MyDataOffset1() ensures Offset(MyDataLayout, 1) == 0x04 { }
  lemma MyDataOffset2() ensures Offset(MyDataLayout, 2) == 0x08 { MyDataOffset1(); }
  lemma MyDataOffset3() ensures Offset(MyDataLayout, 3) == 0x10 { MyDataOffset2(); }
  lemma MyDataOffset4() ensures Offset(MyDataLayout, 4) == 0x30 { MyDataOffset3(); }
  lemma MyDataOffset5() ensures Offset(MyDataLayout, 5) == 0x50 { MyDataOffset4(); }
  lemma MyDataOffset6() ensures Offset(MyDataLayout, 6) == 0x58 { MyDataOffset5(); }
  lemma MyDataOffset7() ensures Offset(MyDataLayout, 7) == 0x60 { MyDataOffset6(); }
  lemma MyDataOffset8() ensures Offset(MyDataLayout, 8) == 0x68 { MyDataOffset7(); }
  lemma MyDataOffset9() ensures Offset(MyDataLayout, 9) == 0x82 { MyDataOffset8(); }
  lemma MyDataOffset10() ensures Offset(MyDataLayout, 10) == 0xA2 { MyDataOffset9(); }
  lemma MyDataOffset11() ensures Offset(MyDataLayout, 11) == 0xB8 { MyDataOffset10(); }
  lemma MyDataOffset12() ensures Offset(MyDataLayout, 12) == 0xBB { MyDataOffset11(); }
  lemma MyDataOffset13() ensures Offset(MyDataLayout, 13) == 0x11B { MyDataOffset12(); }
  lemma MyDataOffset14() ensures Offset(MyDataLayout, 14) == 0x120 { MyDataOffset13(); }

  /** Field offsets of the record, and its end at 0x120. */
  lemma MyDataOffsets()
    ensures MyDataLayout[6].name == "profile" && Offset(MyDataLayout, 6) == 0x58
    ensures MyDataLayout[7].name == "local_friend_code_seed" && Offset(MyDataLayout, 7) == 0x60
    ensures MyDataLayout[9].name == "serial_number" && Offset(MyDataLayout, 9) == 0x82
    ensures MyDataLayout[12].name == "mii_data" && Offset(MyDataLayout, 12) == 0xBB
    ensures Offset(MyDataLayout, |MyDataLayout|) == MyDataSize
  {
    MyDataOffset6();
    MyDataOffset7();
    MyDataOffset9();
    MyDataOffset12();
    MyDataOffset14();
  }

  /**
   * The alignment a field of kind k has in the record: an integer's own size, 2
   * for an array of code units, and 1 for byte arrays, the all-byte profile and
   * the packed checksummed Mii.
   */
  function Alignment(k: Kind): (a: nat)
    ensures a > 0
  {
    match k
    case UInt(size, _) => if size == 0 then 1 else size
    case Bytes(_) => 1
    case Units(_) => 2
  }

  /** Every field starts at a multiple of its alignment and the size is a multiple of the largest one. */
  lemma MyDataNaturallyAligned()
    ensures forall i :: 0 <= i < |MyDataLayout| ==> Offset(MyDataLayout, i) % Alignment(MyDataLayout[i].kind) == 0
    ensures MyDataSize % 8 == 0
  {
    MyDataOffset1(); MyDataOffset2(); MyDataOffset3(); MyDataOffset4(); MyDataOffset5();
    MyDataOffset6(); MyDataOffset7(); MyDataOffset8(); MyDataOffset9(); MyDataOffset10();
    MyDataOffset11(); MyDataOffset12(); MyDataOffset13();
  }

  /** The byte image of a record. */
  function Encode(r: FRDMyData): (s: seq<u8>)
    requires WellSized(r)
    ensures |s| == MyDataSize
  {
    MyDataLayoutSize();
    EncodeAll(MyDataLayout, Fields(r))
  }

  /**
   * Reads a record from a buffer of exactly 0x120 bytes. Every bit pattern is a
   * record: encoding the record read gives the buffer back.
   */
  function DecodeExact(s: seq<u8>): (r: FRDMyData)
    requires |s| == MyDataSize
    ensures WellSized(r)
    ensures Encode(r) == s
  {
    MyDataLayoutSize();
    var vs := DecodeAll(MyDataLayout, s);
    FromFieldsRoundTrip(vs);
    Layout.EncodeDecode(MyDataLayout, s);
    FromFields(vs)
  }

  /** Decoding refuses a buffer that is not exactly 0x120 bytes. */
  function Decode(s: seq<u8>): (r: Result<FRDMyData>)
    ensures r.Ok? <==> |s| == MyDataSize
    ensures r.Ok? ==> WellSized(r.value) && r.value == DecodeExact(s)
    ensures !r.Ok? ==> r.error == SizeError
  {
    if |s| == MyDataSize then Ok(DecodeExact(s)) else Err(SizeError)
  }

  /** Encoding a record and decoding the bytes gives the record back. */
  lemma DecodeEncode(r: FRDMyData)
    requires WellSized(r)
    ensures Decode(Encode(r)) == Ok(r)
  {
    MyDataLayoutSize();
    Layout.DecodeEncode(MyDataLayout, Fields(r));
    FieldsRoundTrip(r);
  }

  /** Field i of a record is stored in the record's image at the field's offset. */
  lemma FieldImageAt(r: FRDMyData, i: nat)
    requires WellSized(r) && i < |MyDataLayout|
    ensures Offset(MyDataLayout, i) + Size(MyDataLayout[i].kind) <= MyDataSize
    ensures Encode(r)[Offset(MyDataLayout, i)..Offset(MyDataLayout, i) + Size(MyDataLayout[i].kind)]
              == EncodeValue(MyDataLayout[i].kind, Fields(r)[i])
  {
    MyDataLayoutSize();
    EncodedFieldAt(MyDataLayout, Fields(r), i);
  }

  /** Field i has kind k and value v, so the image holds v's encoding at the field's offset. */
  lemma FieldKindAt(r: FRDMyData, i: nat, k: Kind, v: Value)
    requires WellSized(r) && i < |MyDataLayout| && MyDataLayout[i].kind == k && Fields(r)[i] == v
    ensures Fits(k, v) && Offset(MyDataLayout, i) + Size(k) <= MyDataSize
    ensures Encode(r)[Offset(MyDataLayout, i)..Offset(MyDataLayout, i) + Size(k)] == EncodeValue(k, v)
  {
    FieldImageAt(r, i);
  }

  lemma MagicImage(r: FRDMyData)
    requires WellSized(r)
    ensures Encode(r)[0..4] == LeBytes(r.magic as nat, 4)
  {
    FieldKindAt(r, 0, UInt(4, LittleEndian), Num(r.magic as nat));
  }

  lemma MagicNumberImage(r: FRDMyData)
    requires WellSized(r)
    ensures Encode(r)[4..8] == LeBytes(r.magicNumber as nat, 4)
  {
    MyDataOffset1();
    FieldKindAt(r, 1, UInt(4, LittleEndian), Num(r.magicNumber as nat));
  }

  lemma CommentImage(r: FRDMyData)
    requires WellSized(r)
    ensures Encode(r)[0x30..0x50] == EncodeUnits(r.comment)
  {
    MyDataOffset4();
    FieldKindAt(r, 4, Units(FriendCommentSize), Text(r.comment));
  }

  lemma ProfileImage(r: FRDMyData)
    requires WellSized(r)
    ensures Encode(r)[0x58..0x60] == EncodeProfile(r.profile)
  {
    MyDataOffset6();
    var k, v := Bytes(ProfileSize), Raw(EncodeProfile(r.profile));
    assert MyDataLayout[6].kind == k && Fields(r)[6] == v;
    FieldKindAt(r, 6, k, v);
    assert EncodeValue(k, v) == EncodeProfile(r.profile);
  }

  lemma SeedImage(r: FRDMyData)
    requires WellSized(r)
    ensures Encode(r)[0x60..0x68] == LeBytes(r.localFriendCodeSeed as nat, 8)
  {
    MyDataOffset7();
    FieldKindAt(r, 7, UInt(8, LittleEndian), Num(r.localFriendCodeSeed as nat));
  }

  lemma SerialNumberImage(r: FRDMyData)
    requires WellSized(r)
    ensures Encode(r)[0x82..0xA2] == EncodeUnits(r.serialNumber)
  {
    MyDataOffset9();
    FieldKindAt(r, 9, Units(0x10), Text(r.serialNumber));
  }

  lemma DisplayNameImage(r: FRDMyData)
    requires WellSized(r)
    ensures Encode(r)[0xA2..0xB8] == EncodeUnits(r.displayName)
  {
    MyDataOffset10();
    FieldKindAt(r, 10, Units(FriendScreenNameSize), Text(r.displayName));
  }

  lemma MiiDataImage(r: FRDMyData)
    requires WellSized(r)
    ensures Encode(r)[0xBB..0x11B] == Checksummed.Encode(r.miiData)
  {
    MyDataOffset12();
    FieldKindAt(r, 12, Bytes(Checksummed.ChecksummedSize), Raw(Checksummed.Encode(r.miiData)));
  }

  /**
   * Where the image holds each field: the bytes at the offsets the declaration
   * gives are the field's value, little-endian, or the nested record's image. The
   * embedded Mii's own record, reserved word and checksum follow at 0xBB, 0x117
   * and 0x119.
   */
  lemma MyDataImage(r: FRDMyData)
    requires WellSized(r)
    ensures Encode(r)[0..4] == LeBytes(r.magic as nat, 4)
    ensures Encode(r)[4..8] == LeBytes(r.magicNumber as nat, 4)
    ensures Encode(r)[0x30..0x50] == EncodeUnits(r.comment)
    ensures Encode(r)[0x58..0x60] == EncodeProfile(r.profile)
    ensures Encode(r)[0x60..0x68] == LeBytes(r.localFriendCodeSeed as nat, 8)
    ensures Encode(r)[0x82..0xA2] == EncodeUnits(r.serialNumber)
    ensures Encode(r)[0xA2..0xB8] == EncodeUnits(r.displayName)
    ensures Encode(r)[0xBB..0x11B] == Checksummed.Encode(r.miiData)
    ensures Encode(r)[0xBB..0x117] == Mii.Encode(r.miiData.miiData)
    ensures Encode(r)[0x117..0x119] == BeBytes(r.miiData.unknown as nat, 2)
    ensures Encode(r)[0x119..0x11B] == BeBytes(r.miiData.crc16 as nat, 2)
  {
    MagicImage(r);
    MagicNumberImage(r);
    CommentImage(r);
    ProfileImage(r);
    SeedImage(r);
    SerialNumberImage(r);
    DisplayNameImage(r);
    EmbeddedMiiImage(r);
  }

  /** The embedded checksummed Mii's parts, located in the outer image. */
  lemma EmbeddedMiiImage(r: FRDMyData)
    requires WellSized(r)
    ensures Encode(r)[0xBB..0x11B] == Checksummed.Encode(r.miiData)
    ensures Encode(r)[0xBB..0x117] == Mii.Encode(r.miiData.miiData)
    ensures Encode(r)[0x117..0x119] == BeBytes(r.miiData.unknown as nat, 2)
    ensures Encode(r)[0x119..0x11B] == BeBytes(r.miiData.crc16 as nat, 2)
  {
    MiiDataImage(r);
    var image, mii := Encode(r), Checksummed.Encode(r.miiData);
    assert mii[..Mii.MiiSize] == Mii.Encode(r.miiData.miiData);
    SubSlice(image, 0xBB, 0x11B, mii, 0, 0x5C);
    SubSlice(image, 0xBB, 0x11B, mii, 0x5C, 0x5E);
    SubSlice(image, 0xBB, 0x11B, mii, 0x5E, 0x60);
  }

  /** A slice of a run of bytes found at [a, b) of a larger sequence is found there too, shifted by a. */
  lemma SubSlice(whole: seq<u8>, a: nat, b: nat, part: seq<u8>, c: nat, d: nat)
    requires a <= b <= |whole| && whole[a..b] == part && c <= d <= |part|
    ensures whole[a + c..a + d] == part[c..d]
  {
    assert forall k :: 0 <= k < d - c ==> whole[a + c..a + d][k] == part[c..d][k];
  }

  /**
   * A default-constructed record: the two magic words, every other field zero, and
   * the embedded Mii default-constructed, which seals it.
   */
  function Default(): (r: FRDMyData)
    ensures WellSized(r)
    ensures r.magic == MagicMyData && r.magicNumber == MagicNumber
    ensures Checksummed.ChecksumMatches(r.miiData) && r.miiData.crc16 == 0
    ensures Mii.IsZero(r.miiData.miiData) && r.miiData.unknown == 0
    ensures r.padding1 == 0 && r.unk50 == 0 && r.localFriendCodeSeed == 0
    ensures ZeroProfile(r.profile)
    ensures AllZeroBytes(r.unk10) && AllZeroBytes(r.padding2) && AllZeroBytes(r.padding3)
    ensures AllZeroUnits(r.comment) && AllZeroUnits(r.unk68)
    ensures AllZeroUnits(r.serialNumber) && AllZeroUnits(r.displayName)
  {
    Checksummed.DefaultStoredIsSealedZero();
    WithZeros(MagicMyData, MagicNumber, seq(0x20, _ => 0), Checksummed.DefaultStored)
  }

  /** A record with the given magic words, zero bytes at unk10 and embedded Mii, and every other field zero. */
  function WithZeros(magic: u32, magicNumber: u32, unk10: seq<u8>, miiData: Checksummed.Stored): (r: FRDMyData)
    requires |unk10| == 0x20 && AllZeroBytes(unk10)
    ensures WellSized(r)
    ensures r.magic == magic && r.magicNumber == magicNumber && r.miiData == miiData
    ensures r.padding1 == 0 && r.unk50 == 0 && r.localFriendCodeSeed == 0
    ensures ZeroProfile(r.profile)
    ensures AllZeroBytes(r.unk10) && AllZeroBytes(r.padding2) && AllZeroBytes(r.padding3)
    ensures AllZeroUnits(r.comment) && AllZeroUnits(r.unk68)
    ensures AllZeroUnits(r.serialNumber) && AllZeroUnits(r.displayName)
  {
    FRDMyData(magic, magicNumber, 0, unk10, ZeroUnits(FriendCommentSize), 0,
      FriendProfile(0, 0, 0, 0, 0, ZeroBytes3()), 0, ZeroUnits(0xD), ZeroUnits(0x10),
      ZeroUnits(FriendScreenNameSize), ZeroBytes3(), miiData, ZeroBytes5())
  }

  /** Every byte is zero. */
  predicate AllZeroBytes(bs: seq<u8>)
  {
    forall k :: 0 <= k < |bs| ==> bs[k] == 0
  }

  /** Every field of the profile is zero, the padding included. */
  predicate ZeroProfile(p: FriendProfile)
  {
    p.region == 0 && p.country == 0 && p.area == 0 && p.language == 0 && p.platform == 0
    && AllZeroBytes(p.padding)
  }

  function ZeroBytes3(): (bs: Bytes3)
    ensures AllZeroBytes(bs)
  {
    [0, 0, 0]
  }

  function ZeroBytes5(): (bs: Bytes5)
    ensures AllZeroBytes(bs)
  {
    [0, 0, 0, 0, 0]
  }

  /** Every code unit is zero. */
  predicate AllZeroUnits(us: seq<u16>)
  {
    forall k :: 0 <= k < |us| ==> us[k] == 0
  }

  function ZeroUnits(n: nat): (us: seq<u16>)
    ensures |us| == n
    ensures AllZeroUnits(us)
  {
    if n == 0 then [] else [0] + ZeroUnits(n - 1)
  }

  /** Whether both magic words have their expected values; decoding never checks this. */
  predicate HasExpectedMagic(r: FRDMyData)
  {
    r.magic == MagicMyData && r.magicNumber == MagicNumber
  }

  /** The number of bytes a single read of the record takes from a file of the given length. */
  function BytesRead(fileLength: nat): (n: nat)
    ensures n <= MyDataSize && n <= fileLength
    ensures n == MyDataSize || n == fileLength
  {
    if fileLength < MyDataSize then fileLength else MyDataSize
  }

  /**
   * Reading a file into a record, as a single read of sizeof(FRDMyData) bytes over
   * the record's storage: the bytes read overwrite the start of the record's image
   * and the rest keeps what was there. Nothing read is validated. The program reads
   * into a default-constructed record, `Default()`.
   */
  function ReadMyData(obj: FRDMyData, file: seq<u8>): (r: FRDMyData)
    requires WellSized(obj)
    ensures WellSized(r)
    ensures Encode(r)[..BytesRead(|file|)] == file[..BytesRead(|file|)]
    ensures Encode(r)[BytesRead(|file|)..] == Encode(obj)[BytesRead(|file|)..]
  {
    var n := BytesRead(|file|);
    var image := file[..n] + Encode(obj)[n..];
    Overlay(file[..n], Encode(obj), image);
    DecodeExact(image)
  }

  /** Bytes written over the start of an image: the prefix is the new bytes and the rest is the old image. */
  lemma Overlay(head: seq<u8>, old_image: seq<u8>, image: seq<u8>)
    requires |head| <= |old_image| && image == head + old_image[|head|..]
    ensures |image| == |old_image|
    ensures image[..|head|] == head && image[|head|..] == old_image[|head|..]
  {
  }

  /** A file holding at least a whole record is read as its first 0x120 bytes, whatever the record held. */
  lemma ReadWholeRecord(obj: FRDMyData, file: seq<u8>)
    requires WellSized(obj) && |file| >= MyDataSize
    ensures Decode(file[..MyDataSize]) == Ok(ReadMyData(obj, file))
  {
    var r := ReadMyData(obj, file);
    assert Encode(r) == file[..MyDataSize];
    DecodeEncode(r);
  }

  /** An empty file leaves the record as it was. */
  lemma ReadEmptyFile(obj: FRDMyData)
    requires WellSized(obj)
    ensures ReadMyData(obj, []) == obj
  {
    var r := ReadMyData(obj, []);
    assert Encode(r) == Encode(obj);
    DecodeEncode(r);
    DecodeEncode(obj);
  }

  /**
   * Decoding accepts any magic: a full-size buffer always decodes, and the decoded
   * magic is the little-endian reading of its first four bytes, expected or not.
   */
  lemma MagicIsNotValidated(s: seq<u8>)
    requires |s| == MyDataSize
    ensures Decode(s).Ok?
    ensures Decode(s).value.magic as nat == LeValue(s[..4])
    ensures HasExpectedMagic(Decode(s).value) ==> LeValue(s[..4]) == MagicMyData as nat
  {
    MyDataLayoutSize();
    var vs := DecodeAll(MyDataLayout, s);
    assert vs[0] == DecodeValue(MyDataLayout[0].kind, s[..4]);
  }
}
