/**
 * The checksummed Mii: a 0x5C-byte Mii record, a reserved big-endian word and a
 * big-endian CRC-16 of every byte before the checksum, 0x60 bytes in all.
 *
 * `Stored` is the record as a value (what a buffer decodes to, and what the outer
 * friend-data record embeds); `ChecksummedMiiData` is the object whose constructors
 * and assignments overwrite its fields and re-seal the checksum.
 */
module Checksummed {
  import opened Numeric
  import opened Errors
  import Layout
  import Mii
  import Crc16Bytes

  const ChecksummedSize: nat := 0x60

  /** The offset of the checksum field; the checksum covers every byte before it. */
  const ChecksumOffset: nat := 0x5E

  /** A checksummed Mii as stored. */
  datatype Stored = Stored(miiData: Mii.MiiData, unknown: u16, crc16: u16)

  /** The bytes the checksum covers: the Mii record, then the reserved word. */
  function CheckedBytes(miiData: Mii.MiiData, unknown: u16): (s: seq<u8>)
    ensures |s| == ChecksumOffset
    ensures s[..Mii.MiiSize] == Mii.Encode(miiData)
  {
    Mii.Encode(miiData) + BeBytes(unknown as nat, 2)
  }

  /** The 0x60-byte image: the checked bytes, then the checksum stored big-endian. */
  function Encode(c: Stored): (s: seq<u8>)
    ensures |s| == ChecksummedSize
    ensures s[..ChecksumOffset] == CheckedBytes(c.miiData, c.unknown)
    ensures s[Mii.MiiSize..ChecksumOffset] == BeBytes(c.unknown as nat, 2)
    ensures s[ChecksumOffset..] == BeBytes(c.crc16 as nat, 2)
  {
    CheckedBytes(c.miiData, c.unknown) + BeBytes(c.crc16 as nat, 2)
  }

  /** A big-endian 16-bit word read from two bytes. */
  function BeWord(s: seq<u8>): u16
    requires |s| == 2
  {
    BeValueBound(s);
    Pow256Values();
    BeValue(s) as u16
  }

  /**
   * Reads a buffer of exactly 0x60 bytes; the stored checksum is kept as it is,
   * valid or not. Every bit pattern is a record: encoding it gives the buffer back.
   */
  function DecodeExact(s: seq<u8>): (c: Stored)
    requires |s| == ChecksummedSize
    ensures Encode(c) == s
  {
    WordBytesRoundTrip(s[Mii.MiiSize..ChecksumOffset]);
    WordBytesRoundTrip(s[ChecksumOffset..]);
    assert s == s[..Mii.MiiSize] + s[Mii.MiiSize..ChecksumOffset] + s[ChecksumOffset..];
    Stored(Mii.DecodeExact(s[..Mii.MiiSize]), BeWord(s[Mii.MiiSize..ChecksumOffset]),
      BeWord(s[ChecksumOffset..]))
  }

  /** Decoding refuses a buffer that is not exactly 0x60 bytes. */
  function Decode(s: seq<u8>): (r: Result<Stored>)
    ensures r.Ok? <==> |s| == ChecksummedSize
    ensures r.Ok? ==> r.value == DecodeExact(s)
    ensures !r.Ok? ==> r.error == SizeError
  {
    if |s| == ChecksummedSize then Ok(DecodeExact(s)) else Err(SizeError)
  }

  lemma WordRoundTrip(x: u16)
    ensures BeWord(BeBytes(x as nat, 2)) == x
  {
    Pow256Values();
    BeRoundTrip(x as nat, 2);
  }

  lemma WordBytesRoundTrip(s: seq<u8>)
    requires |s| == 2
    ensures BeBytes(BeWord(s) as nat, 2) == s
  {
    BeBytesOfValue(s);
  }

  /** Encoding a checksummed Mii and decoding the bytes gives it back, checksum included. */
  lemma DecodeEncode(c: Stored)
    ensures DecodeExact(Encode(c)) == c
  {
    var s := Encode(c);
    assert s[..Mii.MiiSize] == Mii.Encode(c.miiData);
    assert s[Mii.MiiSize..ChecksumOffset] == BeBytes(c.unknown as nat, 2);
    assert s[ChecksumOffset..] == BeBytes(c.crc16 as nat, 2);
    Mii.DecodeEncode(c.miiData);
    WordRoundTrip(c.unknown);
    WordRoundTrip(c.crc16);
  }

  /** The CRC-16 of bytes [0, 0x5E) of the record's image. */
  function ChecksumOf(c: Stored): (crc: u16)
    ensures crc == Crc16Bytes.Crc(Encode(c)[..ChecksumOffset])
  {
    Crc16Bytes.Crc(CheckedBytes(c.miiData, c.unknown))
  }

  /**
   * The stored checksum matches the one computed from the covered bytes: in the
   * image, the big-endian word at 0x5E is the CRC-16 of bytes [0, 0x5E).
   */
  predicate ChecksumMatches(c: Stored): (b: bool)
    ensures b <==> BeWord(Encode(c)[ChecksumOffset..]) == Crc16Bytes.Crc(Encode(c)[..ChecksumOffset])
  {
    WordRoundTrip(c.crc16);
    c.crc16 == ChecksumOf(c)
  }

  /** The record with its checksum recomputed from the Mii record and the reserved word. */
  function Seal(miiData: Mii.MiiData, unknown: u16): (c: Stored)
    ensures c.miiData == miiData && c.unknown == unknown
    ensures ChecksumMatches(c)
  {
    var c := Stored(miiData, unknown, 0);
    c.(crc16 := ChecksumOf(c))
  }

  /** The checksum does not cover itself: whatever is stored there, the computed value is the same. */
  lemma ChecksumIgnoresStoredChecksum(c: Stored, x: u16)
    ensures ChecksumOf(c.(crc16 := x)) == ChecksumOf(c)
    ensures ChecksumMatches(c.(crc16 := x)) <==> x == ChecksumOf(c)
  {
  }

  /** The record a default-constructed object holds: the zero Mii with a zero reserved word, sealed. */
  const DefaultStored: Stored := Seal(Mii.DefaultMii, 0)

  /** The default record holds the zero Mii and a zero reserved word, and its checksum, 0, matches. */
  lemma DefaultStoredIsSealedZero()
    ensures Mii.IsZero(DefaultStored.miiData) && DefaultStored.unknown == 0
    ensures ChecksumMatches(DefaultStored) && DefaultStored.crc16 == 0
  {
    DefaultChecksumIsZero();
    Mii.DefaultMiiIsZero(Mii.DefaultMii);
  }

  /** A value-initialised record with a zero reserved word seals with checksum 0. */
  lemma DefaultChecksumIsZero()
    ensures Seal(Mii.DefaultMii, 0).crc16 == 0
  {
    var s := CheckedBytes(Mii.DefaultMii, 0);
    Mii.DefaultMiiEncodesToZeros();
    Layout.BeBytesOfZero(2);
    assert forall k :: 0 <= k < |s| ==> s[k] == 0 by {
      forall k | 0 <= k < |s| ensures s[k] == 0 {
        if k < Mii.MiiSize {
          assert s[k] == Mii.Encode(Mii.DefaultMii)[k];
        } else {
          assert s[k] == BeBytes(0, 2)[k - Mii.MiiSize];
        }
      }
    }
    Crc16Bytes.CrcOfZeros(s);
  }

  /**
   * Changing any one byte of the covered range [0, 0x5E) of a record whose checksum
   * matches, without re-sealing, leaves a record whose checksum no longer matches.
   */
  lemma CorruptedByteDetected(c: Stored, i: nat, b: u8)
    requires ChecksumMatches(c)
    requires i < ChecksumOffset && b != Encode(c)[i]
    ensures !ChecksumMatches(DecodeExact(Encode(c)[i := b]))
  {
    var s := Encode(c);
    CorruptedImageDetected(s, i, b);
    assert Encode(DecodeExact(s[i := b])) == s[i := b];
  }

  /** The same on bytes: one changed covered byte makes the stored checksum disagree with the computed one. */
  lemma CorruptedImageDetected(s: seq<u8>, i: nat, b: u8)
    requires |s| == ChecksummedSize && BeWord(s[ChecksumOffset..]) == Crc16Bytes.Crc(s[..ChecksumOffset])
    requires i < ChecksumOffset && b != s[i]
    ensures BeWord(s[i := b][ChecksumOffset..]) != Crc16Bytes.Crc(s[i := b][..ChecksumOffset])
  {
    var s' := s[i := b];
    assert s'[ChecksumOffset..] == s[ChecksumOffset..];
    assert s'[..ChecksumOffset] == s[..ChecksumOffset][i := b];
    Crc16Bytes.SingleByteChangeDetected(s[..ChecksumOffset], i, b);
  }

  /**
   * Editing one byte of the Mii record in place, as a write through the reference
   * GetMiiData returns does, leaves a matching checksum stale.
   */
  lemma MiiEditDetected(c: Stored, i: nat, b: u8)
    requires ChecksumMatches(c)
    requires i < Mii.MiiSize && b != Mii.Encode(c.miiData)[i]
    ensures !ChecksumMatches(c.(miiData := Mii.DecodeExact(Mii.Encode(c.miiData)[i := b])))
  {
    var edited := c.(miiData := Mii.DecodeExact(Mii.Encode(c.miiData)[i := b]));
    EditedImage(c, i, b, edited);
    CorruptedImageDetected(Encode(c), i, b);
  }

  /** The image of a record whose Mii has one byte edited is the old image with that byte edited. */
  lemma EditedImage(c: Stored, i: nat, b: u8, edited: Stored)
    requires i < Mii.MiiSize
    requires edited == c.(miiData := Mii.DecodeExact(Mii.Encode(c.miiData)[i := b]))
    ensures Encode(edited) == Encode(c)[i := b] && Encode(c)[i] == Mii.Encode(c.miiData)[i]
  {
    var m := Mii.Encode(c.miiData);
    var word, sum := BeBytes(c.unknown as nat, 2), BeBytes(c.crc16 as nat, 2);
    UpdateInPrefix(m, word, i, b);
    UpdateInPrefix(m + word, sum, i, b);
  }

  lemma UpdateInPrefix(a: seq<u8>, rest: seq<u8>, i: nat, b: u8)
    requires i < |a|
    ensures (a + rest)[i] == a[i]
    ensures (a + rest)[i := b] == a[i := b] + rest
  {
  }

  /**
   * The checksummed Mii object. Constructing it from a Mii record, or assigning a
   * Mii record to it, recomputes the checksum; copying or moving another object,
   * and writing through the reference to its Mii record, do not.
   */
  class ChecksummedMiiData {
    var miiData: Mii.MiiData
    var unknown: u16
    var crc16: u16

    /** The object's three fields as a stored record. */
    function Value(): Stored
      reads this
    {
      Stored(miiData, unknown, crc16)
    }

    /** The checksum computed over the object's first 0x5E bytes. */
    function CalcChecksum(): (crc: u16)
      reads this
      ensures crc == Crc16Bytes.Crc(Encode(Value())[..ChecksumOffset])
    {
      ChecksumOf(Value())
    }

    /** Whether the stored checksum equals a freshly computed one. */
    predicate IsChecksumValid(): (valid: bool)
      reads this
      ensures valid <==> ChecksumMatches(Value())
    {
      crc16 == CalcChecksum()
    }

    /** Default construction: a zero Mii record, a zero reserved word, then the checksum is fixed. */
    constructor ()
      ensures Value() == DefaultStored
      ensures crc16 == 0 && IsChecksumValid()
    {
      miiData := Mii.DefaultMii;
      unknown := 0;
      crc16 := DefaultStored.crc16;
      new;
      DefaultStoredIsSealedZero();
    }

    /** Construction from a Mii record (by copy or by move): the reserved word is zero and the checksum fixed. */
    constructor FromMiiData(data: Mii.MiiData)
      ensures Value() == Seal(data, 0)
      ensures IsChecksumValid()
    {
      miiData := data;
      unknown := 0;
      crc16 := ChecksumOf(Stored(data, 0, 0));
    }

    /** Copy or move construction: every field is taken over as it is, checksum included. */
    constructor Copy(other: ChecksummedMiiData)
      ensures Value() == other.Value()
      ensures IsChecksumValid() <==> other.IsChecksumValid()
    {
      miiData := other.miiData;
      unknown := other.unknown;
      crc16 := other.crc16;
    }

    /** Assignment of a Mii record (by copy or by move): the reserved word is kept and the checksum fixed. */
    method AssignMiiData(data: Mii.MiiData)
      modifies this
      ensures Value() == Seal(data, old(unknown))
      ensures IsChecksumValid()
    {
      miiData := data;
      FixChecksum();
    }

    /** Copy or move assignment: every field is taken over as it is, checksum included. */
    method Assign(other: ChecksummedMiiData)
      modifies this
      ensures Value() == old(other.Value())
      ensures IsChecksumValid() <==> old(other.IsChecksumValid())
    {
      miiData, unknown, crc16 := other.miiData, other.unknown, other.crc16;
    }

    /** Overwrites the stored checksum with the one computed from the other fields. */
    method FixChecksum()
      modifies this
      ensures Value() == Seal(old(miiData), old(unknown))
      ensures IsChecksumValid()
    {
      crc16 := ChecksumOf(Value());
    }

    /** Reading the Mii record through the reference GetMiiData returns. */
    function GetMiiData(): (m: Mii.MiiData)
      reads this
      ensures Mii.Encode(m) == Encode(Value())[..Mii.MiiSize]
    {
      miiData
    }

    /** Writing a Mii record through the reference GetMiiData returns: the checksum is not recomputed. */
    method SetMiiDataThroughReference(data: Mii.MiiData)
      modifies this
      ensures Value() == old(Value()).(miiData := data)
    {
      miiData := data;
    }
  }
}
