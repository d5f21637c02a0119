# FRDStructTesting in Dafny

FRDStructTesting decodes a Nintendo 3DS friend-data file ("mydata"). It reads the
file's bytes straight into the in-memory records and prints them. This project models
that decoding core and proves properties of the model:

- **Byte layouts.** The 0x5C-byte Mii record (`MiiData`) has per-field byte order and
  fifteen bit-field groups. The 0x60-byte checksummed Mii (`ChecksummedMiiData`) adds a
  reserved word and a CRC-16. The 8-byte `FriendProfile` and the 0x120-byte outer
  record `FRDMyData` complete the set. `MiiData` and `ChecksummedMiiData` are declared packed. `FRDMyData`
  is declared after the packing is switched off, but each of its fields already lies at
  a multiple of its natural alignment, so it has no padding either. Each record has a
  decoder and an encoder over byte sequences, proved inverse to each other. The offset of
  every field is proved, and so is where each field's bytes lie in the record's image.
- **Bit-field groups.** Each group is one storage word plus a table of
  (offset, width) sub-fields. The tables are proved well formed. Writing a sub-field
  and reading it back is proved to return what was written and to leave every
  other bit of the record alone.
- **The checksum.** The CRC-16 is an MSB-first bitwise fold with polynomial 0x1021,
  initial value 0 and no reflection or final XOR (the parameter set catalogued as
  CRC-16/XMODEM). The model covers its check value, its value on zeros and its
  detection of any single-byte change. The checksummed Mii is a class whose
  constructors and assignments re-seal the checksum, or do not, as the source's do.
- **Text helpers.** A UTF-16 array becomes a NUL-terminated string of low bytes. A MAC
  address becomes `xx:xx:xx:xx:xx:xx`. The serial-number check digit is computed
  from a mod-10 weighted sum.

Modules: `Numeric` (fixed-width integers and their byte codecs), `Errors`,
`Layout` (generic record layouts whose fields follow each other with no padding), `BitField`, `Crc16` (the register fold on
bit-vectors), `Crc16Bytes` (the fold over bytes), `Mii`, `Checksummed`,
`FriendData`, `Strings` and `Serial`.

Reading the file is a function of the file's bytes. A short file overwrites only
the start of the record. Where the code and a natural reading of it differ, the
model follows the code:

- The check digit needs only nine characters. Index 9 of a nine-character
  `std::string` is its NUL terminator, which the code reads as the value -48
  (see Findings).
- Decoding never checks the magic words or the checksum.

## Model

| member | source | states |
|---|---|---|
| Numeric.LeRoundTrip | main.h:182 | little-endian n-byte encoding of a value below 256^n decodes back to it |
| Numeric.BeRoundTrip | main.h:50-51 | big-endian n-byte encoding of a value below 256^n decodes back to it |
| Numeric.LeBytesOfValue | main.h:182 | re-encoding the little-endian value of a byte string gives the same bytes |
| Numeric.BeBytesOfValue | main.h:50-51 | re-encoding the big-endian value of a byte string gives the same bytes |
| Numeric.IntegerRoundTrip | main.h:50-57 | for either byte order, integer → bytes → integer is the identity on in-range values |
| Numeric.BytesRoundTrip | main.h:50-57 | for either byte order, bytes → integer → bytes is the identity |
| Numeric.BeIsReversedLe | main.h:50-51 | the big-endian bytes of a value are its little-endian bytes reversed |
| Numeric.LeValueBound | main.h:182 | the value of n little-endian bytes is below 256^n |
| Layout.EncodeAll | main.h:185-233 | the encoding is exactly TotalSize bytes: fields follow each other with no padding |
| Layout.DecodeAll | main.cpp:165 | cutting a TotalSize-byte buffer gives one value per field, each of its field's shape |
| Layout.Decode | main.cpp:165 | decoding succeeds exactly when the buffer has the layout's size, giving the per-field cut of the buffer; otherwise SizeError |
| Layout.TotalSizeIsEndOffset | main.h:17 | a layout's size is the end offset of its last field |
| Layout.EncodedFieldAt | main.h:185-233 | in a record's encoding, field i's bytes lie at [Offset(i), Offset(i) + size) and are that field's own encoding |
| Layout.DecodedFieldAt | main.cpp:165 | decoding a buffer gives field i the value decoded from bytes [Offset(i), Offset(i) + size) |
| Layout.UnitsRoundTrip | main.h:66 | UTF-16LE units → bytes → units is the identity |
| Layout.UnitsBytesRoundTrip | main.h:66 | bytes → UTF-16LE units → bytes is the identity on even-length buffers |
| Layout.ValueRoundTrip | main.h:185-233 | one field's encode-then-decode gives the value back |
| Layout.ValueBytesRoundTrip | main.h:185-233 | one field's decode-then-encode gives the bytes back |
| Layout.DecodeEncode | main.cpp:165 | decoding an encoded record gives back every field value |
| Layout.EncodeDecode | main.cpp:165 | encoding a decoded buffer gives back the buffer |
| Layout.ZeroRecordEncodesToZeros | main.h:21-182 | a record whose fields are all zero encodes to all-zero bytes |
| BitField.InOrderWellFormed | main.h:24-180 | sub-fields listed in increasing, non-overlapping order are disjoint and fit the word |
| BitField.ExtractInsertSame | main.h:27-30 | inserting v into a bit range and extracting that range gives v's low bits |
| BitField.ExtractInsertOther | main.h:27-30 | inserting into one bit range leaves every disjoint range unchanged |
| BitField.InsertExtracted | main.h:27-30 | inserting a range's own value back leaves the word unchanged |
| BitField.InsertBound | main.h:98-108 | inserting inside a word of `bits` bits keeps it below 2^bits |
| BitField.ExtractBound | main.h:98-108 | an extracted w-bit sub-field is below 2^w |
| BitField.ExtractIsShiftAndMask | main.h:27-30 | extraction equals (word >> offset) & (2^width - 1) |
| BitField.Get | main.h:27-30 | a sub-field read is below 2^width |
| BitField.Set | main.h:27-30 | a write succeeds exactly when the value fits the width; otherwise RangeError |
| BitField.SetThenGet | main.h:97-108 | writing then reading gives the value; other sub-fields and all bits outside the range are unchanged; the word stays in range |
| BitField.SetOutOfRange | main.h:27-30 | a value of 2^width or more is refused with RangeError |
| Crc16.FeedOctet | main.cpp:32 | feeding one octet leaves the register zero exactly when the octet, shifted into the high byte, equals the register |
| Crc16.Fold | main.cpp:32 | the fold of no octets is the start register; of one octet, one feed step; zero octets keep a zero register at zero |
| Crc16.CheckRegister | main.cpp:32 | folding ASCII "123456789" from 0 gives the catalogued check value 0x31C3 |
| Crc16.FoldAppend | main.cpp:32 | the fold over a + b is the fold over b started from the fold over a |
| Crc16.ShiftBitInjective | main.cpp:32 | one bit step with polynomial 0x1021 maps distinct registers to distinct registers |
| Crc16.FeedInjectiveInRegister | main.cpp:32 | feeding the same octet into distinct registers gives distinct registers |
| Crc16.FeedInjectiveInOctet | main.cpp:32 | feeding distinct octets into the same register gives distinct registers |
| Crc16.FoldInjective | main.cpp:32 | folding the same octets from distinct registers ends in distinct registers |
| Crc16.FoldZeros | main.cpp:32 | folding zeros ends in 0 exactly when the register started at 0 |
| Crc16.FoldAround | main.cpp:32 | the fold splits around any position into prefix, octet and suffix |
| Crc16.OctetChangeDetected | main.cpp:32 | changing any one octet changes the fold's result |
| Crc16Bytes.Octets | main.cpp:32 | bytes become octets one for one: same length, and each octet has the numeric value of its byte |
| Crc16Bytes.Crc | main.cpp:32 | the CRC is the register fold from the initial value 0 over the bytes, with no final XOR; the CRC of no bytes, or of any run of zero bytes, is 0 |
| Crc16Bytes.CheckValue | main.cpp:32 | the CRC of the bytes "123456789" is 0x31C3 |
| Crc16Bytes.CrcOfZeros | main.cpp:32 | the CRC of any all-zero input is 0 |
| Crc16Bytes.SingleByteChangeDetected | main.cpp:32 | changing any single byte changes the CRC |
| Mii.Fields | main.h:185-233 | the record's 25 fields, in declaration and serialization order, fit the Mii layout |
| Mii.FieldsRoundTrip | main.h:185-233 | rebuilding the record from its field values gives it back |
| Mii.FromFieldsRoundTrip | main.h:185-233 | any field values that fit the layout come back from the record built from them |
| Mii.MiiLayoutSize | main.h:237 | the layout is exactly 0x5C bytes |
| Mii.MiiOffsets | main.h:21-182 | system_id @4, mii_id @12, mac @16, pad @22, mii_details @24, mii_name @26, height @46, eye_details @52, mole_details @70, author_name @72; end @0x5C |
| Mii.Encode | main.h:185-233 | a record's image is 0x5C bytes |
| Mii.DecodeExact | main.cpp:165 | every 0x5C-byte buffer reads as a record whose image is that buffer |
| Mii.Decode | main.cpp:165 | decoding succeeds exactly on 0x5C-byte buffers, giving DecodeExact's record; otherwise SizeError |
| Mii.FieldImageAt | main.h:21-182 | field i is stored in the image at its offset, as that field's own encoding |
| Mii.MiiImage | main.h:21-182 | magic at 0, system_id big-endian at 4..12, mii_id big-endian at 12..16, mac at 16..22, pad in host order at 22..24, mii_details at 24..26, mii_name as UTF-16LE at 26..46, eye_details at 52..56, mole_details at 70..72, author_name at 72..92 |
| Mii.DecodeEncode | main.h:19-237 | decode(encode(m)) == m |
| Mii.DefaultMiiEncodesToZeros | main.h:21-182 | the value-initialised record's image is all zero bytes |
| Mii.DefaultMiiIsZero | main.h:21-182 | a record has every field zero exactly when it is the value-initialised record |
| Mii.GroupLayoutOf | main.h:24-180 | every group's word is 8, 16 or 32 bits and its sub-fields are listed upward from bit 0, without overlap, inside the word |
| Mii.GroupsWellFormed | main.h:24-180 | in every one of the fifteen groups the sub-fields are non-empty, pairwise disjoint and inside the storage word |
| Mii.GroupStorage | main.h:24-180 | each group is stored in the one integer field its union is named after, as wide as the group's word; 16- and 32-bit words use the group word order |
| Mii.GroupFieldHoldsWord | main.h:24-180 | the field storing a group holds exactly the group's word |
| Mii.Word | main.h:24-180 | a group's word is below 2^bits of the group |
| Mii.WithWord | main.h:24-180 | replacing one group's word changes that word and no other group's |
| Mii.WithWordRestores | main.h:24-180 | putting the old word back restores the record exactly |
| Mii.GetSubField | main.h:24-180 | a sub-field read is below 2^width |
| Mii.SetSubField | main.h:24-180 | a write succeeds exactly when the value fits the sub-field; otherwise it is refused with RangeError |
| Mii.SetSubFieldThenGet | main.h:97-108 | write then read gives the value; the group's other sub-fields, every bit of the word outside the written sub-field, every other group and all other fields are unchanged |
| Checksummed.CheckedBytes | main.h:279-281 | the covered bytes are 0x5E long and start with the Mii record's image |
| Checksummed.Encode | main.h:279-281 | the image is 0x60 bytes: the covered bytes, the reserved word big-endian at 0x5C, the checksum big-endian at 0x5E |
| Checksummed.DecodeExact | main.h:288-297 | every 0x60-byte buffer reads as a record, checksum kept as stored, whose image is that buffer |
| Checksummed.Decode | main.h:288-297 | decoding succeeds exactly on 0x60-byte buffers, giving DecodeExact's record; otherwise SizeError |
| Checksummed.DecodeEncode | main.h:288-297 | decoding an image gives back Mii, reserved word and checksum |
| Checksummed.WordRoundTrip | main.h:280-281 | a big-endian u16 word round-trips through its two bytes |
| Checksummed.ChecksumOf | main.cpp:30-33 | the checksum is the CRC of bytes [0, 0x5E) of the image |
| Checksummed.ChecksumMatches | main.h:273-275 | a record matches exactly when the big-endian word at 0x5E of its image is the CRC of the image's bytes [0, 0x5E) |
| Checksummed.Seal | main.h:284-286 | sealing keeps the Mii and reserved word and makes the checksum match |
| Checksummed.ChecksumIgnoresStoredChecksum | main.cpp:32 | the computed checksum does not depend on the stored one |
| Checksummed.DefaultChecksumIsZero | main.h:241-243 | a value-initialised record with a zero reserved word seals with checksum 0 |
| Checksummed.CorruptedByteDetected | main.h:273-275 | changing any byte of the covered range of a matching record makes it mismatch |
| Checksummed.CorruptedImageDetected | main.h:273-275 | on a 0x60-byte image whose checksum matches, changing any one byte below 0x5E makes it mismatch |
| Checksummed.EditedImage | main.h:269-275 | editing one byte of the Mii record edits the same byte of the checksummed image and nothing else |
| Checksummed.MiiEditDetected | main.h:269-275 | editing any byte of the Mii record without re-sealing makes the checksum mismatch |
| Checksummed.ChecksummedMiiData.CalcChecksum | main.cpp:30-33 | the object's checksum is the CRC of its first 0x5E image bytes |
| Checksummed.ChecksummedMiiData.IsChecksumValid | main.h:273-275 | the object is valid exactly when its stored record's checksum matches |
| Checksummed.ChecksummedMiiData.constructor | main.h:241-243 | default construction holds the sealed zero record (`DefaultStored`): checksum 0, valid |
| Checksummed.DefaultStoredIsSealedZero | main.h:241-243 | the record a default-constructed object holds has an all-zero Mii, reserved word 0, checksum 0, and the checksum matches |
| Checksummed.ChecksummedMiiData.FromMiiData | main.h:249-255 | construction from a Mii record gives that Mii, reserved word 0, a matching checksum |
| Checksummed.ChecksummedMiiData.Copy | main.h:244-245 | copy and move construction take every field over, checksum included, valid or not |
| Checksummed.ChecksummedMiiData.AssignMiiData | main.h:257-267 | assigning a Mii record keeps the reserved word and re-seals |
| Checksummed.ChecksummedMiiData.Assign | main.h:246-247 | copy and move assignment take every field over without re-sealing |
| Checksummed.ChecksummedMiiData.FixChecksum | main.h:284-286 | the checksum becomes the computed one; the other fields are unchanged |
| Checksummed.ChecksummedMiiData.GetMiiData | main.h:269-271 | the Mii record returned is the one stored in the first 0x5C image bytes |
| Checksummed.ChecksummedMiiData.SetMiiDataThroughReference | main.h:269-271 | writing through the returned reference replaces the Mii and leaves the checksum as it was |
| FriendData.ProfileLayoutSize | main.h:304-310 | the profile layout is 8 bytes |
| FriendData.EncodeProfile | main.h:313-321 | a profile's image is 8 bytes |
| FriendData.DecodeProfile | main.h:313-321 | every 8-byte buffer reads as a profile whose image is that buffer |
| FriendData.ProfileRoundTrip | main.h:313-321 | decode(encode(p)) == p for the 8-byte profile |
| FriendData.Fields | main.h:344-360 | the fourteen fields, in serialization order, fit the 0x120-byte layout |
| FriendData.FieldsRoundTrip | main.h:344-360 | rebuilding the record from its field values gives it back, nested records included |
| FriendData.FromFieldsRoundTrip | main.h:344-360 | any fitting field values come back from the record built from them |
| FriendData.MyDataLayoutSize | main.h:328-341 | the layout is exactly 0x120 bytes |
| FriendData.MyDataOffsets | main.h:328-341 | profile @0x58, local_friend_code_seed @0x60, serial_number @0x82, mii_data @0xBB, end @0x120 |
| FriendData.MyDataNaturallyAligned | main.h:325-341 | every field starts at a multiple of its natural alignment and the size is a multiple of 8, so the unpacked record has no padding |
| FriendData.Encode | main.h:344-360 | a record's image is 0x120 bytes |
| FriendData.DecodeExact | main.cpp:165 | every 0x120-byte buffer reads as a well-sized record whose image is that buffer |
| FriendData.FieldImageAt | main.h:328-341 | field i is stored in the image at its offset, as that field's own encoding |
| FriendData.MyDataImage | main.h:328-341 | magic at 0..4 and magic_number at 4..8 little-endian, comment at 0x30, profile image at 0x58, seed at 0x60, serial_number at 0x82, display_name at 0xA2, the checksummed Mii at 0xBB with its Mii record, reserved word at 0x117 and checksum at 0x119 |
| FriendData.Decode | main.cpp:165 | decoding succeeds exactly on 0x120-byte buffers, giving DecodeExact's well-sized record; otherwise SizeError |
| FriendData.DecodeEncode | main.h:325-362 | decode(encode(r)) == Ok(r) |
| FriendData.Default | main.h:326-341 | default construction sets magic 0x46504D44 and magic_number 0x20101021; the embedded Mii is all zero with reserved word 0, sealed with checksum 0; every other field (padding, unk10, comment, unk50, profile, seed, unk68, serial number, display name) is zero |
| FriendData.BytesRead | main.cpp:165 | a read takes the record's size or the whole file, whichever is smaller |
| FriendData.ReadMyData | main.cpp:159-165 | the bytes read overwrite the start of the record's image; the rest is unchanged |
| FriendData.ReadWholeRecord | main.cpp:165 | with a long enough file, the record read is the decoding of its first 0x120 bytes |
| FriendData.ReadEmptyFile | main.cpp:165 | an empty file leaves the record unchanged |
| FriendData.MagicIsNotValidated | main.cpp:165-171 | every 0x120-byte buffer decodes; the magic is its first four bytes read little-endian, expected or not |
| Strings.LowByteChar | main.cpp:23 | the character lies in 0..0xFF and the unit is its upper byte times 0x100 plus the character, so the character is the unit's low byte |
| Strings.TerminatorIndex | main.cpp:22 | the index of the first zero unit, or the length: every unit before it is non-zero |
| Strings.TextView | main.cpp:22-26 | the text is no longer than the array and, when shorter, ends at a zero unit |
| Strings.ConvertU16ArrayToString | main.cpp:18-28 | as written (unbounded loop, needs a zero unit): the result is the text view of the array |
| Strings.ConvertU16ArrayToStringBounded | main.cpp:18-28 | loop bounded by the array's size: the result is the text view for every array |
| Strings.TextViewShape | main.cpp:22-25 | the text's length is the first zero's index; character k is unit k's low byte |
| Strings.TextViewStopsAtZero | main.cpp:22-26 | units after a zero unit never reach the text |
| Strings.StoreTextRoundTrip | main.cpp:22-26 | a text of narrow non-NUL characters stored zero-padded reads back as itself |
| Strings.TextViewExample | main.cpp:22-26 | [0x41, 0x42, 0, 0x43] reads as "AB" |
| Strings.TextViewDropsUpperByte | main.cpp:23 | [0x3042, 0] reads as "B" |
| Strings.FullLengthNameHasNoTerminator | main.cpp:22 | a ten-character Mii name holds no zero unit, and its text is all ten low bytes |
| Strings.HexDigit | main.cpp:6 | every digit is 0-9 or a-f |
| Strings.HexPair | main.cpp:9 | every byte is written as exactly two digits |
| Strings.HexPairRoundTrip | main.cpp:9 | parsing the two digits gives back the byte |
| Strings.MacText | main.cpp:3-16 | the address text is 17 characters |
| Strings.ConvertMacAddressToString | main.cpp:3-16 | the loop's result is the address text of the first six bytes |
| Strings.MacPrefixLength | main.cpp:8-13 | after k iterations 3k characters are written, 17 after all six |
| Strings.MacPrefixAt | main.cpp:8-13 | iteration i writes byte i's pair at 3i and, for i < 5, a ':' at 3i + 2 |
| Strings.MacTextShape | main.cpp:8-13 | 17 characters: pair i at 3i, ':' at 3i + 2 for the first five |
| Strings.MacRoundTrip | main.cpp:8-13 | parsing the text gives back the first six bytes |
| Strings.MacPrefixReadsOnlyPrefix | main.cpp:8 | addresses agreeing on their first six bytes have the same text |
| Strings.MacTextExample | main.cpp:3-16 | bytes 00 1A FF 05 B0 7C give "00:1a:ff:05:b0:7c" |
| Serial.SignedCharValue | main.cpp:40-42 | a narrow char read as a signed char lies in -128..127 and agrees with the char's code modulo 256 |
| Serial.DigitValue | main.cpp:40-42 | a digit character contributes its digit value 0..9 |
| Serial.TruncRem10 | main.cpp:48 | C's % 10: 0..9 for non-negative operands, -9..0 for negative ones, congruent to the operand |
| Serial.Sums | main.cpp:38-45 | after visiting k characters each sum lies within k times the range -176..79 of a signed char minus '0' |
| Serial.CheckDigitOf | main.cpp:48-53 | 3 * even + odd + digit is a multiple of 10; the digit is in 0..9 when the weighted sum is not negative |
| Serial.CalculateCheckDigit | main.cpp:35-54 | the loop's result is the check digit of the weighted sums |
| Serial.SumsClosedForm | main.cpp:38-45 | indices 2, 4, 6, 8 go to the odd sum; 3, 5, 7, 9 to the even sum |
| Serial.NegativeSumCheckDigit | main.cpp:48-51 | a negative weighted sum, which only non-digits give, yields 0 or a value in 11..19 |
| Serial.CheckDigitOfDigits | main.cpp:48-53 | with digits at 2..9 the check digit is in 0..9 and is the only digit completing the sum |
| Serial.CheckDigitReadsTwoToNine | main.cpp:38 | only characters 2 to 9 are read |
| Serial.CheckDigitExample | main.cpp:35-54 | "CW12345678" has check digit 4 |
| Serial.NineCharacterSerialExample | main.cpp:38-53 | "CW1234567" has the check digit 12, read through its terminating NUL |
| Serial.ZeroedSerialIsTooShort | main.cpp:201-202 | a still-zero serial_number array converts to a text shorter than nine characters |
| Serial.CheckedCheckDigit | main.cpp:35-54 | a check digit exists exactly when characters 2..9 are digits; it is then a single digit completing the weighted sum; any other text is refused with FormatError |

## Left out

- Printing: `WriteMiiData`, the output half of `MyDataTest`, and `main`. They only write text to the console.
- Opening the file: a failed `fopen` only prints an error. `ReadMyData` takes the file's bytes as a parameter.
- The printing of `comment` by reinterpreting each unit as a C string is not modelled. That is an unterminated read of unit bytes.
- Boost serialization archives are not modelled. The layouts reproduce the field order of the `serialize` methods.
- The boost CRC routine is not modelled as code. It is replaced by the bitwise fold with its parameters.
- The bit-field accessor template is not part of this model. Sub-field offsets count from the least significant bit of the storage word.
- Mii.GroupWordOrder: the constant assumes 16- and 32-bit group words are assembled big-endian, as their storage is declared. Whether the accessor counts bits on that value or on the host-order reading of the same bytes cannot be settled here.
- Mii.HostOrder: the plain `u16 pad` field is assumed little-endian, the host order of the usual targets.
- BitField.Set: it refuses a value that does not fit the width with RangeError. The accessor template, which is not part of this model, may instead truncate the value.
- Mii.SetSubField: same as BitField.Set; an out-of-range write is refused instead of truncated.
- Unions are not modelled as aliasing storage. Each group is its storage word, and sub-fields are views of it.
- Checksummed.ChecksummedMiiData.GetMiiData: returns the Mii record as a value, not a reference. `SetMiiDataThroughReference` stands for a write through that reference.
- Strings.ConvertU16ArrayToString: an array with no zero unit is excluded by its precondition. The source then reads past the array, which is undefined behaviour (see Findings).
- Serial.CalculateCheckDigit: reading beyond index |s| of a shorter string is excluded by the precondition (undefined behaviour in the source). Characters are narrow and signed, as on the usual targets.
- Partial reads: when the file ends inside the record, C leaves the record's contents indeterminate after `fread` (section 7.21.8.1 of the C11 standard). `FriendData.ReadMyData` models what common C libraries do: the bytes read overwrite the start of the record and the rest keeps its old contents.
- Serial.CheckDigitOf: the source's loop also runs on strings shorter than nine characters, reading past them, which is undefined behaviour; the precondition excludes them and Findings records the input that reaches them.
- `FRIEND_GAME_MODE_DESCRIPTION_SIZE` and `FRIEND_LIST_SIZE` are not used by the core.

## Findings

| source | as written | input that shows it | evidently intended | confidence | as-written member | corrected member |
|---|---|---|---|---|---|---|
| main.cpp:22 | `while (u16Array[length] != 0)` has no bound on `length` | a Mii name (main.h:66, 10 units) ten characters long has no zero unit, so the loop reads past the array | stop at the array's end as well as at a zero unit | not executed; high | Strings.ConvertU16ArrayToString, Strings.FullLengthNameHasNoTerminator | Strings.ConvertU16ArrayToStringBounded |
| main.cpp:38-53 | characters 2 to 9 are read as `serialNumber[i] - '0'` with no check that they are digits, and only nine characters may exist | "CW1234567" (nine characters): index 9 is the NUL terminator, read as -48, and the check digit comes out as 12 | accept only a serial number with digits at 2..9, giving one digit | not executed; medium | Serial.CalculateCheckDigit, Serial.NineCharacterSerialExample | Serial.CheckedCheckDigit |
| main.cpp:201-202 | the serial_number text is passed to `CalculateCheckDigit` whatever its length | a record whose serial_number is still zero converts to the empty text, and the loop reads characters 2 to 9 past its end | refuse a text without digits at 2..9 | not executed; medium | Serial.ZeroedSerialIsTooShort | Serial.CheckedCheckDigit |
