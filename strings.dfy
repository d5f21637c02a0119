/**
 * The two conversions the dump uses to turn stored fields into text: a UTF-16
 * array read as a NUL-terminated string of low bytes, and a MAC address written
 * as six two-digit lower-case hexadecimal pairs separated by colons.
 *
 * Text is a sequence of narrow characters; every character these conversions
 * produce is below 256.
 */
module Strings {
  import opened Numeric

  // ---------------------------------------------------------------------------
  // UTF-16 array to string
  // ---------------------------------------------------------------------------

  /** A code unit's low byte as a narrow character: the unit is its upper byte times 0x100 plus the character. */
  function LowByteChar(u: u16): (c: char)
    ensures 0 <= c as int < 0x100
    ensures u as int == 0x100 * ((u as int) / 0x100) + c as int
  {
    ((u as int) % 0x100) as char
  }

  /** The index of the first zero unit, or the length when there is none. */
  function TerminatorIndex(units: seq<u16>): (n: nat)
    ensures n <= |units|
    ensures n < |units| ==> units[n] == 0
    ensures forall k :: 0 <= k < n ==> units[k] != 0
  {
    if |units| == 0 || units[0] == 0 then 0 else 1 + TerminatorIndex(units[1..])
  }

  /**
   * The text an array of code units holds: the low bytes of the units before the
   * first zero unit, or of every unit when there is no zero. It ends at the end
   * of the array or at a zero unit.
   */
  function TextView(units: seq<u16>): (s: string)
    ensures |s| <= |units|
    ensures |s| < |units| ==> units[|s|] == 0
  {
    if |units| == 0 || units[0] == 0 then [] else [LowByteChar(units[0])] + TextView(units[1..])
  }

  /**
   * The conversion as written: the loop stops only at a zero unit and has no
   * bound, so it stays inside the array only when the array holds a zero.
   */
  method ConvertU16ArrayToString(units: seq<u16>) returns (result: string)
    requires 0 in units
    ensures result == TextView(units)
  {
    result := [];
    var length := 0;
    while units[length] != 0
      invariant length <= TerminatorIndex(units) < |units|
      invariant result + TextView(units[length..]) == TextView(units)
      decreases |units| - length
    {
      assert units[length..][1..] == units[length + 1..];
      result := result + [LowByteChar(units[length])];
      length := length + 1;
    }
  }

  /** The conversion with the loop bounded by the array's size, as the caller evidently expects. */
  method ConvertU16ArrayToStringBounded(units: seq<u16>) returns (result: string)
    ensures result == TextView(units)
  {
    result := [];
    var length := 0;
    while length < |units| && units[length] != 0
      invariant length <= TerminatorIndex(units)
      invariant result + TextView(units[length..]) == TextView(units)
    {
      assert units[length..][1..] == units[length + 1..];
      result := result + [LowByteChar(units[length])];
      length := length + 1;
    }
  }

  /** The text is exactly as long as the run of non-zero units, and each character is its unit's low byte. */
  lemma {:induction false} TextViewShape(units: seq<u16>)
    ensures |TextView(units)| == TerminatorIndex(units)
    ensures forall k :: 0 <= k < |TextView(units)| ==> TextView(units)[k] == LowByteChar(units[k])
  {
    if |units| > 0 && units[0] != 0 {
      TextViewShape(units[1..]);
    }
  }

  /** Nothing after the first zero unit reaches the text. */
  lemma {:induction false} TextViewStopsAtZero(units: seq<u16>, rest: seq<u16>)
    requires 0 in units
    ensures TextView(units + rest) == TextView(units)
  {
    if units[0] != 0 {
      assert (units + rest)[1..] == units[1..] + rest;
      TextViewStopsAtZero(units[1..], rest);
    }
  }

  /** A text of narrow, non-NUL characters, stored one per unit and zero-padded. */
  function StoreText(s: string, count: nat): (units: seq<u16>)
    requires |s| <= count
    requires forall k :: 0 <= k < |s| ==> 0 < s[k] as int < 0x100
    ensures |units| == count
  {
    if |s| == 0 then seq(count, _ => 0)
    else [s[0] as int as u16] + StoreText(s[1..], count - 1)
  }

  /** Reading back a stored text gives the text, whether or not it fills the array. */
  lemma {:induction false} StoreTextRoundTrip(s: string, count: nat)
    requires |s| <= count
    requires forall k :: 0 <= k < |s| ==> 0 < s[k] as int < 0x100
    ensures TextView(StoreText(s, count)) == s
  {
    if |s| > 0 {
      StoreTextRoundTrip(s[1..], count - 1);
      assert StoreText(s, count)[1..] == StoreText(s[1..], count - 1);
    }
  }

  /** Units 'A', 'B', 0, 'C' read as "AB". */
  lemma TextViewExample()
    ensures TextView([0x41, 0x42, 0, 0x43]) == "AB"
  {
    var u: seq<u16> := [0x41, 0x42, 0, 0x43];
    assert u[1..] == [0x42, 0, 0x43];
    assert u[1..][1..] == [0, 0x43];
  }

  /** The upper byte is dropped: U+3042 reads as the character 0x42. */
  lemma TextViewDropsUpperByte()
    ensures TextView([0x3042, 0]) == "B"
  {
    var u: seq<u16> := [0x3042, 0];
    assert u[1..] == [0];
  }

  /**
   * A Mii name uses all ten of its units when it is ten characters long, and then
   * holds no zero unit: the as-written conversion's requirement fails for it.
   */
  lemma FullLengthNameHasNoTerminator(name: seq<u16>)
    requires |name| == 10 && forall k :: 0 <= k < 10 ==> name[k] != 0
    ensures !(0 in name)
    ensures TextView(name) == seq(10, k requires 0 <= k < 10 => LowByteChar(name[k]))
  {
    TextViewShape(name);
    assert TerminatorIndex(name) == 10;
  }

  // ---------------------------------------------------------------------------
  // MAC address to string
  // ---------------------------------------------------------------------------

  const HexDigits: string := "0123456789abcdef"

  /** The lower-case hexadecimal digit of a value below 16. */
  function HexDigit(n: nat): (c: char)
    requires n < 16
    ensures '0' <= c <= '9' || 'a' <= c <= 'f'
  {
    HexDigits[n]
  }

  /** A byte written in hexadecimal, padded to two digits with '0'. */
  function HexPair(b: u8): (s: string)
    ensures |s| == 2
  {
    [HexDigit(b as nat / 16), HexDigit(b as nat % 16)]
  }

  /** The inverse of HexDigit. */
  function HexDigitValue(c: char): nat
  {
    if '0' <= c <= '9' then c as nat - '0' as nat
    else if 'a' <= c <= 'f' then c as nat - 'a' as nat + 10
    else 0
  }

  lemma HexDigitRoundTrip(n: nat)
    requires n < 16
    ensures HexDigitValue(HexDigit(n)) == n
  {
  }

  /** A two-digit pair read back as the byte it was written from. */
  function ParseHexPair(s: string): nat
    requires |s| == 2
  {
    16 * HexDigitValue(s[0]) + HexDigitValue(s[1])
  }

  lemma HexPairRoundTrip(b: u8)
    ensures ParseHexPair(HexPair(b)) == b as nat
  {
    HexDigitRoundTrip(b as nat / 16);
    HexDigitRoundTrip(b as nat % 16);
  }

  /** The text after the first `count` iterations: each byte's pair, a colon after all but the sixth. */
  function MacPrefix(mac: seq<u8>, count: nat): (s: string)
    requires count <= 6 && count <= |mac|
  {
    if count == 0 then []
    else MacPrefix(mac, count - 1) + HexPair(mac[count - 1]) + (if count - 1 < 5 then ":" else "")
  }

  /** The address text: six pairs separated by colons, from the first six bytes. */
  function MacText(mac: seq<u8>): (s: string)
    requires |mac| >= 6
    ensures |s| == 17
  {
    MacPrefixLength(mac, 6);
    MacPrefix(mac, 6)
  }

  /** Writes the first six bytes of the address as "xx:xx:xx:xx:xx:xx". */
  method ConvertMacAddressToString(macAddress: seq<u8>) returns (s: string)
    requires |macAddress| >= 6
    ensures s == MacText(macAddress)
  {
    s := [];
    for i := 0 to 6
      invariant s == MacPrefix(macAddress, i)
    {
      s := s + HexPair(macAddress[i]);
      if i < 5 {
        s := s + ":";
      }
    }
  }

  lemma {:induction false} MacPrefixLength(mac: seq<u8>, count: nat)
    requires count <= 6 && count <= |mac|
    ensures |MacPrefix(mac, count)| == (if count == 6 then 17 else 3 * count)
  {
    if count > 0 {
      MacPrefixLength(mac, count - 1);
    }
  }

  /** Later iterations only append: the text after `count` iterations starts with the text after fewer. */
  lemma {:induction false} MacPrefixExtends(mac: seq<u8>, k: nat, count: nat)
    requires k <= count <= 6 && count <= |mac|
    ensures |MacPrefix(mac, k)| <= |MacPrefix(mac, count)|
    ensures MacPrefix(mac, count)[..|MacPrefix(mac, k)|] == MacPrefix(mac, k)
  {
    if k < count {
      MacPrefixExtends(mac, k, count - 1);
      var p := MacPrefix(mac, count - 1);
      assert MacPrefix(mac, count)[..|p|] == p;
    }
  }

  /** Iteration i writes the pair of byte i at 3i and, for the first five, a colon at 3i + 2. */
  lemma MacPrefixAt(mac: seq<u8>, count: nat, i: nat)
    requires i < count <= 6 && count <= |mac|
    ensures 3 * i + 2 <= |MacPrefix(mac, count)|
    ensures MacPrefix(mac, count)[3 * i..3 * i + 2] == HexPair(mac[i])
    ensures i < 5 ==> 3 * i + 2 < |MacPrefix(mac, count)| && MacPrefix(mac, count)[3 * i + 2] == ':'
  {
    MacPrefixLength(mac, i);
    MacPrefixLength(mac, i + 1);
    MacPrefixExtends(mac, i + 1, count);
    var p := MacPrefix(mac, i + 1);
    var s := MacPrefix(mac, count);
    assert p[3 * i..3 * i + 2] == HexPair(mac[i]);
    assert s[3 * i..3 * i + 2] == p[3 * i..3 * i + 2];
    if i < 5 {
      assert s[3 * i + 2] == p[3 * i + 2];
    }
  }

  /** The address text is 17 characters: pair i at 3i, a colon at 3i + 2 for the first five. */
  lemma MacTextShape(mac: seq<u8>)
    requires |mac| >= 6
    ensures |MacText(mac)| == 17
    ensures forall i :: 0 <= i < 6 ==> MacText(mac)[3 * i..3 * i + 2] == HexPair(mac[i])
    ensures forall i :: 0 <= i < 5 ==> MacText(mac)[3 * i + 2] == ':'
  {
    forall i | 0 <= i < 6
      ensures MacText(mac)[3 * i..3 * i + 2] == HexPair(mac[i])
      ensures i < 5 ==> MacText(mac)[3 * i + 2] == ':'
    {
      MacPrefixAt(mac, 6, i);
    }
  }

  /** Reads the six pairs of an address text back into bytes. */
  function ParseMac(s: string): (mac: seq<nat>)
    requires |s| == 17
    ensures |mac| == 6
  {
    seq(6, i requires 0 <= i < 6 => ParseHexPair(s[3 * i..3 * i + 2]))
  }

  /** Parsing the address text gives back the first six bytes. */
  lemma MacRoundTrip(mac: seq<u8>)
    requires |mac| >= 6
    ensures ParseMac(MacText(mac)) == seq(6, i requires 0 <= i < 6 => mac[i] as nat)
  {
    MacTextShape(mac);
    forall i | 0 <= i < 6
      ensures ParseMac(MacText(mac))[i] == mac[i] as nat
    {
      HexPairRoundTrip(mac[i]);
    }
  }

  /** Only the first six bytes are read: addresses that agree there have the same text. */
  lemma {:induction false} MacPrefixReadsOnlyPrefix(a: seq<u8>, b: seq<u8>, count: nat)
    requires count <= 6 && count <= |a| && count <= |b|
    requires a[..count] == b[..count]
    ensures MacPrefix(a, count) == MacPrefix(b, count)
  {
    if count > 0 {
      assert a[count - 1] == a[..count][count - 1];
      assert b[count - 1] == b[..count][count - 1];
      assert a[..count - 1] == a[..count][..count - 1];
      assert b[..count - 1] == b[..count][..count - 1];
      MacPrefixReadsOnlyPrefix(a, b, count - 1);
    }
  }

  /** Bytes 0x00, 0x1A, 0xFF, 0x05, 0xB0, 0x7C are written "00:1a:ff:05:b0:7c". */
  lemma MacTextExample(mac: seq<u8>)
    requires |mac| == 6
    requires mac[0] == 0x00 && mac[1] == 0x1A && mac[2] == 0xFF
    requires mac[3] == 0x05 && mac[4] == 0xB0 && mac[5] == 0x7C
    ensures MacText(mac) == "00:1a:ff:05:b0:7c"
  {
    assert HexPair(mac[0]) == "00" && HexPair(mac[1]) == "1a" && HexPair(mac[2]) == "ff";
    assert HexPair(mac[3]) == "05" && HexPair(mac[4]) == "b0" && HexPair(mac[5]) == "7c";
    assert MacPrefix(mac, 1) == "00:";
    assert MacPrefix(mac, 2) == "00:1a:";
    assert MacPrefix(mac, 3) == "00:1a:ff:";
    assert MacPrefix(mac, 4) == "00:1a:ff:05:";
    assert MacPrefix(mac, 5) == "00:1a:ff:05:b0:";
  }
}
