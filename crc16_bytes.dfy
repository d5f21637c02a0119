/** The checksum over bytes, as the rest of the model sees it. */
module Crc16Bytes {
  import opened Numeric
  import opened Crc16

  /** The octets of a byte string. */
  function Octets(bytes: seq<u8>): (o: seq<bv8>)
    ensures |o| == |bytes|
    ensures forall k :: 0 <= k < |bytes| ==> o[k] == bytes[k] as bv8
    ensures forall k :: 0 <= k < |bytes| ==> o[k] as int == bytes[k] as int
  {
    OctetValues(bytes);
    seq(|bytes|, k requires 0 <= k < |bytes| => bytes[k] as bv8)
  }

  lemma OctetValues(bytes: seq<u8>)
    ensures forall k :: 0 <= k < |bytes| ==> (bytes[k] as bv8) as int == bytes[k] as int
  {
    forall k | 0 <= k < |bytes| {
      OctetValue(bytes[k]);
    }
  }

  /**
   * The checksum of a byte string. Reflection is off and there is no final XOR, so
   * the checksum is the number the register holds after the last octet, and an
   * input of zero bytes only, the empty one included, leaves the initial zero.
   */
  function Crc(bytes: seq<u8>): (c: u16)
    ensures c as int == Fold(InitialValue, Octets(bytes)) as int
    ensures (forall k :: 0 <= k < |bytes| ==> bytes[k] == 0) ==> c == 0
  {
    ZeroBytesAreZeroOctets(bytes);
    FoldZeros(InitialValue, |bytes|);
    ((Fold(InitialValue, Octets(bytes)) ^ FinalXor) as int) as u16
  }

  /** An all-zero byte string gives all-zero octets. */
  lemma ZeroBytesAreZeroOctets(bytes: seq<u8>)
    ensures (forall k :: 0 <= k < |bytes| ==> bytes[k] == 0) ==> Octets(bytes) == Zeros(|bytes|)
  {
  }

  /** A byte and its octet denote the same number. */
  lemma OctetValue(x: u8)
    ensures (x as bv8) as int == x as int
  {
    // split by ranges of 32 values, which the solver handles one at a time
    if x < 128 {
      if x < 64 { if x < 32 { } else { } } else { if x < 96 { } else { } }
    } else {
      if x < 192 { if x < 160 { } else { } } else { if x < 224 { } else { } }
    }
  }

  /** Two bytes are equal exactly when their octets are. */
  lemma OctetInjective(x: u8, y: u8)
    ensures x as bv8 == y as bv8 <==> x == y
  {
    OctetValue(x);
    OctetValue(y);
  }

  lemma RegisterValue(a: bv16)
    ensures (a as int) as bv16 == a
  {
  }

  /** Two registers are equal exactly when the numbers they denote are. */
  lemma RegisterAsInt(a: bv16, b: bv16)
    ensures a as int == b as int <==> a == b
  {
    RegisterValue(a);
    RegisterValue(b);
  }

  /** The catalogued check value: the CRC of the nine ASCII octets "123456789" is 0x31C3. */
  lemma CheckValue(m: seq<u8>)
    requires |m| == 9
    requires m[0] == 0x31 && m[1] == 0x32 && m[2] == 0x33 && m[3] == 0x34 && m[4] == 0x35
    requires m[5] == 0x36 && m[6] == 0x37 && m[7] == 0x38 && m[8] == 0x39
    ensures Crc(m) == 0x31C3
  {
    var o := Octets(m);
    OctetsOfDigits(m);
    CheckRegister(o);
  }

  lemma OctetsOfDigits(m: seq<u8>)
    requires |m| == 9
    requires m[0] == 0x31 && m[1] == 0x32 && m[2] == 0x33 && m[3] == 0x34 && m[4] == 0x35
    requires m[5] == 0x36 && m[6] == 0x37 && m[7] == 0x38 && m[8] == 0x39
    ensures Octets(m)[0] == 0x31 && Octets(m)[1] == 0x32 && Octets(m)[2] == 0x33
    ensures Octets(m)[3] == 0x34 && Octets(m)[4] == 0x35 && Octets(m)[5] == 0x36
    ensures Octets(m)[6] == 0x37 && Octets(m)[7] == 0x38 && Octets(m)[8] == 0x39
  {
  }

  /** The checksum of any number of zero bytes is zero. */
  lemma CrcOfZeros(bytes: seq<u8>)
    requires forall k :: 0 <= k < |bytes| ==> bytes[k] == 0
    ensures Crc(bytes) == 0
  {
    assert Octets(bytes) == Zeros(|bytes|);
    FoldZeros(InitialValue, |bytes|);
  }

  /** Changing any one byte of the input changes the checksum. */
  lemma SingleByteChangeDetected(m: seq<u8>, i: nat, b: u8)
    requires i < |m| && b != m[i]
    ensures Crc(m[i := b]) != Crc(m)
  {
    OctetInjective(b, m[i]);
    assert Octets(m[i := b]) == Octets(m)[i := b as bv8];
    OctetChangeDetected(InitialValue, Octets(m), i, b as bv8);
    RegisterAsInt(Fold(InitialValue, Octets(m[i := b])), Fold(InitialValue, Octets(m)));
  }
}
