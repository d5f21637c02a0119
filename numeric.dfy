/** Fixed-width unsigned integers, byte order, and byte-string codecs of integers. */
module Numeric {

  newtype u8 = x: int | 0 <= x < 0x100
  newtype u16 = x: int | 0 <= x < 0x1_0000
  newtype u32 = x: int | 0 <= x < 0x1_0000_0000
  newtype u64 = x: int | 0 <= x < 0x1_0000_0000_0000_0000

  /** The order in which the bytes of a multi-byte integer are stored. */
  datatype ByteOrder = BigEndian | LittleEndian

  /** 2^n */
  function Pow2(n: nat): (r: nat)
    ensures r >= 1
  {
    if n == 0 then 1 else 2 * Pow2(n - 1)
  }

  lemma Pow2Values()
    ensures Pow2(8) == 0x100 && Pow2(16) == 0x1_0000 && Pow2(32) == 0x1_0000_0000
  {
    assert Pow2(8) == 0x100;
    assert Pow2(16) == 0x1_0000;
    assert Pow2(24) == 0x100_0000;
  }

  /** 256^n: the number of values an n-byte integer can hold. */
  function Pow256(n: nat): (r: nat)
    ensures r >= 1
  {
    if n == 0 then 1 else 256 * Pow256(n - 1)
  }

  lemma Pow256Values()
    ensures Pow256(1) == 0x100 && Pow256(2) == 0x1_0000
    ensures Pow256(4) == 0x1_0000_0000 && Pow256(8) == 0x1_0000_0000_0000_0000
  {
    assert Pow256(2) == 0x1_0000;
    assert Pow256(4) == 0x1_0000_0000;
  }

  /** The n bytes of x, least significant first. */
  function LeBytes(x: nat, n: nat): (s: seq<u8>)
    ensures |s| == n
  {
    if n == 0 then [] else [(x % 256) as u8] + LeBytes(x / 256, n - 1)
  }

  /** The integer whose bytes, least significant first, are s. */
  function LeValue(s: seq<u8>): nat
  {
    if |s| == 0 then 0 else s[0] as nat + 256 * LeValue(s[1..])
  }

  /** The n bytes of x, most significant first. */
  function BeBytes(x: nat, n: nat): (s: seq<u8>)
    ensures |s| == n
  {
    if n == 0 then [] else BeBytes(x / 256, n - 1) + [(x % 256) as u8]
  }

  /** The integer whose bytes, most significant first, are s. */
  function BeValue(s: seq<u8>): nat
  {
    if |s| == 0 then 0 else 256 * BeValue(s[..|s| - 1]) + s[|s| - 1] as nat
  }

  function ToBytes(x: nat, n: nat, order: ByteOrder): (s: seq<u8>)
    ensures |s| == n
  {
    match order
    case BigEndian => BeBytes(x, n)
    case LittleEndian => LeBytes(x, n)
  }

  function FromBytes(s: seq<u8>, order: ByteOrder): nat
  {
    match order
    case BigEndian => BeValue(s)
    case LittleEndian => LeValue(s)
  }

  lemma {:induction false} LeValueBound(s: seq<u8>)
    ensures LeValue(s) < Pow256(|s|)
  {
    if |s| > 0 {
      LeValueBound(s[1..]);
    }
  }

  lemma {:induction false} BeValueBound(s: seq<u8>)
    ensures BeValue(s) < Pow256(|s|)
  {
    if |s| > 0 {
      BeValueBound(s[..|s| - 1]);
    }
  }

  /** Every byte string decodes to an integer that fits its width. */
  lemma FromBytesBound(s: seq<u8>, order: ByteOrder)
    ensures FromBytes(s, order) < Pow256(|s|)
  {
    if order == BigEndian { BeValueBound(s); } else { LeValueBound(s); }
  }

  lemma {:induction false} LeRoundTrip(x: nat, n: nat)
    requires x < Pow256(n)
    ensures LeValue(LeBytes(x, n)) == x
  {
    if n > 0 {
      LeRoundTrip(x / 256, n - 1);
      assert LeBytes(x, n)[1..] == LeBytes(x / 256, n - 1);
    }
  }

  lemma {:induction false} BeRoundTrip(x: nat, n: nat)
    requires x < Pow256(n)
    ensures BeValue(BeBytes(x, n)) == x
  {
    if n > 0 {
      BeRoundTrip(x / 256, n - 1);
      var s := BeBytes(x, n);
      assert s[..|s| - 1] == BeBytes(x / 256, n - 1);
    }
  }

  lemma {:induction false} LeBytesOfValue(s: seq<u8>)
    ensures LeBytes(LeValue(s), |s|) == s
  {
    if |s| > 0 {
      LeBytesOfValue(s[1..]);
      var v := LeValue(s);
      assert v % 256 == s[0] as nat && v / 256 == LeValue(s[1..]);
    }
  }

  lemma {:induction false} BeBytesOfValue(s: seq<u8>)
    ensures BeBytes(BeValue(s), |s|) == s
  {
    if |s| > 0 {
      var init := s[..|s| - 1];
      BeBytesOfValue(init);
      var v := BeValue(s);
      assert v % 256 == s[|s| - 1] as nat && v / 256 == BeValue(init);
      assert s == init + [s[|s| - 1]];
    }
  }

  /** Encoding an integer that fits n bytes and decoding it again gives it back. */
  lemma IntegerRoundTrip(x: nat, n: nat, order: ByteOrder)
    requires x < Pow256(n)
    ensures FromBytes(ToBytes(x, n, order), order) == x
  {
    if order == BigEndian { BeRoundTrip(x, n); } else { LeRoundTrip(x, n); }
  }

  /** Decoding a byte string and encoding the integer again gives the bytes back. */
  lemma BytesRoundTrip(s: seq<u8>, order: ByteOrder)
    ensures ToBytes(FromBytes(s, order), |s|, order) == s
  {
    if order == BigEndian { BeBytesOfValue(s); } else { LeBytesOfValue(s); }
  }

  /** Big- and little-endian storage of the same value are each other's reversal. */
  lemma {:induction false} BeIsReversedLe(x: nat, n: nat)
    ensures |BeBytes(x, n)| == n
    ensures forall i :: 0 <= i < n ==> BeBytes(x, n)[i] == LeBytes(x, n)[n - 1 - i]
  {
    if n > 0 {
      BeIsReversedLe(x / 256, n - 1);
    }
  }
}
