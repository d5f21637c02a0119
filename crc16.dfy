/**
 * CRC-16 with width 16, polynomial 0x1021 (x^16 + x^12 + x^5 + 1), initial value 0,
 * no input or output reflection and no final XOR: the parameter set catalogued as
 * CRC-16/XMODEM. Octets are fed most significant bit first into a 16-bit register.
 */
module Crc16 {
  import opened Numeric


  const Polynomial: bv16 := 0x1021
  const InitialValue: bv16 := 0
  const FinalXor: bv16 := 0

  /** One bit step: shift the register left, folding in the polynomial when a 1 falls out. */
  function ShiftBit(r: bv16): bv16
  {
    if r & 0x8000 != 0 then (r << 1) ^ Polynomial else r << 1
  }

  /** The eight bit steps that follow each octet. */
  function ShiftByte(r: bv16): bv16
  {
    ShiftBit(ShiftBit(ShiftBit(ShiftBit(ShiftBit(ShiftBit(ShiftBit(ShiftBit(r))))))))
  }

  /** The octet placed in the high half of the register. */
  function Mix(b: bv8): bv16
  {
    b as bv16 << 8
  }

  /**
   * Feeds one octet into the register, most significant bit first. The eight bit
   * steps are a bijection, so the register ends at zero exactly when the octet
   * cancels the register: its high half is the octet and its low half is zero.
   */
  function FeedOctet(r: bv16, b: bv8): (r': bv16)
    ensures r' == 0 <==> r == Mix(b)
  {
    FeedCancels(r, b);
    ShiftByte(r ^ Mix(b))
  }

  lemma FeedCancels(r: bv16, b: bv8)
    ensures ShiftByte(r ^ Mix(b)) == 0 <==> r == Mix(b)
  {
    assert ShiftByte(0) == 0;
    if r != Mix(b) {
      XorInjective(r, Mix(b), Mix(b));
      ShiftByteInjective(r ^ Mix(b), 0);
    }
  }

  /**
   * Feeds the octets, in order, into the register: no octets leave it as it is, one
   * octet is one feed, and zero octets keep a zero register at zero. FoldAppend and
   * FoldAround state how longer inputs compose.
   */
  function Fold(r: bv16, octets: seq<bv8>): (r': bv16)
    ensures |octets| == 0 ==> r' == r
    ensures |octets| == 1 ==> r' == FeedOctet(r, octets[0])
    ensures r == 0 && (forall k :: 0 <= k < |octets| ==> octets[k] == 0) ==> r' == 0
    decreases |octets|
  {
    if |octets| == 0 then r else Fold(FeedOctet(r, octets[0]), octets[1..])
  }

  lemma CheckStep0()
    ensures FeedOctet(0x0000, 0x31) == 0x2672
  {
  }

  lemma CheckStep1()
    ensures FeedOctet(0x2672, 0x32) == 0x20B5
  {
  }

  lemma CheckStep2()
    ensures FeedOctet(0x20B5, 0x33) == 0x9752
  {
  }

  lemma CheckStep3()
    ensures FeedOctet(0x9752, 0x34) == 0xD789
  {
  }

  lemma CheckStep4()
    ensures FeedOctet(0xD789, 0x35) == 0x546C
  {
  }

  lemma CheckStep5()
    ensures FeedOctet(0x546C, 0x36) == 0x20E4
  {
  }

  lemma CheckStep6()
    ensures FeedOctet(0x20E4, 0x37) == 0x86D6
  {
  }

  lemma CheckStep7()
    ensures FeedOctet(0x86D6, 0x38) == 0x9015
  {
  }

  lemma CheckStep8()
    ensures FeedOctet(0x9015, 0x39) == 0x31C3
  {
  }

  lemma CheckOctets0To3(s: seq<bv8>)
    requires |s| == 9 && s[0] == 0x31 && s[1] == 0x32 && s[2] == 0x33
    ensures Fold(0x0000, s[0..]) == Fold(0x9752, s[3..])
  {
    CheckStep0();
    FoldAdvance(0x0000, s, 0, 0x31, 0x2672);
    CheckStep1();
    FoldAdvance(0x2672, s, 1, 0x32, 0x20B5);
    CheckStep2();
    FoldAdvance(0x20B5, s, 2, 0x33, 0x9752);
  }

  lemma CheckOctets3To6(s: seq<bv8>)
    requires |s| == 9 && s[3] == 0x34 && s[4] == 0x35 && s[5] == 0x36
    ensures Fold(0x9752, s[3..]) == Fold(0x20E4, s[6..])
  {
    CheckStep3();
    FoldAdvance(0x9752, s, 3, 0x34, 0xD789);
    CheckStep4();
    FoldAdvance(0xD789, s, 4, 0x35, 0x546C);
    CheckStep5();
    FoldAdvance(0x546C, s, 5, 0x36, 0x20E4);
  }

  lemma CheckOctets6To9(s: seq<bv8>)
    requires |s| == 9 && s[6] == 0x37 && s[7] == 0x38 && s[8] == 0x39
    ensures Fold(0x20E4, s[6..]) == Fold(0x31C3, s[9..])
  {
    CheckStep6();
    FoldAdvance(0x20E4, s, 6, 0x37, 0x86D6);
    CheckStep7();
    FoldAdvance(0x86D6, s, 7, 0x38, 0x9015);
    CheckStep8();
    FoldAdvance(0x9015, s, 8, 0x39, 0x31C3);
  }

  /** The register after the nine octets of "123456789" is 0x31C3. */
  lemma CheckRegister(s: seq<bv8>)
    requires |s| == 9
    requires s[0] == 0x31 && s[1] == 0x32 && s[2] == 0x33 && s[3] == 0x34 && s[4] == 0x35 && s[5] == 0x36 && s[6] == 0x37 && s[7] == 0x38 && s[8] == 0x39
    ensures Fold(InitialValue, s) == 0x31C3
  {
    CheckOctets0To3(s);
    CheckOctets3To6(s);
    CheckOctets6To9(s);
    assert s[0..] == s;
  }

  lemma FoldAdvance(r: bv16, s: seq<bv8>, k: nat, b: bv8, r': bv16)
    requires k < |s| && s[k] == b && FeedOctet(r, b) == r'
    ensures Fold(r, s[k..]) == Fold(r', s[k + 1..])
  {
    assert s[k..][1..] == s[k + 1..];
  }

  /** Folding a concatenation folds the first part, then the second. */
  lemma {:induction false} FoldAppend(r: bv16, a: seq<bv8>, b: seq<bv8>)
    ensures Fold(r, a + b) == Fold(Fold(r, a), b)
    decreases |a|
  {
    if |a| > 0 {
      assert (a + b)[1..] == a[1..] + b;
      FoldAppend(FeedOctet(r, a[0]), a[1..], b);
    } else {
      assert a + b == b;
    }
  }

  lemma ShiftBitInjectiveNoFold(u: bv16, v: bv16)
    requires u != v && u & 0x8000 == 0 && v & 0x8000 == 0
    ensures ShiftBit(u) != ShiftBit(v)
  {
  }

  lemma ShiftBitInjectiveBothFold(u: bv16, v: bv16)
    requires u != v && u & 0x8000 != 0 && v & 0x8000 != 0
    ensures ShiftBit(u) != ShiftBit(v)
  {
  }

  /** A step that folds in the polynomial sets the lowest bit; one that does not clears it. */
  lemma ShiftBitOneFolds(u: bv16, v: bv16)
    requires u & 0x8000 != 0 && v & 0x8000 == 0
    ensures ShiftBit(u) != ShiftBit(v)
  {
  }

  /**
   * The polynomial has its lowest bit set, so the lowest bit after a step tells whether
   * the top bit fell out: the bit step is a bijection of the register.
   */
  lemma ShiftBitInjective(u: bv16, v: bv16)
    requires u != v
    ensures ShiftBit(u) != ShiftBit(v)
  {
    var tu, tv := u & 0x8000 != 0, v & 0x8000 != 0;
    if !tu && !tv {
      ShiftBitInjectiveNoFold(u, v);
    } else if tu && tv {
      ShiftBitInjectiveBothFold(u, v);
    } else if tu {
      ShiftBitOneFolds(u, v);
    } else {
      ShiftBitOneFolds(v, u);
    }
  }

  lemma ShiftByteInjective(u: bv16, v: bv16)
    requires u != v
    ensures ShiftByte(u) != ShiftByte(v)
  {
    var u1, v1 := ShiftBit(u), ShiftBit(v);
    ShiftBitInjective(u, v);
    var u2, v2 := ShiftBit(u1), ShiftBit(v1);
    ShiftBitInjective(u1, v1);
    var u3, v3 := ShiftBit(u2), ShiftBit(v2);
    ShiftBitInjective(u2, v2);
    var u4, v4 := ShiftBit(u3), ShiftBit(v3);
    ShiftBitInjective(u3, v3);
    var u5, v5 := ShiftBit(u4), ShiftBit(v4);
    ShiftBitInjective(u4, v4);
    var u6, v6 := ShiftBit(u5), ShiftBit(v5);
    ShiftBitInjective(u5, v5);
    var u7, v7 := ShiftBit(u6), ShiftBit(v6);
    ShiftBitInjective(u6, v6);
    ShiftBitInjective(u7, v7);
  }

  lemma XorInjective(u: bv16, v: bv16, m: bv16)
    requires u != v
    ensures u ^ m != v ^ m && m ^ u != m ^ v
  {
  }

  lemma ShiftAfterXorInjective(r1: bv16, r2: bv16, m: bv16)
    requires r1 != r2
    ensures ShiftByte(r1 ^ m) != ShiftByte(r2 ^ m)
  {
    XorInjective(r1, r2, m);
    ShiftByteInjective(r1 ^ m, r2 ^ m);
  }

  /** Different registers fed the same octet stay different. */
  lemma FeedInjectiveInRegister(r1: bv16, r2: bv16, b: bv8)
    requires r1 != r2
    ensures FeedOctet(r1, b) != FeedOctet(r2, b)
  {
    ShiftAfterXorInjective(r1, r2, Mix(b));
  }

  lemma MixInjective(x: bv8, y: bv8)
    requires x != y
    ensures Mix(x) != Mix(y)
  {
  }

  /** The same register fed different octets becomes different registers. */
  lemma FeedInjectiveInOctet(r: bv16, x: bv8, y: bv8)
    requires x != y
    ensures FeedOctet(r, x) != FeedOctet(r, y)
  {
    MixInjective(x, y);
    XorInjective(Mix(x), Mix(y), r);
    ShiftByteInjective(r ^ Mix(x), r ^ Mix(y));
  }

  /** Different registers fed the same octets stay different. */
  lemma {:induction false} FoldInjective(r1: bv16, r2: bv16, s: seq<bv8>)
    requires r1 != r2
    ensures Fold(r1, s) != Fold(r2, s)
    decreases |s|
  {
    if |s| > 0 {
      FeedInjectiveInRegister(r1, r2, s[0]);
      FoldInjective(FeedOctet(r1, s[0]), FeedOctet(r2, s[0]), s[1..]);
    }
  }

  /** A zero octet leaves a zero register at zero. */
  lemma FeedZeroIntoZero()
    ensures FeedOctet(0, 0) == 0
  {
  }

  /** A string of n zero octets. */
  function Zeros(n: nat): (z: seq<bv8>)
    ensures |z| == n && forall k :: 0 <= k < n ==> z[k] == 0
  {
    seq(n, _ => 0)
  }

  /** Zero octets keep a zero register at zero. */
  lemma {:induction false} FoldZerosOfZero(n: nat)
    ensures Fold(0, Zeros(n)) == 0
    decreases n
  {
    if n > 0 {
      assert Zeros(n)[1..] == Zeros(n - 1);
      assert Zeros(n)[0] == 0;
      FeedZeroIntoZero();
      FoldZerosOfZero(n - 1);
    }
  }

  /** Zero octets turn a register into zero exactly when it is zero already. */
  lemma FoldZeros(r: bv16, n: nat)
    ensures Fold(r, Zeros(n)) == 0 <==> r == 0
  {
    FoldZerosOfZero(n);
    if r != 0 {
      FoldInjective(r, 0, Zeros(n));
    }
  }

  /** Splits a fold at octet i. */
  lemma FoldAround(r: bv16, s: seq<bv8>, i: nat)
    requires i < |s|
    ensures Fold(r, s) == Fold(FeedOctet(Fold(r, s[..i]), s[i]), s[i + 1..])
  {
    assert s == s[..i] + s[i..];
    FoldAppend(r, s[..i], s[i..]);
    assert s[i..][1..] == s[i + 1..];
  }

  /** Changing any one octet changes the final register. */
  lemma OctetChangeDetected(r: bv16, s: seq<bv8>, i: nat, c: bv8)
    requires i < |s| && c != s[i]
    ensures Fold(r, s[i := c]) != Fold(r, s)
  {
    var s' := s[i := c];
    assert s'[..i] == s[..i] && s'[i + 1..] == s[i + 1..];
    FoldAround(r, s, i);
    FoldAround(r, s', i);
    var p := Fold(r, s[..i]);
    FeedInjectiveInOctet(p, c, s[i]);
    FoldInjective(FeedOctet(p, c), FeedOctet(p, s[i]), s[i + 1..]);
  }

}

