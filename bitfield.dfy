/**
 * Bit-field groups: one unsigned storage word shared by named sub-fields, each a
 * run of bits given by an offset (bit 0 is the least significant bit of the word's
 * value) and a width. Reading a sub-field extracts its bits; writing it replaces
 * them and keeps every other bit of the word.
 */
module BitField {
  import opened Numeric
  import opened Errors

  /** One named sub-field: bits [offset, offset + width) of the storage word. */
  datatype SubField = SubField(name: string, offset: nat, width: nat)

  /** A storage word of `bits` bits and the sub-fields declared over it. */
  datatype GroupLayout = GroupLayout(bits: nat, fields: seq<SubField>)

  /** The value of bits [offset, offset + width) of w. */
  function Extract(w: nat, offset: nat, width: nat): nat
    decreases offset + width
  {
    if offset > 0 then Extract(w / 2, offset - 1, width)
    else if width == 0 then 0
    else w % 2 + 2 * Extract(w / 2, 0, width - 1)
  }

  /** w with bits [offset, offset + width) replaced by the low `width` bits of v. */
  function Insert(w: nat, offset: nat, width: nat, v: nat): nat
    decreases offset + width
  {
    if offset > 0 then w % 2 + 2 * Insert(w / 2, offset - 1, width, v)
    else if width == 0 then w
    else v % 2 + 2 * Insert(w / 2, 0, width - 1, v / 2)
  }

  /** Bit k of w. */
  function Bit(w: nat, k: nat): nat
  {
    Extract(w, k, 1)
  }

  predicate Disjoint(a: SubField, b: SubField)
  {
    a.offset + a.width <= b.offset || b.offset + b.width <= a.offset
  }

  /**
   * A group is well formed when its storage word is 8, 16, 32 or 64 bits, every
   * sub-field is at least one bit wide and lies inside the word, and no two
   * sub-fields share a bit.
   */
  predicate WellFormed(g: GroupLayout)
  {
    && g.bits in {8, 16, 32, 64}
    && (forall i :: 0 <= i < |g.fields| ==>
          1 <= g.fields[i].width && g.fields[i].offset + g.fields[i].width <= g.bits)
    && (forall i, j :: 0 <= i < j < |g.fields| ==> Disjoint(g.fields[i], g.fields[j]))
  }

  /**
   * The sub-fields from index i on are at least one bit wide, each ends at or
   * before the next one starts, and the last ends within the word.
   */
  predicate InOrderFrom(fs: seq<SubField>, i: nat, bits: nat)
    decreases |fs| - i
  {
    i >= |fs| ||
    (&& 1 <= fs[i].width
     && (if i + 1 < |fs| then fs[i].offset + fs[i].width <= fs[i + 1].offset
         else fs[i].offset + fs[i].width <= bits)
     && InOrderFrom(fs, i + 1, bits))
  }

  lemma {:induction false} InOrderAt(fs: seq<SubField>, bits: nat, from: nat, k: nat)
    requires InOrderFrom(fs, from, bits) && from <= k < |fs|
    ensures 1 <= fs[k].width
    ensures k + 1 < |fs| ==> fs[k].offset + fs[k].width <= fs[k + 1].offset
    ensures k + 1 == |fs| ==> fs[k].offset + fs[k].width <= bits
    decreases k - from
  {
    if from < k {
      InOrderAt(fs, bits, from + 1, k);
    }
  }

  lemma {:induction false} InOrderChain(fs: seq<SubField>, bits: nat, i: nat, j: nat)
    requires InOrderFrom(fs, 0, bits) && i < j <= |fs|
    ensures j < |fs| ==> fs[i].offset + fs[i].width <= fs[j].offset
    ensures fs[i].offset + fs[i].width <= bits
    decreases |fs| - i
  {
    InOrderAt(fs, bits, 0, i);
    if i + 1 < |fs| {
      InOrderAt(fs, bits, 0, i + 1);
      InOrderChain(fs, bits, i + 1, if j == i + 1 then |fs| else j);
    }
  }

  /** A group declared in ascending, non-overlapping order within its word is well formed. */
  lemma InOrderWellFormed(g: GroupLayout)
    requires g.bits in {8, 16, 32, 64} && InOrderFrom(g.fields, 0, g.bits)
    ensures WellFormed(g)
  {
    forall i | 0 <= i < |g.fields|
      ensures 1 <= g.fields[i].width && g.fields[i].offset + g.fields[i].width <= g.bits
    {
      InOrderAt(g.fields, g.bits, 0, i);
      InOrderChain(g.fields, g.bits, i, |g.fields|);
    }
    forall i, j | 0 <= i < j < |g.fields|
      ensures Disjoint(g.fields[i], g.fields[j])
    {
      InOrderChain(g.fields, g.bits, i, j);
    }
  }

  lemma {:induction false} ExtractBound(w: nat, offset: nat, width: nat)
    ensures Extract(w, offset, width) < Pow2(width)
    decreases offset + width
  {
    if offset > 0 {
      ExtractBound(w / 2, offset - 1, width);
    } else if width > 0 {
      ExtractBound(w / 2, 0, width - 1);
    }
  }

  /** A value below 2^width is its own low `width` bits. */
  lemma {:induction false} ExtractLowOfSmall(v: nat, width: nat)
    requires v < Pow2(width)
    ensures Extract(v, 0, width) == v
  {
    if width > 0 {
      ExtractLowOfSmall(v / 2, width - 1);
    }
  }

  /** Reading back a sub-field just written gives the low `width` bits of what was written. */
  lemma {:induction false} ExtractInsertSame(w: nat, offset: nat, width: nat, v: nat)
    ensures Extract(Insert(w, offset, width, v), offset, width) == Extract(v, 0, width)
    decreases offset + width
  {
    if offset > 0 {
      ExtractInsertSame(w / 2, offset - 1, width, v);
    } else if width > 0 {
      ExtractInsertSame(w / 2, 0, width - 1, v / 2);
    }
  }

  /** A run of no bits reads as zero. */
  lemma {:induction false} ExtractEmpty(w: nat, offset: nat)
    ensures Extract(w, offset, 0) == 0
  {
    if offset > 0 {
      ExtractEmpty(w / 2, offset - 1);
    }
  }

  /** Writing one run of bits leaves every run that does not overlap it unchanged. */
  lemma {:induction false} ExtractInsertOther(w: nat, o1: nat, n1: nat, v: nat, o2: nat, n2: nat)
    requires o1 + n1 <= o2 || o2 + n2 <= o1
    ensures Extract(Insert(w, o1, n1, v), o2, n2) == Extract(w, o2, n2)
    decreases o1 + n1 + o2 + n2
  {
    if o1 > 0 && o2 > 0 {
      ExtractInsertOther(w / 2, o1 - 1, n1, v, o2 - 1, n2);
    } else if o1 == 0 && n1 > 0 {
      if n2 > 0 {
        // the written run starts at bit 0, so the read run lies above it
        ExtractInsertOther(w / 2, 0, n1 - 1, v / 2, o2 - 1, n2);
      } else {
        ExtractEmpty(Insert(w, o1, n1, v), o2);
        ExtractEmpty(w, o2);
      }
    } else if o1 > 0 && o2 == 0 && n2 > 0 {
      ExtractInsertOther(w / 2, o1 - 1, n1, v, 0, n2 - 1);
    }
  }

  /** Writing inside a word of `bits` bits keeps the word within `bits` bits. */
  lemma {:induction false} InsertBound(w: nat, offset: nat, width: nat, v: nat, bits: nat)
    requires w < Pow2(bits) && offset + width <= bits
    ensures Insert(w, offset, width, v) < Pow2(bits)
    decreases offset + width
  {
    if offset > 0 {
      InsertBound(w / 2, offset - 1, width, v, bits - 1);
    } else if width > 0 {
      InsertBound(w / 2, 0, width - 1, v / 2, bits - 1);
    }
  }

  /** Writing a run of bits with the value it already holds changes nothing. */
  lemma {:induction false} InsertExtracted(w: nat, offset: nat, width: nat)
    ensures Insert(w, offset, width, Extract(w, offset, width)) == w
    decreases offset + width
  {
    if offset > 0 {
      InsertExtracted(w / 2, offset - 1, width);
    } else if width > 0 {
      InsertExtracted(w / 2, 0, width - 1);
      assert Extract(w, 0, width) / 2 == Extract(w / 2, 0, width - 1);
    }
  }

  lemma DivModUnique(x: nat, d: nat, q: nat, r: nat)
    requires d > 0 && r < d && x == q * d + r
    ensures x / d == q && x % d == r
  {
    var q', r' := x / d, x % d;
    assert x == q' * d + r';
    if q' > q {
      assert q' * d == q * d + (q' - q) * d;
      MulAtLeast(q' - q, d);
    } else if q' < q {
      assert q * d == q' * d + (q - q') * d;
      MulAtLeast(q - q', d);
    }
  }

  lemma MulAtLeast(a: nat, d: nat)
    requires a >= 1
    ensures a * d >= d
  {
    assert a * d == d + (a - 1) * d;
  }

  /** Halving, then dividing by p, is dividing by 2p; the remainders combine likewise. */
  lemma HalveThenDivide(w: nat, p: nat)
    requires p > 0
    ensures (w / 2) / p == w / (2 * p)
    ensures w % (2 * p) == w % 2 + 2 * ((w / 2) % p)
  {
    var q, r := (w / 2) / p, (w / 2) % p;
    assert w == q * (2 * p) + (2 * r + w % 2);
    DivModUnique(w, 2 * p, q, 2 * r + w % 2);
  }

  /**
   * The bitwise definition agrees with the shift-and-mask formula of a bit-field
   * accessor: shift right by the offset, keep the low `width` bits.
   */
  lemma {:induction false} ExtractIsShiftAndMask(w: nat, offset: nat, width: nat)
    ensures Extract(w, offset, width) == (w / Pow2(offset)) % Pow2(width)
    decreases offset + width
  {
    if offset > 0 {
      ExtractIsShiftAndMask(w / 2, offset - 1, width);
      HalveThenDivide(w, Pow2(offset - 1));
    } else if width > 0 {
      ExtractIsShiftAndMask(w / 2, 0, width - 1);
      HalveThenDivide(w, Pow2(width - 1));
    }
  }

  /** Reading sub-field f of storage word w. */
  function Get(w: nat, f: SubField): (v: nat)
    ensures v < Pow2(f.width)
  {
    ExtractBound(w, f.offset, f.width);
    Extract(w, f.offset, f.width)
  }

  /**
   * Writing v into sub-field f of storage word w: the write is refused with
   * RangeError when v does not fit the sub-field's width.
   */
  function Set(w: nat, f: SubField, v: nat): (r: Result<nat>)
    ensures r.Ok? <==> v < Pow2(f.width)
    ensures !r.Ok? ==> r.error == RangeError
  {
    if v < Pow2(f.width) then Ok(Insert(w, f.offset, f.width, v)) else Err(RangeError)
  }

  /**
   * In a well-formed group, writing an in-range value into sub-field i and reading
   * it back returns that value; every other sub-field reads as before; every bit
   * outside sub-field i is unchanged; and the word still fits its storage width.
   */
  lemma SetThenGet(g: GroupLayout, w: nat, i: nat, v: nat)
    requires WellFormed(g) && i < |g.fields| && w < Pow2(g.bits)
    requires v < Pow2(g.fields[i].width)
    ensures Set(w, g.fields[i], v).Ok?
    ensures Get(Set(w, g.fields[i], v).value, g.fields[i]) == v
    ensures forall j :: 0 <= j < |g.fields| && j != i ==>
              Get(Set(w, g.fields[i], v).value, g.fields[j]) == Get(w, g.fields[j])
    ensures forall k :: 0 <= k < g.bits && !(g.fields[i].offset <= k < g.fields[i].offset + g.fields[i].width) ==>
              Bit(Set(w, g.fields[i], v).value, k) == Bit(w, k)
    ensures Set(w, g.fields[i], v).value < Pow2(g.bits)
  {
    var f := g.fields[i];
    var w' := Insert(w, f.offset, f.width, v);
    ExtractInsertSame(w, f.offset, f.width, v);
    ExtractLowOfSmall(v, f.width);
    forall j | 0 <= j < |g.fields| && j != i
      ensures Get(w', g.fields[j]) == Get(w, g.fields[j])
    {
      assert Disjoint(g.fields[i], g.fields[j]) by {
        if i < j { assert Disjoint(g.fields[i], g.fields[j]); } else { assert Disjoint(g.fields[j], g.fields[i]); }
      }
      ExtractInsertOther(w, f.offset, f.width, v, g.fields[j].offset, g.fields[j].width);
    }
    forall k | 0 <= k < g.bits && !(f.offset <= k < f.offset + f.width)
      ensures Bit(w', k) == Bit(w, k)
    {
      ExtractInsertOther(w, f.offset, f.width, v, k, 1);
    }
    InsertBound(w, f.offset, f.width, v, g.bits);
  }

  /** A write of a value that does not fit is refused and the word is not changed. */
  lemma SetOutOfRange(w: nat, f: SubField, v: nat)
    requires v >= Pow2(f.width)
    ensures Set(w, f, v) == Err(RangeError)
  {
  }
}
