/**
 * The exporter's table-free CRC-8: `crc8one` and `crc8` in lls/exporter.go.
 *
 * Each input byte is folded into the accumulator by XOR-ing one fixed constant
 * per set bit of `data ^ crc`. The eight constants are those of the
 * Dallas/Maxim 1-Wire CRC-8 (polynomial x^8 + x^5 + x^4 + 1, reflected,
 * initial value 0); `Crc8OneIsMaxim` proves the byte step equal to the usual
 * bit-serial shift-register formulation of that CRC.
 */
module Checksum {

  /** One `if` of `crc8one`: the constant `c` when `bit` is set in `i`, otherwise nothing. */
  function Contribution(i: bv8, bit: bv8, c: bv8): bv8
  {
    if i & bit != 0 then c else 0
  }

  /**
   * The body of `crc8one` after `i := data ^ crc`: starting from zero, each
   * set bit of `i`, lowest first, XORs one constant into the accumulator.
   */
  function Table(i: bv8): bv8
  {
    Contribution(i, 0x01, 0x5E) ^ Contribution(i, 0x02, 0xBC) ^ Contribution(i, 0x04, 0x61)
    ^ Contribution(i, 0x08, 0xC2) ^ Contribution(i, 0x10, 0x9D) ^ Contribution(i, 0x20, 0x23)
    ^ Contribution(i, 0x40, 0x46) ^ Contribution(i, 0x80, 0x8C)
  }

  /** One byte of the checksum: `crc8one(data, crc)`. */
  function Crc8One(data: bv8, crc: bv8): (r: bv8)
    // the step is zero exactly when the byte equals the running checksum
    ensures r == 0 <==> data == crc
  {
    TableZero(data ^ crc);
    XorZero(data, crc);
    Table(data ^ crc)
  }

  /** Only a zero input gives a zero table entry. */
  lemma TableZero(i: bv8)
    ensures Table(i) == 0 <==> i == 0
  {
  }

  /** Two bytes are equal exactly when their XOR is zero. */
  lemma XorZero(a: bv8, b: bv8)
    ensures a ^ b == 0 <==> a == b
  {
  }

  /** The checksum of a byte sequence: `crc8(data)`, a left fold of `Crc8One` starting from 0. */
  function Crc8(data: seq<bv8>): bv8
    decreases |data|
  {
    if |data| == 0 then 0 else Crc8One(data[|data| - 1], Crc8(data[..|data| - 1]))
  }

  /** The loop of `crc8` as written: one pass from the first byte to the last. */
  method ComputeCrc8(data: seq<bv8>) returns (crc: bv8)
    ensures crc == Crc8(data)
  {
    crc := 0;
    var k := 0;
    while k < |data|
      invariant 0 <= k <= |data|
      invariant crc == Crc8(data[..k])
    {
      assert data[..k + 1][..k] == data[..k];
      crc := Crc8One(data[k], crc);
      k := k + 1;
    }
    assert data[..|data|] == data;
  }

  // ---------------------------------------------------------------------------
  // The bit-serial Dallas/Maxim reference and linearity

  /** One shift of the Dallas/Maxim register: shift right, XOR 0x8C if the bit shifted out was set. */
  function MaximShift(c: bv8): bv8
  {
    if c & 1 != 0 then (c >> 1) ^ 0x8C else c >> 1
  }

  /** `n` shifts of the register. */
  function Shifts(c: bv8, n: nat): bv8
    decreases n
  {
    if n == 0 then c else Shifts(MaximShift(c), n - 1)
  }

  /** The bit-serial CRC-8 byte update: fold the byte into the register, then shift it eight times. */
  function MaximByte(crc: bv8, data: bv8): bv8
  {
    Shifts(crc ^ data, 8)
  }

  /** Eight register shifts compute the table. */
  lemma TableIsRegister(i: bv8)
    ensures Table(i) == Shifts(i, 8)
  {
    EightShifts(i);
  }

  /** The table entry of `i` is the register after eight explicit shifts from `i`. */
  lemma EightShifts(i: bv8)
    ensures Table(i) == MaximShift(MaximShift(MaximShift(MaximShift(MaximShift(MaximShift(MaximShift(MaximShift(i))))))))
  {
  }

  /** The eight constants reproduce one byte of the bit-serial Dallas/Maxim CRC-8. */
  lemma Crc8OneIsMaxim(data: bv8, crc: bv8)
    ensures Crc8One(data, crc) == MaximByte(crc, data)
  {
    TableIsRegister(data ^ crc);
    assert crc ^ data == data ^ crc;
  }

  /** One shift is XOR-linear. */
  lemma MaximShiftLinear(a: bv8, b: bv8)
    ensures MaximShift(a ^ b) == MaximShift(a) ^ MaximShift(b)
  {
  }

  /** Any number of shifts is XOR-linear: each shift distributes over XOR in turn. */
  lemma {:induction false} ShiftsLinear(x: bv8, y: bv8, n: nat)
    ensures Shifts(x ^ y, n) == Shifts(x, n) ^ Shifts(y, n)
    decreases n
  {
    if n > 0 {
      MaximShiftLinear(x, y);
      ShiftsLinear(MaximShift(x), MaximShift(y), n - 1);
    }
  }

  /** The table is XOR-linear. */
  lemma TableLinear(x: bv8, y: bv8)
    ensures Table(x ^ y) == Table(x) ^ Table(y)
  {
    TableIsRegister(x);
    TableIsRegister(y);
    TableIsRegister(x ^ y);
    ShiftsLinear(x, y, 8);
  }

  /** The table is a bijection on bytes. */
  lemma TableInjective(x: bv8, y: bv8)
    ensures Table(x) == Table(y) <==> x == y
  {
    TableLinear(x, y);
    TableZero(x ^ y);
    XorZero(x, y);
    XorZero(Table(x), Table(y));
  }

  /** `crc8one(d, c)` depends only on `d ^ c`; with `TableLinear`, it is a linear function of that XOR. */
  lemma Crc8OneDependsOnXor(d1: bv8, c1: bv8, d2: bv8, c2: bv8)
    requires d1 ^ c1 == d2 ^ c2
    ensures Crc8One(d1, c1) == Crc8One(d2, c2)
  {
  }

  /** Two steps agree exactly when their values of `data ^ crc` agree, so no two different inputs collide. */
  lemma Crc8OneInjective(d1: bv8, c1: bv8, d2: bv8, c2: bv8)
    ensures Crc8One(d1, c1) == Crc8One(d2, c2) <==> d1 ^ c1 == d2 ^ c2
  {
    TableInjective(d1 ^ c1, d2 ^ c2);
  }

  // ---------------------------------------------------------------------------
  // Properties of the checksum over sequences

  /** Appending a byte advances the checksum by one step. */
  lemma Crc8Append(data: seq<bv8>, b: bv8)
    ensures Crc8(data + [b]) == Crc8One(b, Crc8(data))
  {
    assert (data + [b])[..|data|] == data;
  }

  /** A message followed by its own checksum has checksum zero. */
  lemma Crc8SelfCheck(data: seq<bv8>)
    ensures Crc8(data + [Crc8(data)]) == 0
  {
    Crc8Append(data, Crc8(data));
  }

  /** A message followed by one more byte has checksum zero only when that byte is the message's checksum. */
  lemma Crc8CheckByte(data: seq<bv8>, b: bv8)
    ensures Crc8(data + [b]) == 0 <==> b == Crc8(data)
  {
    Crc8Append(data, b);
  }

  /** One step from equal states on different bytes, or from different states on the same byte, gives different states. */
  lemma Crc8OneDiffers(d1: bv8, c1: bv8, d2: bv8, c2: bv8)
    requires (c1 == c2) == (d1 != d2)
    ensures Crc8One(d1, c1) != Crc8One(d2, c2)
  {
    XorDiffers(d1, c1, d2, c2);
    Crc8OneInjective(d1, c1, d2, c2);
  }

  /** Equal states with different bytes, or different states with the same byte, differ after XOR. */
  lemma XorDiffers(d1: bv8, c1: bv8, d2: bv8, c2: bv8)
    requires (c1 == c2) == (d1 != d2)
    ensures d1 ^ c1 != d2 ^ c2
  {
    if c1 != c2 {
      assert d1 == d2;
    }
  }

  /** Equal checksums extended by different bytes, or different ones extended by the same byte, stay different. */
  lemma Crc8AppendDiffers(p: seq<bv8>, q: seq<bv8>, x: bv8, y: bv8)
    requires (Crc8(p) == Crc8(q)) == (x != y)
    ensures Crc8(p + [x]) != Crc8(q + [y])
  {
    Crc8Append(p, x);
    Crc8Append(q, y);
    Crc8OneDiffers(x, Crc8(p), y, Crc8(q));
  }

  /** Equal continuations keep two different checksums different. */
  lemma {:induction false} Crc8SuffixKeepsDifference(p: seq<bv8>, q: seq<bv8>, s: seq<bv8>)
    requires Crc8(p) != Crc8(q)
    ensures Crc8(p + s) != Crc8(q + s)
    decreases |s|
  {
    if |s| > 0 {
      var n := |s| - 1;
      Crc8SuffixKeepsDifference(p, q, s[..n]);
      assert p + s == (p + s[..n]) + [s[n]];
      assert q + s == (q + s[..n]) + [s[n]];
      Crc8AppendDiffers(p + s[..n], q + s[..n], s[n], s[n]);
    } else {
      assert p + s == p && q + s == q;
    }
  }

  /** Two equally long messages that differ in exactly one byte have different checksums. */
  lemma Crc8DetectsSingleByteError(a: seq<bv8>, b: seq<bv8>, k: nat)
    requires |a| == |b| && k < |a|
    requires a[k] != b[k]
    requires forall j :: 0 <= j < |a| && j != k ==> a[j] == b[j]
    ensures Crc8(a) != Crc8(b)
  {
    assert a[..k] == b[..k];
    assert a[k + 1..] == b[k + 1..];
    Crc8AppendDiffers(a[..k], b[..k], a[k], b[k]);
    assert a == (a[..k] + [a[k]]) + a[k + 1..];
    assert b == (b[..k] + [b[k]]) + a[k + 1..];
    Crc8SuffixKeepsDifference(a[..k] + [a[k]], b[..k] + [b[k]], a[k + 1..]);
  }
}
