/** The values the oracle's flag calculators compute: calc_zf, calc_sf,
    calc_af and calc_pf, before they are written into a state. */
module Flags {
  import opened Bits

  /** calc_zf: 1 when the result is 0, else 0. */
  function ZfOf(val: int): (zf: int)
    ensures zf == 1 <==> val == 0
    ensures zf == 0 <==> val != 0
  {
    if val == 0 then 1 else 0
  }

  /** calc_sf: `1 if val & 0x80000000 != 0 else 0`. The flag is bit 31 of
      the value. */
  function SfOf(val: int): (sf: int)
    ensures sf == Bit(val, 31)
  {
    SignMaskTestsBit31(val);
    if And(val, 0x8000_0000) != 0 then 1 else 0
  }

  lemma SignMaskTestsBit31(x: int)
    ensures And(x, 0x8000_0000) != 0 <==> Bit(x, 31) == 1
  {
    Pow2Values();
    var a := And(x, 0x8000_0000);
    forall i: nat
      ensures Bit(a, i) == if i == 31 then Bit(x, 31) else 0
    {
      BitOfAnd(x, 0x8000_0000, i);
      BitOfRange(31, 32, i);
    }
    BitOfZero(31);
    if Bit(x, 31) == 0 {
      forall i: nat ensures Bit(a, i) == Bit(0, i) {
        BitOfZero(i);
      }
      BitsDetermine(a, 0);
    }
  }

  /** For a 32-bit value, SF is the sign of the value read as a signed
      32-bit integer. */
  lemma SfIsSign(val: int)
    requires 0 <= val < 0x1_0000_0000
    ensures SfOf(val) == 1 <==> val >= 0x8000_0000
    ensures SfOf(val) == 0 <==> val < 0x8000_0000
  {
    Pow2Values();
    TopBit(val, 31);
  }

  /** calc_af as written: `((val ^ op1 ^ op2) & 0x4) >> 3`. */
  function AfOf(val: int, op1: int, op2: int): int {
    Shr(And(Xor(Xor(val, op1), op2), 4), 3)
  }

  /** Masking with 0x4 leaves at most 4, and shifting that right by 3
      leaves nothing: calc_af stores 0 whatever its operands. */
  lemma AfAlwaysZero(val: int, op1: int, op2: int)
    ensures AfOf(val, op1, op2) == 0
  {
    var a := And(Xor(Xor(val, op1), op2), 4);
    AndBounds(Xor(Xor(val, op1), op2), 4);
    assert Shr(a, 3) == ((a / 2) / 2) / 2;
  }

  /** calc_af does not depend on the order of its three operands: the two
      transpositions below generate every permutation. */
  lemma AfSymmetric(val: int, op1: int, op2: int)
    ensures AfOf(val, op1, op2) == AfOf(op1, val, op2)
    ensures AfOf(val, op1, op2) == AfOf(val, op2, op1)
  {
    XorCommutes(val, op1);
    XorAssociates(val, op1, op2);
    XorAssociates(val, op2, op1);
    XorCommutes(op1, op2);
  }

  /** The x86 parity flag: 1 when the low 8 bits of the value hold an even
      number of set bits. */
  function PfSpec(val: int): int {
    if CountBits(val, 8) % 2 == 0 then 1 else 0
  }

  lemma CountBits8(x: int)
    ensures CountBits(x, 8) == Bit(x, 0) + Bit(x, 1) + Bit(x, 2) + Bit(x, 3)
                             + Bit(x, 4) + Bit(x, 5) + Bit(x, 6) + Bit(x, 7)
  {
    assert CountBits(x, 1) == Bit(x, 0);
    assert CountBits(x, 2) == CountBits(x, 1) + Bit(x, 1);
    assert CountBits(x, 3) == CountBits(x, 2) + Bit(x, 2);
    assert CountBits(x, 4) == CountBits(x, 3) + Bit(x, 3);
    assert CountBits(x, 5) == CountBits(x, 4) + Bit(x, 4);
    assert CountBits(x, 6) == CountBits(x, 5) + Bit(x, 5);
    assert CountBits(x, 7) == CountBits(x, 6) + Bit(x, 6);
  }

  /** calc_pf: mask to the low byte, fold the byte onto bit 0 with three
      xor-shifts, and store 0 if the folded bit is set, 1 otherwise. */
  method ParityFlag(val0: int) returns (pf: int)
    ensures pf == PfSpec(val0)
  {
    var val := And(val0, 0xff);
    var par := Xor(val, Shr(val, 1));
    ghost var p1 := par;
    par := Xor(par, Shr(par, 2));
    ghost var p2 := par;
    par := Xor(par, Shr(par, 4));
    ghost var p3 := par;
    par := And(par, 1);
    pf := if par != 0 then 0 else 1;

    LowByteKept(val0);
    FoldedParity(val, p1, p2, p3);
    AndOne(p3);
    CountBits8(val0);
    CountBits8(val);
  }

  /** Masking with 0xff keeps bits 0 .. 7. */
  lemma LowByteKept(x: int)
    ensures CountBits(And(x, 0xff), 8) == CountBits(x, 8)
  {
    Pow2Values();
    var v := And(x, 0xff);
    forall j: nat | j < 8
      ensures Bit(v, j) == Bit(x, j)
    {
      BitOfAnd(x, 0xff, j);
      BitOfRange(0, 8, j);
    }
    CountBitsAgree(v, x, 8);
  }

  /** Bit j of `x ^ (x >> k)` is the xor of bits j and j + k of x. */
  lemma XorShiftBit(x: int, k: nat, j: nat)
    ensures Bit(Xor(x, Shr(x, k)), j) == if Bit(x, j) != Bit(x, j + k) then 1 else 0
  {
    BitOfXor(x, Shr(x, k), j);
    BitOfShr(x, k, j);
  }

  /** The three xor-shifts of calc_pf leave in bit 0 the parity of bits 0 .. 7. */
  lemma FoldedParity(v: int, p1: int, p2: int, p3: int)
    requires p1 == Xor(v, Shr(v, 1))
    requires p2 == Xor(p1, Shr(p1, 2))
    requires p3 == Xor(p2, Shr(p2, 4))
    ensures Bit(p3, 0) == CountBits(v, 8) % 2
  {
    FoldByOne(v, p1);
    FoldByTwo(p1, p2);
    XorShiftBit(p2, 4, 0);
    ParityOfFolds(v, p1, p2, p3);
  }

  /** Bit 0 after the three folds, given what each fold leaves in the bits
      the next one reads, is the parity of bits 0 .. 7. */
  lemma ParityOfFolds(v: int, p1: int, p2: int, p3: int)
    requires Bit(p1, 0) == (if Bit(v, 0) != Bit(v, 1) then 1 else 0)
    requires Bit(p1, 2) == (if Bit(v, 2) != Bit(v, 3) then 1 else 0)
    requires Bit(p1, 4) == (if Bit(v, 4) != Bit(v, 5) then 1 else 0)
    requires Bit(p1, 6) == (if Bit(v, 6) != Bit(v, 7) then 1 else 0)
    requires Bit(p2, 0) == (if Bit(p1, 0) != Bit(p1, 2) then 1 else 0)
    requires Bit(p2, 4) == (if Bit(p1, 4) != Bit(p1, 6) then 1 else 0)
    requires Bit(p3, 0) == (if Bit(p2, 0) != Bit(p2, 4) then 1 else 0)
    ensures Bit(p3, 0) == CountBits(v, 8) % 2
  {
    CountBits8(v);
    FoldEight(Bit(v, 0), Bit(v, 1), Bit(v, 2), Bit(v, 3), Bit(v, 4), Bit(v, 5), Bit(v, 6), Bit(v, 7),
              Bit(p1, 0), Bit(p1, 2), Bit(p1, 4), Bit(p1, 6), Bit(p2, 0), Bit(p2, 4), Bit(p3, 0),
              CountBits(v, 8));
  }

  /** The first fold pairs bits 0-1, 2-3, 4-5 and 6-7. */
  lemma FoldByOne(v: int, p1: int)
    requires p1 == Xor(v, Shr(v, 1))
    ensures Bit(p1, 0) == (if Bit(v, 0) != Bit(v, 1) then 1 else 0)
    ensures Bit(p1, 2) == (if Bit(v, 2) != Bit(v, 3) then 1 else 0)
    ensures Bit(p1, 4) == (if Bit(v, 4) != Bit(v, 5) then 1 else 0)
    ensures Bit(p1, 6) == (if Bit(v, 6) != Bit(v, 7) then 1 else 0)
  {
    XorShiftBit(v, 1, 0);
    XorShiftBit(v, 1, 2);
    XorShiftBit(v, 1, 4);
    XorShiftBit(v, 1, 6);
  }

  /** The second fold pairs the results at bits 0-2 and 4-6. */
  lemma FoldByTwo(p1: int, p2: int)
    requires p2 == Xor(p1, Shr(p1, 2))
    ensures Bit(p2, 0) == (if Bit(p1, 0) != Bit(p1, 2) then 1 else 0)
    ensures Bit(p2, 4) == (if Bit(p1, 4) != Bit(p1, 6) then 1 else 0)
  {
    XorShiftBit(p1, 2, 0);
    XorShiftBit(p1, 2, 4);
  }

  /** The xor tree of calc_pf over eight bits is their sum modulo 2. */
  lemma FoldEight(b0: int, b1: int, b2: int, b3: int, b4: int, b5: int, b6: int, b7: int,
                  q0: int, q2: int, q4: int, q6: int, r0: int, r4: int, t: int, sum: int)
    requires b0 in {0, 1} && b1 in {0, 1} && b2 in {0, 1} && b3 in {0, 1}
    requires b4 in {0, 1} && b5 in {0, 1} && b6 in {0, 1} && b7 in {0, 1}
    requires q0 == (if b0 != b1 then 1 else 0) && q2 == (if b2 != b3 then 1 else 0)
    requires q4 == (if b4 != b5 then 1 else 0) && q6 == (if b6 != b7 then 1 else 0)
    requires r0 == (if q0 != q2 then 1 else 0) && r4 == (if q4 != q6 then 1 else 0)
    requires t == (if r0 != r4 then 1 else 0)
    requires sum == b0 + b1 + b2 + b3 + b4 + b5 + b6 + b7
    ensures t == sum % 2
  {
  }

  /** Adding a multiple of 256 changes no bit of the low byte, so PF only
      depends on the low byte. */
  lemma PfIgnoresHighBits(val: int, k: int)
    ensures PfSpec(val + 256 * k) == PfSpec(val)
  {
    Pow2Values();
    forall i: nat | i < 8 ensures Bit(val + 256 * k, i) == Bit(val, i) {
      BitIgnoresHigh(val, 8, k, i);
    }
    CountBitsAgree(val + 256 * k, val, 8);
  }
}
