/** Which CRC this is: its value on the usual check input, its residue, and its register as a 32-bit word. */
module Crc32Check {
  import opened Bytes
  import opened Crc32Model

  // ---- The register as a machine word ---------------------------------------------------------

  function Low(v: bv32): bool { v & 1 == 1 }
  function Half(v: bv32): bv32 { v >> 1 }
  function Sum(u: bv32, v: bv32): bv32 { u ^ v }

  function Bit(v: bv32): nat {
    if Low(v) then 1 else 0
  }

  function Value(v: bv32): nat
    decreases v
  {
    if v == 0 then 0 else Bit(v) + 2 * Value(Half(v))
  }

  const WORD_POLY: bv32 := 0xEDB8_8320

  function WordStep(c: bv32): bv32 {
    if Low(c) then Sum(Half(c), WORD_POLY) else Half(c)
  }

  function WordShift(c: bv32, n: nat): bv32
    decreases n
  {
    if n == 0 then c else WordShift(WordStep(c), n - 1)
  }

  lemma ValueDigits(v: bv32)
    ensures Value(v) % 2 == Bit(v) && Value(v) / 2 == Value(Half(v))
  {
  }

  lemma SumHalves(u: bv32, v: bv32)
    ensures Half(Sum(u, v)) == Sum(Half(u), Half(v))
  {
  }

  lemma LowCases(u: bv32)
    ensures u & 1 == 0 || u & 1 == 1
  {
  }

  lemma SumLow(u: bv32, v: bv32)
    ensures Low(Sum(u, v)) == (Low(u) != Low(v))
  {
    assert (u ^ v) & 1 == (u & 1) ^ (v & 1);
    LowCases(u);
    LowCases(v);
  }

  lemma SumZero(v: bv32)
    ensures Sum(0, v) == v && Sum(v, 0) == v
  {
  }

  lemma HalfBelow(u: bv32)
    ensures u != 0 ==> Half(u) < u
  {
  }

  lemma ByDigits(a: nat, b: nat, c: nat)
    requires c % 2 == (a + b) % 2 && c / 2 == Xor(a / 2, b / 2)
    ensures Xor(a, b) == c
  {
    hide Xor;
    XorDigits(a, b);
    SameDigits(Xor(a, b), c);
  }

  lemma ParityOfBits(a: nat, b: nat, c: nat, x: bool, y: bool)
    requires a % 2 == (if x then 1 else 0) && b % 2 == (if y then 1 else 0) && c % 2 == (if x != y then 1 else 0)
    ensures c % 2 == (a + b) % 2
  {
  }

  lemma ValueZero()
    ensures Value(0) == 0
  {
  }

  lemma XorZero(a: nat)
    ensures Xor(0, a) == a && Xor(a, 0) == a
  {
  }

  lemma {:induction false} XorValue(u: bv32, v: bv32)
    ensures Xor(Value(u), Value(v)) == Value(Sum(u, v))
    decreases u
  {
    hide Xor, Value, Half, Sum, Low;
    SumHalves(u, v);
    SumLow(u, v);
    SumZero(u);
    SumZero(v);
    HalfBelow(u);
    ValueZero();
    XorZero(Value(u));
    XorZero(Value(v));
    if u != 0 && v != 0 {
      XorValue(Half(u), Half(v));
      ValueDigits(u);
      ValueDigits(v);
      ValueDigits(Sum(u, v));
      ParityOfBits(Value(u), Value(v), Value(Sum(u, v)), Low(u), Low(v));
      ByDigits(Value(u), Value(v), Value(Sum(u, v)));
    }
  }

  // ---- Constants ------------------------------------------------------------------------------

  /** A word by its last hexadecimal digit. */
  lemma LastDigit(v: bv32)
    ensures Value(v) == 16 * Value(v >> 4) + 8 * Bit(v >> 3) + 4 * Bit(v >> 2) + 2 * Bit(v >> 1) + Bit(v)
  {
    hide Value, Low;
    assert Half(v) == v >> 1 && Half(v >> 1) == v >> 2 && Half(v >> 2) == v >> 3 && Half(v >> 3) == v >> 4;
    hide Half;
    ValueDigits(v);
    ValueDigits(v >> 1);
    ValueDigits(v >> 2);
    ValueDigits(v >> 3);
  }

  lemma PolyValue()
    ensures Value(WORD_POLY) == POLY
  {
    LastDigit(0xE);
    LastDigit(0xED);
    LastDigit(0xEDB);
    LastDigit(0xEDB8);
    LastDigit(0xEDB88);
    LastDigit(0xEDB883);
    LastDigit(0xEDB8832);
    LastDigit(0xEDB88320);
  }

  lemma OnesValue()
    ensures Value(0xFFFF_FFFF) == ONES
  {
    LastDigit(0xF);
    LastDigit(0xFF);
    LastDigit(0xFFF);
    LastDigit(0xFFFF);
    LastDigit(0xFFFFF);
    LastDigit(0xFFFFFF);
    LastDigit(0xFFFFFFF);
    LastDigit(0xFFFFFFFF);
  }

  /** The register arithmetic is that of 32-bit words. */
  lemma StepValue(c: bv32)
    ensures Step(Value(c)) == Value(WordStep(c))
  {
    hide Value, Low, Half, Sum, Xor;
    ValueDigits(c);
    PolyValue();
    XorValue(Half(c), WORD_POLY);
  }

  lemma {:induction false} ShiftValue(c: bv32, n: nat)
    ensures Shift(Value(c), n) == Value(WordShift(c, n))
    decreases n
  {
    hide Value, WordStep, Step;
    if n > 0 {
      StepValue(c);
      ShiftValue(WordStep(c), n - 1);
    }
  }

  // ---- The residue ------------------------------------------------------------------------------

  /** Shifting out zero bits halves the register each time. */
  lemma {:induction false} ShiftZeros(q: nat, n: nat)
    ensures Shift(q * Pow2(n), n) == q
    decreases n
  {
    hide Xor;
    if n > 0 {
      assert q * Pow2(n) == 2 * (q * Pow2(n - 1));
      TwoDigits(0, q * Pow2(n - 1));
      ShiftZeros(q, n - 1);
    }
  }

  lemma HalfOfSum(low: nat, high: nat)
    ensures (low + 2 * high) / 2 == low / 2 + high && 2 * high / 2 == high
  {
  }

  lemma PowerHalves(q: nat, low: nat, n: nat)
    requires n > 0 && low < Pow2(n)
    ensures low / 2 < Pow2(n - 1) && q * Pow2(n) == 2 * (q * Pow2(n - 1))
  {
  }

  /** A number is the sum of its low digits and of the rest. */
  lemma {:induction false} XorShifted(q: nat, low: nat, n: nat)
    requires low < Pow2(n)
    ensures Xor(low, q * Pow2(n)) == low + q * Pow2(n)
    decreases n
  {
    if n == 0 {
      XorZero(q);
    } else {
      hide Xor;
      PowerHalves(q, low, n);
      XorShifted(q, low / 2, n - 1);
      hide Pow2;
      var high := q * Pow2(n - 1);
      HalfOfSum(low, high);
      ByDigits(low, 2 * high, low + 2 * high);
    }
  }

  lemma ByteFirst(c: nat, v: nat)
    ensures Shift(Xor(c, v), 8) == Xor(Shift(Xor(c, v % 256), 8), v / 256)
  {
    hide Xor, Shift;
    assert Pow2(8) == 256;
    XorShifted(v / 256, v % 256, 8);
    XorAssoc(c, v % 256, v / 256 * 256);
    ShiftLinear(Xor(c, v % 256), v / 256 * 256, 8);
    ShiftZeros(v / 256, 8);
  }

  /** Feeding a number byte by byte is adding it to the register and shifting. */
  lemma {:induction false} RawOfLE(c: nat, w: nat, v: nat)
    requires v < Pow256(w)
    ensures Raw(c, LE(w, v)) == Shift(Xor(c, v), 8 * w)
    decreases w
  {
    hide Xor, Shift;
    if w == 0 {
      XorZero(c);
      ShiftAtZero(c);
    } else {
      var d := Shift(Xor(c, v % 256), 8);
      assert LE(w, v) == [v % 256] + LE(w - 1, v / 256);
      assert Raw(c, LE(w, v)) == Raw(d, LE(w - 1, v / 256));
      RawOfLE(d, w - 1, v / 256);
      ByteFirst(c, v);
      ShiftAdd(Xor(c, v), 8, 8 * (w - 1));
    }
  }

  lemma ShiftAtZero(c: nat)
    ensures Shift(c, 0) == c
  {
  }

  const RESIDUE: nat := 0x2144_DF1C

  lemma OnesShifted()
    ensures Xor(Shift(ONES, 32), ONES) == RESIDUE
  {
    hide Xor, Shift, Value, WordShift, Sum;
    OnesValue();
    OnesWords();
    ShiftValue(0xFFFF_FFFF, 8);
    ShiftValue(0x2DFD_1072, 8);
    ShiftValue(0xBE26_ED00, 8);
    ShiftValue(0x00BE_26ED, 8);
    ShiftAdd(ONES, 8, 8);
    ShiftAdd(ONES, 16, 8);
    ShiftAdd(ONES, 24, 8);
    XorValue(0xDEBB_20E3, 0xFFFF_FFFF);
    ResidueValue();
  }

  /** A byte of zero bits, step by step. */
  lemma EightSteps(c: bv32)
    ensures WordShift(c, 8)
            == WordStep(WordStep(WordStep(WordStep(WordStep(WordStep(WordStep(WordStep(c))))))))
  {
    hide WordStep;
    assert WordShift(c, 8) == WordShift(WordStep(WordStep(c)), 6);
    assert WordShift(WordStep(WordStep(c)), 6) == WordShift(WordStep(WordStep(WordStep(WordStep(c)))), 4);
  }

  lemma OnesWords()
    ensures WordShift(0xFFFF_FFFF, 8) == 0x2DFD_1072
    ensures WordShift(0x2DFD_1072, 8) == 0xBE26_ED00
    ensures WordShift(0xBE26_ED00, 8) == 0x00BE_26ED
    ensures WordShift(0x00BE_26ED, 8) == 0xDEBB_20E3
    ensures Sum(0xDEBB_20E3, 0xFFFF_FFFF) == 0x2144_DF1C
  {
    EightSteps(0xFFFF_FFFF);
    EightSteps(0x2DFD_1072);
    EightSteps(0xBE26_ED00);
    EightSteps(0x00BE_26ED);
    hide WordShift;
  }

  lemma ResidueValue()
    ensures Value(0x2144_DF1C) == RESIDUE
  {
    LastDigit(0x2);
    LastDigit(0x21);
    LastDigit(0x214);
    LastDigit(0x2144);
    LastDigit(0x2144D);
    LastDigit(0x2144DF);
    LastDigit(0x2144DF1);
    LastDigit(0x2144DF1C);
  }

  lemma ComputeIs(data: seq<byte>)
    ensures Compute(data) == Xor(Raw(ONES, data), ONES)
  {
    XorZero(ONES);
  }

  /** The residue law of CRC-32: data followed by its own checksum has the same checksum, whatever the data. */
  lemma Residue(data: seq<byte>)
    ensures Compute(data + LE(4, Compute(data))) == RESIDUE
  {
    hide Xor, Shift, LE, Raw, Compute;
    var r, crc := Raw(ONES, data), Compute(data);
    ComputeIs(data);
    ComputeIs(data + LE(4, crc));
    ComputeBound(data);
    Pow256Values();
    RawAppend(ONES, data, LE(4, crc));
    RawOfLE(r, 4, crc);
    XorAssoc(r, r, ONES);
    XorSelf(r);
    XorZero(ONES);
    OnesShifted();
  }

  // ---- The check value ----------------------------------------------------------------------------

  lemma NextByte(c: bv32, d: bv32, c': bv32, byte: byte, rest: seq<byte>)
    requires byte == Value(d) && c' == WordShift(Sum(c, d), 8)
    ensures Raw(Value(c), [byte] + rest) == Raw(Value(c'), rest)
  {
    hide Xor, Shift, Value, WordShift, Sum;
    XorValue(c, d);
    ShiftValue(Sum(c, d), 8);
    assert ([byte] + rest)[1..] == rest;
  }

  lemma DigitValues()
    ensures Value(0x31) == 0x31 && Value(0x32) == 0x32 && Value(0x33) == 0x33
    ensures Value(0x34) == 0x34 && Value(0x35) == 0x35 && Value(0x36) == 0x36
    ensures Value(0x37) == 0x37 && Value(0x38) == 0x38 && Value(0x39) == 0x39
  {
    LastDigit(0x3);
    LastDigit(0x31);
    LastDigit(0x32);
    LastDigit(0x33);
    LastDigit(0x34);
    LastDigit(0x35);
    LastDigit(0x36);
    LastDigit(0x37);
    LastDigit(0x38);
    LastDigit(0x39);
  }

  lemma CheckWords()
    ensures WordShift(Sum(0xFFFF_FFFF, 0x31), 8) == 0x7C23_1048
    ensures WordShift(Sum(0x7C23_1048, 0x32), 8) == 0xB0AC_BB32
    ensures WordShift(Sum(0xB0AC_BB32, 0x33), 8) == 0x77B7_9C2D
    ensures WordShift(Sum(0x77B7_9C2D, 0x34), 8) == 0x641C_1F5C
    ensures WordShift(Sum(0x641C_1F5C, 0x35), 8) == 0x340A_C5E3
    ensures WordShift(Sum(0x340A_C5E3, 0x36), 8) == 0xF68D_2C9E
    ensures WordShift(Sum(0xF68D_2C9E, 0x37), 8) == 0xAFFC_9660
    ensures WordShift(Sum(0xAFFC_9660, 0x38), 8) == 0x651F_2550
    ensures WordShift(Sum(0x651F_2550, 0x39), 8) == 0x340B_C6D9
    ensures Sum(0x340B_C6D9, 0xFFFF_FFFF) == 0xCBF4_3926
  {
    EightSteps(Sum(0xFFFF_FFFF, 0x31));
    EightSteps(Sum(0x7C23_1048, 0x32));
    EightSteps(Sum(0xB0AC_BB32, 0x33));
    EightSteps(Sum(0x77B7_9C2D, 0x34));
    EightSteps(Sum(0x641C_1F5C, 0x35));
    EightSteps(Sum(0x340A_C5E3, 0x36));
    EightSteps(Sum(0xF68D_2C9E, 0x37));
    EightSteps(Sum(0xAFFC_9660, 0x38));
    EightSteps(Sum(0x651F_2550, 0x39));
    hide WordShift;
  }

  lemma CheckConstant()
    ensures Value(0xCBF4_3926) == 0xCBF4_3926
  {
    LastDigit(0xC);
    LastDigit(0xCB);
    LastDigit(0xCBF);
    LastDigit(0xCBF4);
    LastDigit(0xCBF43);
    LastDigit(0xCBF439);
    LastDigit(0xCBF4392);
    LastDigit(0xCBF43926);
  }

  /** The nine digits "123456789" have the checksum 0xCBF43926. */
  lemma CheckValue()
    ensures Compute([0x31, 0x32, 0x33, 0x34, 0x35, 0x36, 0x37, 0x38, 0x39]) == 0xCBF4_3926
  {
    hide Xor, Shift, Value, WordShift, Sum, Raw;
    var data := [0x31, 0x32, 0x33, 0x34, 0x35, 0x36, 0x37, 0x38, 0x39];
    DigitValues();
    CheckWords();
    NextByte(0xFFFF_FFFF, 0x31, 0x7C23_1048, 0x31, data[1..]);
    NextByte(0x7C23_1048, 0x32, 0xB0AC_BB32, 0x32, data[2..]);
    NextByte(0xB0AC_BB32, 0x33, 0x77B7_9C2D, 0x33, data[3..]);
    NextByte(0x77B7_9C2D, 0x34, 0x641C_1F5C, 0x34, data[4..]);
    NextByte(0x641C_1F5C, 0x35, 0x340A_C5E3, 0x35, data[5..]);
    NextByte(0x340A_C5E3, 0x36, 0xF68D_2C9E, 0x36, data[6..]);
    NextByte(0xF68D_2C9E, 0x37, 0xAFFC_9660, 0x37, data[7..]);
    NextByte(0xAFFC_9660, 0x38, 0x651F_2550, 0x38, data[8..]);
    NextByte(0x651F_2550, 0x39, 0x340B_C6D9, 0x39, data[9..]);
    RestOf(data);
    NothingLeft(Value(0x340B_C6D9));
    OnesValue();
    XorZero(ONES);
    XorValue(0x340B_C6D9, 0xFFFF_FFFF);
    CheckConstant();
  }

  lemma NothingLeft(c: nat)
    ensures Raw(c, []) == c
  {
  }

  lemma RestOf(data: seq<byte>)
    requires |data| == 9
    ensures data == [data[0]] + data[1..] && data[9..] == []
    ensures forall i :: 1 <= i < 9 ==> data[i..] == [data[i]] + data[i + 1..]
  {
  }
}
