/**
 CRC-32 (reflected polynomial 0xEDB88320, section 8 of RFC 1952) and the stitching of
 block checksums. A register is a number below 2^32; its bits are the coefficients of a
 polynomial over GF(2), and `Xor` is their sum.
 */
module Crc32Model {
  import opened Bytes

  const POLY: nat := 0xEDB8_8320
  const ONES: nat := 0xFFFF_FFFF

  function Xor(a: nat, b: nat): nat {
    if a == 0 then b
    else if b == 0 then a
    else (a + b) % 2 + 2 * Xor(a / 2, b / 2)
  }

  /** The register halved, with the feedback `p` added when a bit falls out. */
  function Feedback(odd: bool, half: nat, p: nat): nat {
    if odd then Xor(half, p) else half
  }

  /** One bit of the division register. */
  function Step(c: nat): nat {
    Feedback(c % 2 == 1, c / 2, POLY)
  }

  /** The register after `n` zero bits. */
  function Shift(c: nat, n: nat): nat
    decreases n, c
  {
    if n == 0 then c else Shift(Step(c), n - 1)
  }

  /** The register after the bytes of `data`, without pre- and post-conditioning. */
  function Raw(c: nat, data: seq<byte>): nat
    decreases |data|
  {
    if data == [] then c else Raw(Shift(Xor(c, data[0]), 8), data[1..])
  }

  /** `crc32_z`: continue the checksum `crc` over `data`. */
  function Continue(crc: nat, data: seq<byte>): nat {
    Xor(Raw(Xor(crc, ONES), data), ONES)
  }

  function Compute(data: seq<byte>): nat {
    Continue(0, data)
  }

  /** `crc32_combine`: advance the first checksum over `len2` zero bytes, then add the second. */
  function Combine(crc1: nat, crc2: nat, len2: nat): nat {
    Xor(Shift(crc1, 8 * len2), crc2)
  }

  // ---- The group of registers ----------------------------------------------------

  lemma TwoDigits(low: nat, high: nat)
    requires low < 2
    ensures (low + 2 * high) % 2 == low && (low + 2 * high) / 2 == high
  {
  }

  lemma {:induction false} XorDigits(a: nat, b: nat)
    ensures Xor(a, b) % 2 == (a + b) % 2
    ensures Xor(a, b) / 2 == Xor(a / 2, b / 2)
  {
    if a != 0 && b != 0 {
      TwoDigits((a + b) % 2, Xor(a / 2, b / 2));
    }
  }

  lemma SumParity(a: nat, b: nat, c: nat, ab: nat, bc: nat)
    requires ab % 2 == (a + b) % 2 && bc % 2 == (b + c) % 2
    ensures (ab + c) % 2 == (a + bc) % 2
  {
  }

  lemma SameDigits(a: nat, b: nat)
    requires a % 2 == b % 2 && a / 2 == b / 2
    ensures a == b
  {
  }

  lemma {:induction false} XorAssoc(a: nat, b: nat, c: nat)
    ensures Xor(Xor(a, b), c) == Xor(a, Xor(b, c))
  {
    if a != 0 && b != 0 && c != 0 {
      var ab, bc := Xor(a, b), Xor(b, c);
      assert ab % 2 == (a + b) % 2 && ab / 2 == Xor(a / 2, b / 2);
      assert bc % 2 == (b + c) % 2 && bc / 2 == Xor(b / 2, c / 2);
      XorAssoc(a / 2, b / 2, c / 2);
      XorDigits(ab, c);
      XorDigits(a, bc);
      SumParity(a, b, c, ab, bc);
      SameDigits(Xor(ab, c), Xor(a, bc));
    }
  }

  lemma {:induction false} XorComm(a: nat, b: nat)
    ensures Xor(a, b) == Xor(b, a)
  {
    if a != 0 && b != 0 {
      XorComm(a / 2, b / 2);
    }
  }

  lemma {:induction false} XorSelf(a: nat)
    ensures Xor(a, a) == 0
  {
    if a != 0 {
      XorSelf(a / 2);
    }
  }

  lemma XorCancel(a: nat, b: nat)
    ensures Xor(Xor(a, b), b) == a
  {
    XorAssoc(a, b, b);
    XorSelf(b);
  }

  lemma XorDouble(a: nat, b: nat)
    ensures Xor(2 * a, 2 * b) == 2 * Xor(a, b)
  {
    hide Xor;
    XorDigits(2 * a, 2 * b);
    SumParity(2 * a, 2 * b, 0, 0, 0);
    SameDigits(Xor(2 * a, 2 * b), 2 * Xor(a, b));
  }

  function Pow2(n: nat): (p: nat)
    ensures p > 0
  {
    if n == 0 then 1 else 2 * Pow2(n - 1)
  }

  lemma {:induction false} XorBound(a: nat, b: nat, n: nat)
    requires a < Pow2(n) && b < Pow2(n)
    ensures Xor(a, b) < Pow2(n)
    decreases n
  {
    if n != 0 {
      XorBound(a / 2, b / 2, n - 1);
    }
  }

  lemma Pow2Of32()
    ensures Pow2(32) == U32_LIMIT
  {
    assert Pow2(8) == 256;
    assert Pow2(16) == 0x1_0000;
    assert Pow2(24) == 0x100_0000;
  }

  // ---- Linearity ------------------------------------------------------------------

  lemma TwoFeedbacks(x: nat, y: nat, p: nat)
    ensures Xor(Xor(x, p), Xor(y, p)) == Xor(x, y)
  {
    XorComm(y, p);
    XorAssoc(Xor(x, p), p, y);
    XorCancel(x, p);
  }

  lemma OneFeedback(x: nat, y: nat, p: nat)
    ensures Xor(Xor(x, p), y) == Xor(Xor(x, y), p)
  {
    XorAssoc(x, p, y);
    XorComm(p, y);
    XorAssoc(x, y, p);
  }

  lemma FeedbackLinear(o1: bool, x: nat, o2: bool, y: nat, p: nat)
    ensures Feedback(o1 != o2, Xor(x, y), p) == Xor(Feedback(o1, x, p), Feedback(o2, y, p))
  {
    if o1 && o2 {
      TwoFeedbacks(x, y, p);
    } else if o1 {
      OneFeedback(x, y, p);
    } else if o2 {
      XorAssoc(x, y, p);
    }
  }

  lemma StepLinear(a: nat, b: nat)
    ensures Step(Xor(a, b)) == Xor(Step(a), Step(b))
  {
    hide Xor, Feedback;
    XorDigits(a, b);
    FeedbackLinear(a % 2 == 1, a / 2, b % 2 == 1, b / 2, POLY);
  }

  lemma {:induction false} ShiftLinear(a: nat, b: nat, n: nat)
    ensures Shift(Xor(a, b), n) == Xor(Shift(a, n), Shift(b, n))
    decreases n
  {
    if n != 0 {
      StepLinear(a, b);
      ShiftLinear(Step(a), Step(b), n - 1);
    }
  }

  lemma {:induction false} ShiftZero(n: nat)
    ensures Shift(0, n) == 0
  {
    if n != 0 {
      ShiftZero(n - 1);
    }
  }

  lemma {:induction false} ShiftAdd(c: nat, m: nat, n: nat)
    ensures Shift(Shift(c, m), n) == Shift(c, m + n)
    decreases m
  {
    if m != 0 {
      ShiftAdd(Step(c), m - 1, n);
    }
  }

  lemma ByteLinear(a: nat, b: nat, d: nat)
    ensures Shift(Xor(Xor(a, b), d), 8) == Xor(Shift(a, 8), Shift(Xor(b, d), 8))
  {
    XorAssoc(a, b, d);
    ShiftLinear(a, Xor(b, d), 8);
  }

  /** The effect of a difference in the register is independent of the data. */
  lemma {:induction false} RawLinear(a: nat, b: nat, data: seq<byte>)
    ensures Raw(Xor(a, b), data) == Xor(Shift(a, 8 * |data|), Raw(b, data))
    decreases |data|
  {
    if data != [] {
      var d, rest := data[0], data[1..];
      ByteLinear(a, b, d);
      RawLinear(Shift(a, 8), Shift(Xor(b, d), 8), rest);
      assert Shift(Shift(a, 8), 8 * |rest|) == Shift(a, 8 * |data|) by {
        ShiftAdd(a, 8, 8 * |rest|);
        assert 8 + 8 * |rest| == 8 * |data|;
      }
    }
  }

  lemma {:induction false} RawAppend(c: nat, a: seq<byte>, b: seq<byte>)
    ensures Raw(c, a + b) == Raw(Raw(c, a), b)
    decreases |a|
  {
    if a == [] {
      assert a + b == b;
    } else {
      assert (a + b)[1..] == a[1..] + b;
      RawAppend(Shift(Xor(c, a[0]), 8), a[1..], b);
    }
  }

  /** Streaming: continuing over `b` the checksum of `a` gives the checksum of the whole. */
  lemma ContinueAppend(crc: nat, a: seq<byte>, b: seq<byte>)
    ensures Continue(Continue(crc, a), b) == Continue(crc, a + b)
  {
    RawAppend(Xor(crc, ONES), a, b);
    XorCancel(Raw(Xor(crc, ONES), a), ONES);
  }

  /** Stitching: combining two independent checksums gives the checksum of the concatenation. */
  lemma CombineIsConcatenation(a: seq<byte>, b: seq<byte>)
    ensures Combine(Compute(a), Compute(b), |b|) == Compute(a + b)
  {
    ContinueAppend(0, a, b);
    RawLinear(Compute(a), ONES, b);
    XorAssoc(Shift(Compute(a), 8 * |b|), Raw(ONES, b), ONES);
  }

  lemma ComputeEmpty()
    ensures Compute([]) == 0
  {
    XorSelf(ONES);
  }

  // ---- A checksum fits the 32-bit field it is stored in ---------------------------------

  lemma {:induction false} ShiftBound(c: nat, n: nat)
    requires c < U32_LIMIT
    ensures Shift(c, n) < U32_LIMIT
    decreases n
  {
    if n != 0 {
      Pow2Of32();
      XorBound(c / 2, POLY, 32);
      ShiftBound(Step(c), n - 1);
    }
  }

  lemma {:induction false} RawBound(c: nat, data: seq<byte>)
    requires c < U32_LIMIT
    ensures Raw(c, data) < U32_LIMIT
    decreases |data|
  {
    if data != [] {
      Pow2Of32();
      XorBound(c, data[0], 32);
      ShiftBound(Xor(c, data[0]), 8);
      RawBound(Shift(Xor(c, data[0]), 8), data[1..]);
    }
  }

  lemma ComputeBound(data: seq<byte>)
    ensures Compute(data) < U32_LIMIT
  {
    Pow2Of32();
    RawBound(ONES, data);
    XorBound(Raw(ONES, data), ONES, 32);
  }

  lemma CombineBound(crc1: nat, crc2: nat, len2: nat)
    requires crc1 < U32_LIMIT && crc2 < U32_LIMIT
    ensures Combine(crc1, crc2, len2) < U32_LIMIT
  {
    Pow2Of32();
    ShiftBound(crc1, 8 * len2);
    XorBound(Shift(crc1, 8 * len2), crc2, 32);
  }

  // ---- The logarithmic form of combine ------------------------------------------------

  /** The columns of the operator "advance by `n` zero bits". */
  ghost predicate Represents(mat: seq<nat>, n: nat) {
    |mat| == 32 && Columns(mat, n)
  }

  ghost predicate Columns(mat: seq<nat>, n: nat) {
    forall i :: 0 <= i < |mat| ==> mat[i] == Shift(Pow2(i), n)
  }

  lemma ColumnsSnoc(mat: seq<nat>, n: nat, column: nat)
    requires Columns(mat, n) && column == Shift(Pow2(|mat|), n)
    ensures Columns(mat + [column], n)
  {
  }

  /** The sum of the columns, from `i` on, selected by the bits of `v`. */
  function TimesFrom(mat: seq<nat>, v: nat, i: nat): nat
    requires |mat| == 32 && i <= 32
    decreases 32 - i, v
  {
    if i == 32 then 0
    else Xor(if v % 2 == 1 then mat[i] else 0, TimesFrom(mat, v / 2, i + 1))
  }

  lemma SplitLowBit(v: nat)
    ensures Xor(v % 2, 2 * (v / 2)) == v
  {
    if v >= 2 && v % 2 == 1 {
      assert Xor(0, v / 2) == v / 2;
    }
  }

  function Up(v: nat, i: nat): nat
    decreases i, v
  {
    if i == 0 then v else Up(2 * v, i - 1)
  }

  lemma {:induction false} UpLinear(a: nat, b: nat, i: nat)
    ensures Up(Xor(a, b), i) == Xor(Up(a, i), Up(b, i))
    decreases i
  {
    if i != 0 {
      XorDouble(a, b);
      UpLinear(2 * a, 2 * b, i - 1);
    }
  }

  lemma {:induction false} UpIsPower(v: nat, i: nat)
    ensures Up(v, i) == v * Pow2(i)
    decreases i
  {
    if i != 0 {
      UpIsPower(2 * v, i - 1);
    }
  }

  /** Multiplying by the columns applies the operator. */
  lemma {:induction false} TimesFromIsShift(mat: seq<nat>, n: nat, v: nat, i: nat)
    requires Represents(mat, n) && i <= 32 && v < Pow2(32 - i)
    ensures TimesFrom(mat, v, i) == Shift(Up(v, i), n)
    decreases 32 - i
  {
    if i == 32 {
      UpIsPower(0, 32);
      ShiftZero(n);
    } else {
      hide Xor, Shift, Up;
      TimesFromIsShift(mat, n, v / 2, i + 1);
      ShiftOfBits(v, i, n);
      SelectedColumn(mat, n, v % 2, i);
    }
  }

  lemma ShiftOfBits(v: nat, i: nat, n: nat)
    ensures Shift(Up(v, i), n) == Xor(Shift(Up(v % 2, i), n), Shift(Up(v / 2, i + 1), n))
  {
    var low, high := v % 2, 2 * (v / 2);
    SplitLowBit(v);
    UpLinear(low, high, i);
    ShiftLinear(Up(low, i), Up(high, i), n);
  }

  lemma SelectedColumn(mat: seq<nat>, n: nat, bit: nat, i: nat)
    requires Represents(mat, n) && i < 32 && bit < 2
    ensures Shift(Up(bit, i), n) == if bit == 1 then mat[i] else 0
  {
    UpIsPower(bit, i);
    ShiftZero(n);
  }

  lemma TimesIsShift(mat: seq<nat>, n: nat, v: nat)
    requires Represents(mat, n) && v < U32_LIMIT
    ensures TimesFrom(mat, v, 0) == Shift(v, n)
  {
    Pow2Of32();
    TimesFromIsShift(mat, n, v, 0);
  }

  method MatrixTimes(mat: seq<nat>, vec: nat) returns (sum: nat)
    requires |mat| == 32
    ensures sum == TimesFrom(mat, vec, 0)
  {
    sum := 0;
    var v := vec;
    for i := 0 to 32
      invariant Xor(sum, TimesFrom(mat, v, i)) == TimesFrom(mat, vec, 0)
    {
      if v % 2 == 1 {
        XorAssoc(sum, mat[i], TimesFrom(mat, v / 2, i + 1));
        sum := Xor(sum, mat[i]);
      }
      v := v / 2;
    }
  }

  lemma SquareColumn(mat: seq<nat>, n: nat, i: nat)
    requires Represents(mat, n) && i < 32
    ensures TimesFrom(mat, mat[i], 0) == Shift(Pow2(i), 2 * n)
  {
    assert mat[i] == Shift(Pow2(i), n);
    assert mat[i] < U32_LIMIT by {
      Pow2Of32();
      Pow2Below(i, 32);
      ShiftBound(Pow2(i), n);
    }
    TimesIsShift(mat, n, mat[i]);
    ShiftAdd(Pow2(i), n, n);
  }

  method MatrixSquare(mat: seq<nat>, ghost n: nat) returns (square: seq<nat>)
    requires Represents(mat, n)
    ensures Represents(square, 2 * n)
  {
    square := [];
    for i := 0 to 32
      invariant |square| == i && Columns(square, 2 * n)
    {
      var column := MatrixTimes(mat, mat[i]);
      SquareColumn(mat, n, i);
      ColumnsSnoc(square, 2 * n, column);
      square := square + [column];
    }
  }

  lemma {:induction false} Pow2Below(i: nat, j: nat)
    requires i < j
    ensures Pow2(i) < Pow2(j)
  {
    if i + 1 < j {
      Pow2Below(i, j - 1);
    }
  }

  method OneByteOperator() returns (op: seq<nat>)
    ensures Represents(op, 8)
  {
    op := [];
    var unit := 1;
    for i := 0 to 32
      invariant |op| == i && unit == Pow2(i) && Columns(op, 1)
    {
      assert Shift(unit, 1) == Step(unit);
      ColumnsSnoc(op, 1, Step(unit));
      op := op + [Step(unit)];
      unit := 2 * unit;
    }
    op := MatrixSquare(op, 1);
    op := MatrixSquare(op, 2);
    op := MatrixSquare(op, 4);
  }

  /** One round of the loop below: the work left on an odd count, then the halving. */
  lemma SquaringRound(op: seq<nat>, bits: nat, n: nat, crc: nat, crc': nat)
    requires Represents(op, bits) && n > 0 && crc < U32_LIMIT
    requires crc' == if n % 2 == 1 then TimesFrom(op, crc, 0) else crc
    ensures crc' < U32_LIMIT && Shift(crc', 2 * bits * (n / 2)) == Shift(crc, bits * n)
  {
    assert bits * (n - n % 2) == 2 * bits * (n / 2);
    if n % 2 == 1 {
      assert bits + bits * (n - 1) == bits * n;
      TimesIsShift(op, bits, crc);
      ShiftBound(crc, bits);
      ShiftAdd(crc, bits, bits * (n - 1));
    }
  }

  /** Square-and-multiply: a logarithmic number of matrix products gives `Combine`. */
  method CombineBySquaring(crc1: nat, crc2: nat, len2: nat) returns (crc: nat)
    requires crc1 < U32_LIMIT
    ensures crc == Combine(crc1, crc2, len2)
  {
    var op := OneByteOperator();
    var n := len2;
    crc := crc1;
    ghost var bits := 8;
    while n > 0
      invariant Represents(op, bits) && crc < U32_LIMIT
      invariant Shift(crc, bits * n) == Shift(crc1, 8 * len2)
    {
      ghost var before := crc;
      if n % 2 == 1 {
        crc := MatrixTimes(op, crc);
      }
      SquaringRound(op, bits, n, before, crc);
      op := MatrixSquare(op, bits);
      bits := 2 * bits;
      n := n / 2;
    }
    crc := Xor(crc, crc2);
  }

  // ---- The streaming object ----------------------------------------------------------------

  class Crc32 {
    var value: nat

    constructor ()
      ensures value == 0
    {
      value := 0;
    }

    method Update(data: seq<byte>)
      modifies this
      ensures value == Continue(old(value), data)
    {
      if data == [] {
        XorCancel(value, ONES);
        return;
      }
      value := Continue(value, data);
    }
  }
}
