/** Little-endian fields and positions inside a byte buffer. */
module Bytes {

  type byte = x: int | 0 <= x < 256

  const U16_MAX: nat := 0xFFFF
  const U32_MAX: nat := 0xFFFF_FFFF
  const U16_LIMIT: nat := 0x1_0000
  const U32_LIMIT: nat := 0x1_0000_0000
  const U64_LIMIT: nat := 0x1_0000_0000_0000_0000

  type u16 = x: int | 0 <= x < 0x1_0000
  type u32 = x: int | 0 <= x < 0x1_0000_0000
  type u64 = x: int | 0 <= x < 0x1_0000_0000_0000_0000

  function Pow256(w: nat): (p: nat)
    ensures p > 0
  {
    if w == 0 then 1 else 256 * Pow256(w - 1)
  }

  lemma Pow256Values()
    ensures Pow256(2) == U16_LIMIT && Pow256(4) == U32_LIMIT && Pow256(8) == U64_LIMIT
  {
    assert Pow256(1) == 256;
    assert Pow256(3) == 256 * Pow256(2);
    assert Pow256(5) == 256 * Pow256(4);
    assert Pow256(7) == 256 * Pow256(6);
  }

  /** The low `w` bytes of `v`, least significant first. */
  function LE(w: nat, v: nat): (s: seq<byte>)
    ensures |s| == w
    decreases w, v
  {
    if w == 0 then [] else [v % 256] + LE(w - 1, v / 256)
  }

  function FromLE(s: seq<byte>): nat {
    if s == [] then 0 else s[0] + 256 * FromLE(s[1..])
  }

  lemma {:induction false} FromLEBound(s: seq<byte>)
    ensures FromLE(s) < Pow256(|s|)
  {
    if s != [] {
      FromLEBound(s[1..]);
    }
  }

  /** Reading back what was written, for every value that fits the width. */
  lemma {:induction false} LERoundTrip(w: nat, v: nat)
    requires v < Pow256(w)
    ensures FromLE(LE(w, v)) == v
  {
    if w != 0 {
      assert v / 256 < Pow256(w - 1);
      LERoundTrip(w - 1, v / 256);
      assert LE(w, v)[1..] == LE(w - 1, v / 256);
    }
  }

  lemma DivDiv(v: nat, p: nat)
    requires p > 0
    ensures v / 256 / p == v / (256 * p)
  {
    var q := v / 256 / p;
    var r := v / 256 % p;
    var b := v % 256;
    assert v == 256 * (q * p + r) + b;
    assert 256 * (q * p + r) + b == q * (256 * p) + (256 * r + b);
    assert 0 <= 256 * r + b < 256 * p;
    DivUnique(v, 256 * p, q, 256 * r + b);
  }

  lemma DivUnique(v: nat, d: nat, q: nat, r: nat)
    requires d > 0 && r < d && v == q * d + r
    ensures v / d == q
  {
    var q', r' := v / d, v % d;
    assert (q - q') * d == r' - r;
    if q < q' {
      MulAtLeast(q' - q, d);
    } else if q' < q {
      MulAtLeast(q - q', d);
    }
  }

  lemma MulAtLeast(a: nat, d: nat)
    requires a > 0
    ensures a * d >= d
  {
    assert a * d == (a - 1) * d + d;
  }

  /** Byte `i` of the encoding is the value shifted right by `8 * i` bits. */
  lemma {:induction false} LESnoc(w: nat, v: nat)
    ensures LE(w + 1, v) == LE(w, v) + [v / Pow256(w) % 256]
  {
    if w != 0 {
      LESnoc(w - 1, v / 256);
      DivDiv(v, Pow256(w - 1));
    }
  }

  /** `piece` occurs in `buf` at offset `pos`. */
  ghost predicate At(buf: seq<byte>, pos: nat, piece: seq<byte>) {
    pos + |piece| <= |buf| && buf[pos..pos + |piece|] == piece
  }

  lemma AtSplit(buf: seq<byte>, pos: nat, a: seq<byte>, b: seq<byte>)
    requires At(buf, pos, a + b)
    ensures At(buf, pos, a) && At(buf, pos + |a|, b)
  {
    assert (a + b)[..|a|] == a && (a + b)[|a|..] == b;
    assert buf[pos..pos + |a|] == buf[pos..pos + |a + b|][..|a|];
    assert buf[pos + |a|..pos + |a| + |b|] == buf[pos..pos + |a + b|][|a|..];
  }

  lemma AtSub(buf: seq<byte>, pos: nat, piece: seq<byte>, i: nat, part: seq<byte>)
    requires At(buf, pos, piece) && At(piece, i, part)
    ensures At(buf, pos + i, part)
  {
    var window := buf[pos..pos + |piece|];
    assert window[i..i + |part|] == part;
    assert |window| == |piece| && i + |part| <= |window|;
    forall k | 0 <= k < |part| ensures buf[pos + i + k] == part[k] {
      assert window[i + k] == buf[pos + i + k];
      assert window[i..i + |part|][k] == part[k];
    }
  }

  // ---- Records of fixed-width fields ---------------------------------------

  function Width(ws: seq<nat>, k: nat): nat
    requires k <= |ws|
  {
    if k == 0 then 0 else Width(ws, k - 1) + ws[k - 1]
  }

  /** The first `k` fields of a record laid end to end. */
  function Encode(ws: seq<nat>, vs: seq<nat>, k: nat): (s: seq<byte>)
    requires k <= |ws| == |vs|
    ensures |s| == Width(ws, k)
  {
    if k == 0 then [] else Encode(ws, vs, k - 1) + LE(ws[k - 1], vs[k - 1])
  }

  function Record(ws: seq<nat>, vs: seq<nat>): (s: seq<byte>)
    requires |ws| == |vs|
    ensures |s| == Width(ws, |ws|)
  {
    Encode(ws, vs, |ws|)
  }

  lemma {:induction false} WidthMonotone(ws: seq<nat>, j: nat, k: nat)
    requires j <= k <= |ws|
    ensures Width(ws, j) <= Width(ws, k)
  {
    if j < k {
      WidthMonotone(ws, j, k - 1);
    }
  }

  /** Field `k` of the record that starts at `pos`. */
  function FieldAt(buf: seq<byte>, pos: nat, ws: seq<nat>, k: nat): nat
    requires k < |ws| && pos + Width(ws, |ws|) <= |buf|
  {
    WidthMonotone(ws, k + 1, |ws|);
    FromLE(buf[pos + Width(ws, k)..pos + Width(ws, k + 1)])
  }

  function ReadRecord(buf: seq<byte>, pos: nat, ws: seq<nat>): (vs: seq<nat>)
    requires pos + Width(ws, |ws|) <= |buf|
    ensures |vs| == |ws|
    ensures forall k :: 0 <= k < |ws| ==> vs[k] < Pow256(ws[k])
  {
    var vs := seq(|ws|, k requires 0 <= k < |ws| => FieldAt(buf, pos, ws, k));
    assert forall k :: 0 <= k < |ws| ==> vs[k] < Pow256(ws[k]) by {
      forall k | 0 <= k < |ws| ensures vs[k] < Pow256(ws[k]) {
        WidthMonotone(ws, k + 1, |ws|);
        FromLEBound(buf[pos + Width(ws, k)..pos + Width(ws, k + 1)]);
      }
    }
    vs
  }

  ghost predicate Fits(ws: seq<nat>, vs: seq<nat>) {
    |ws| == |vs| && forall k :: 0 <= k < |ws| ==> vs[k] < Pow256(ws[k])
  }

  lemma {:induction false} FieldInEncode(ws: seq<nat>, vs: seq<nat>, k: nat, n: nat)
    requires k < n <= |ws| == |vs|
    ensures Width(ws, k) + ws[k] == Width(ws, k + 1) <= Width(ws, n)
    ensures At(Encode(ws, vs, n), Width(ws, k), LE(ws[k], vs[k]))
  {
    if k < n - 1 {
      FieldInEncode(ws, vs, k, n - 1);
      var e := Encode(ws, vs, n - 1);
      assert At(Encode(ws, vs, n), 0, e);
      AtSub(Encode(ws, vs, n), 0, e, Width(ws, k), LE(ws[k], vs[k]));
    }
  }

  lemma FieldReadBack(buf: seq<byte>, pos: nat, ws: seq<nat>, vs: seq<nat>, k: nat)
    requires Fits(ws, vs) && k < |ws| && At(buf, pos, Record(ws, vs))
    ensures FieldAt(buf, pos, ws, k) == vs[k]
  {
    FieldInEncode(ws, vs, k, |ws|);
    AtSub(buf, pos, Record(ws, vs), Width(ws, k), LE(ws[k], vs[k]));
    LERoundTrip(ws[k], vs[k]);
  }

  /** A record whose values fit their widths is read back exactly, wherever it lies. */
  lemma ReadBack(buf: seq<byte>, pos: nat, ws: seq<nat>, vs: seq<nat>)
    requires Fits(ws, vs) && At(buf, pos, Record(ws, vs))
    ensures ReadRecord(buf, pos, ws) == vs
  {
    forall k | 0 <= k < |ws| ensures FieldAt(buf, pos, ws, k) == vs[k] {
      FieldReadBack(buf, pos, ws, vs, k);
    }
  }

  // ---- In-place little-endian stores -----------------------------------------

  lemma LETwo(v: nat)
    ensures LE(2, v) == [v % 256, v / 256 % 256]
  {
    assert LE(1, v / 256) == [v / 256 % 256] + LE(0, v / 256 / 256);
  }

  lemma LEFour(v: nat)
    ensures LE(4, v) == [v % 256, v / 256 % 256, v / 0x1_0000 % 256, v / 0x100_0000 % 256]
  {
    LETwo(v / 256 / 256);
    assert LE(3, v / 256) == [v / 256 % 256] + LE(2, v / 256 / 256);
  }

  method Put16(dst: array<byte>, off: nat, v: u16)
    requires off + 2 <= dst.Length
    modifies dst
    ensures dst[..off + 2] == old(dst[..off]) + LE(2, v)
    ensures dst[off + 2..] == old(dst[off + 2..])
  {
    dst[off] := v % 256;
    dst[off + 1] := v / 256 % 256;
    LETwo(v);
  }

  method Put32(dst: array<byte>, off: nat, v: u32)
    requires off + 4 <= dst.Length
    modifies dst
    ensures dst[..off + 4] == old(dst[..off]) + LE(4, v)
    ensures dst[off + 4..] == old(dst[off + 4..])
  {
    dst[off] := v % 256;
    dst[off + 1] := v / 256 % 256;
    dst[off + 2] := v / 0x1_0000 % 256;
    dst[off + 3] := v / 0x100_0000 % 256;
    LEFour(v);
  }

  method Put64(dst: array<byte>, off: nat, v: u64)
    requires off + 8 <= dst.Length
    modifies dst
    ensures dst[..off + 8] == old(dst[..off]) + LE(8, v)
    ensures dst[off + 8..] == old(dst[off + 8..])
  {
    for i := 0 to 8
      invariant dst[..off + i] == old(dst[..off]) + LE(i, v)
      invariant dst[off + 8..] == old(dst[off + 8..])
    {
      dst[off + i] := v / Pow256(i) % 256;
      LESnoc(i, v);
      assert dst[..off + i + 1] == dst[..off + i] + [v / Pow256(i) % 256];
    }
  }

  lemma RecordPrefix(ws: seq<nat>, vs: seq<nat>, k: nat)
    requires k < |ws| == |vs|
    ensures Width(ws, k + 1) == Width(ws, k) + ws[k] <= Width(ws, |ws|)
    ensures Record(ws, vs)[..Width(ws, k + 1)] == Record(ws, vs)[..Width(ws, k)] + LE(ws[k], vs[k])
  {
    FieldInEncode(ws, vs, k, |ws|);
    var rec, i, j := Record(ws, vs), Width(ws, k), Width(ws, k + 1);
    assert rec[..j] == rec[..i] + rec[i..j];
  }

  // The same stores, as field `k` of a record that is being filled from the left.

  method Field16(dst: array<byte>, off: nat, v: u16, ghost ws: seq<nat>, ghost vs: seq<nat>, ghost k: nat)
    requires k < |ws| == |vs| && ws[k] == 2 && vs[k] == v && dst.Length == Width(ws, |ws|)
    requires off == Width(ws, k) && off + 2 <= dst.Length
    requires dst[..off] == Record(ws, vs)[..off]
    modifies dst
    ensures Width(ws, k + 1) == off + 2 && dst[..off + 2] == Record(ws, vs)[..off + 2]
  {
    Put16(dst, off, v);
    RecordPrefix(ws, vs, k);
  }

  method Field32(dst: array<byte>, off: nat, v: u32, ghost ws: seq<nat>, ghost vs: seq<nat>, ghost k: nat)
    requires k < |ws| == |vs| && ws[k] == 4 && vs[k] == v && dst.Length == Width(ws, |ws|)
    requires off == Width(ws, k) && off + 4 <= dst.Length
    requires dst[..off] == Record(ws, vs)[..off]
    modifies dst
    ensures Width(ws, k + 1) == off + 4 && dst[..off + 4] == Record(ws, vs)[..off + 4]
  {
    Put32(dst, off, v);
    RecordPrefix(ws, vs, k);
  }

  method Field64(dst: array<byte>, off: nat, v: u64, ghost ws: seq<nat>, ghost vs: seq<nat>, ghost k: nat)
    requires k < |ws| == |vs| && ws[k] == 8 && vs[k] == v && dst.Length == Width(ws, |ws|)
    requires off == Width(ws, k) && off + 8 <= dst.Length
    requires dst[..off] == Record(ws, vs)[..off]
    modifies dst
    ensures Width(ws, k + 1) == off + 8 && dst[..off + 8] == Record(ws, vs)[..off + 8]
  {
    Put64(dst, off, v);
    RecordPrefix(ws, vs, k);
  }

  // ---- Interrupted appends ------------------------------------------------------

  /** `s` is `start` followed by some of `piece`. */
  ghost predicate Torn(start: seq<byte>, piece: seq<byte>, s: seq<byte>) {
    start <= s <= start + piece
  }

  lemma TornInside(start: seq<byte>, a: seq<byte>, b: seq<byte>, c: seq<byte>, s: seq<byte>)
    requires Torn(start + a, b, s)
    ensures Torn(start, a + b + c, s)
  {
    assert start + (a + b + c) == (start + a + b) + c;
  }
}
