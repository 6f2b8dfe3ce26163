/**
 Codecs as self-delimiting encodings. The compressor is known only by its contract: one
 complete stream per block. Stored blocks (section 3.2.4 of RFC 1951) show the contract
 can be met.
 */
module Deflate {
  import opened Bytes
  import opened Common
  import opened AsyncReader

  type Compressor = seq<byte> -> seq<byte>

  /** Decodes one stream from the front: the data, and how many bytes the stream took. */
  type Inflater = seq<byte> -> Option<(seq<byte>, nat)>

  /** The decoder undoes the compressor and stops at the end of the stream, whatever follows. */
  ghost predicate SelfDelimiting(deflate: Compressor, inflate: Inflater) {
    forall x: seq<byte>, rest: seq<byte> ::
      |deflate(x)| > 0 && inflate(deflate(x) + rest) == Some((x, |deflate(x)|))
  }

  /** A decoder that restarts after each stream until the payload is exhausted. */
  function InflateAll(inflate: Inflater, payload: seq<byte>): Option<seq<byte>>
    decreases |payload|
  {
    if payload == [] then Some([])
    else
      match inflate(payload)
      case None => None
      case Some((x, n)) =>
        if n == 0 || n > |payload| then None
        else
          match InflateAll(inflate, payload[n..])
          case None => None
          case Some(rest) => Some(x + rest)
  }

  function Compressed(deflate: Compressor, parts: seq<seq<byte>>): (cs: seq<seq<byte>>)
    ensures |cs| == |parts| && forall i :: 0 <= i < |parts| ==> cs[i] == deflate(parts[i])
  {
    seq(|parts|, i requires 0 <= i < |parts| => deflate(parts[i]))
  }

  lemma {:induction false} ConcatCons(parts: seq<seq<byte>>)
    requires parts != []
    ensures Concat(parts) == parts[0] + Concat(parts[1..])
    decreases |parts|
  {
    if |parts| > 1 {
      var init := parts[..|parts| - 1];
      ConcatCons(init);
      assert init[1..] == parts[1..][..|parts| - 2];
    }
  }

  /** Streams laid end to end decode back to the data, part by part. */
  lemma {:induction false} InflateAllStreams(deflate: Compressor, inflate: Inflater, parts: seq<seq<byte>>)
    requires SelfDelimiting(deflate, inflate)
    ensures InflateAll(inflate, Concat(Compressed(deflate, parts))) == Some(Concat(parts))
    decreases |parts|
  {
    if parts != [] {
      var streams := Compressed(deflate, parts);
      var first, later := deflate(parts[0]), Concat(streams[1..]);
      ConcatCons(parts);
      ConcatCons(streams);
      assert streams[1..] == Compressed(deflate, parts[1..]);
      InflateAllStreams(deflate, inflate, parts[1..]);
      assert inflate(first + later) == Some((parts[0], |first|));
      assert (first + later)[|first|..] == later;
    }
  }

  /** A decoder that stops at the first final block sees only the first part. */
  lemma FirstStreamOnly(deflate: Compressor, inflate: Inflater, parts: seq<seq<byte>>)
    requires SelfDelimiting(deflate, inflate) && parts != []
    ensures inflate(Concat(Compressed(deflate, parts))) == Some((parts[0], |deflate(parts[0])|))
  {
    var streams := Compressed(deflate, parts);
    ConcatCons(streams);
  }

  // ---- Stored blocks ------------------------------------------------------------------

  const STORED_MAX: nat := 65535

  /** A stored block: flags byte (BFINAL, BTYPE 00), LEN, its complement, and the data. */
  function StoredBlock(final: bool, data: seq<byte>): seq<byte>
    requires |data| <= STORED_MAX
  {
    [if final then 1 else 0] + LE(2, |data|) + LE(2, STORED_MAX - |data|) + data
  }

  function StoredDeflate(x: seq<byte>): (s: seq<byte>)
    ensures |s| > 0
  {
    if |x| <= STORED_MAX then StoredBlock(true, x)
    else StoredBlock(false, x[..STORED_MAX]) + StoredDeflate(x[STORED_MAX..])
  }

  function Prepend(data: seq<byte>, used: nat, rest: Option<(seq<byte>, nat)>): Option<(seq<byte>, nat)> {
    match rest
    case None => None
    case Some((x, n)) => Some((data + x, used + n))
  }

  /** Only BTYPE 00 is understood: the three low bits are BFINAL and BTYPE. */
  function StoredInflate(s: seq<byte>): Option<(seq<byte>, nat)>
    decreases |s|
  {
    if |s| < 5 || s[0] % 8 >= 2 then None
    else
      var len := FromLE(s[1..3]);
      if len + FromLE(s[3..5]) != STORED_MAX || 5 + len > |s| then None
      else if s[0] % 2 == 1 then Some((s[5..5 + len], 5 + len))
      else
        Prepend(s[5..5 + len], 5 + len, StoredInflate(s[5 + len..]))
  }

  lemma StoredHeader(final: bool, data: seq<byte>, rest: seq<byte>)
    requires |data| <= STORED_MAX
    ensures var s := StoredBlock(final, data) + rest;
            && |s| == 5 + |data| + |rest| && s[0] == (if final then 1 else 0)
            && FromLE(s[1..3]) == |data| && FromLE(s[3..5]) == STORED_MAX - |data|
            && s[5..5 + |data|] == data && s[5 + |data|..] == rest
  {
    Pow256Values();
    LERoundTrip(2, |data|);
    LERoundTrip(2, STORED_MAX - |data|);
    var s := StoredBlock(final, data) + rest;
    assert s[1..3] == LE(2, |data|) && s[3..5] == LE(2, STORED_MAX - |data|);
  }

  /** One turn of the decoder, given what it reads at the front of `s`. */
  lemma InflateStep(s: seq<byte>, final: bool, data: seq<byte>, rest: seq<byte>)
    requires |s| == 5 + |data| + |rest| && s[0] == (if final then 1 else 0)
    requires FromLE(s[1..3]) == |data| && FromLE(s[3..5]) == STORED_MAX - |data|
    requires s[5..5 + |data|] == data && s[5 + |data|..] == rest
    ensures StoredInflate(s)
            == if final then Some((data, 5 + |data|))
               else Prepend(data, 5 + |data|, StoredInflate(rest))
  {
    hide FromLE, Prepend;
  }

  lemma StoredStep(final: bool, data: seq<byte>, rest: seq<byte>)
    requires |data| <= STORED_MAX
    ensures StoredInflate(StoredBlock(final, data) + rest)
            == if final then Some((data, 5 + |data|))
               else Prepend(data, 5 + |data|, StoredInflate(rest))
  {
    hide StoredBlock, FromLE, StoredInflate, Prepend;
    StoredHeader(final, data, rest);
    InflateStep(StoredBlock(final, data) + rest, final, data, rest);
  }

  lemma {:induction false} StoredRoundTrip(x: seq<byte>, rest: seq<byte>)
    ensures StoredInflate(StoredDeflate(x) + rest) == Some((x, |StoredDeflate(x)|))
    decreases |x|
  {
    hide StoredBlock, StoredInflate;
    if |x| <= STORED_MAX {
      StoredStep(true, x, rest);
      StoredSize(true, x);
    } else {
      var head, tail := x[..STORED_MAX], x[STORED_MAX..];
      StoredRoundTrip(tail, rest);
      StoredStep(false, head, StoredDeflate(tail) + rest);
      StoredSize(false, head);
      assert StoredDeflate(x) + rest == StoredBlock(false, head) + (StoredDeflate(tail) + rest);
      assert head + tail == x;
    }
  }

  lemma StoredSize(final: bool, data: seq<byte>)
    requires |data| <= STORED_MAX
    ensures |StoredBlock(final, data)| == 5 + |data|
  {
  }

  /** Five bytes of framing for each stored block. */
  lemma {:induction false} StoredBound(x: seq<byte>)
    ensures |StoredDeflate(x)| <= 6 * |x| + 5
    decreases |x|
  {
    hide StoredBlock;
    if |x| <= STORED_MAX {
      StoredSize(true, x);
    } else {
      StoredSize(false, x[..STORED_MAX]);
      StoredBound(x[STORED_MAX..]);
    }
  }

  /** The codec contract is not vacuous. */
  lemma StoredIsSelfDelimiting()
    ensures SelfDelimiting(StoredDeflate, StoredInflate)
  {
    hide StoredDeflate, StoredInflate;
    var deflate, inflate: Inflater := StoredDeflate, StoredInflate;
    forall x: seq<byte>, rest: seq<byte>
      ensures |deflate(x)| > 0 && inflate(deflate(x) + rest) == Some((x, |deflate(x)|))
    {
      StoredRoundTrip(x, rest);
      assert deflate(x) == StoredDeflate(x);
      assert inflate(deflate(x) + rest) == StoredInflate(deflate(x) + rest);
    }
  }
}
