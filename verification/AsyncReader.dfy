/** Cutting a file into blocks and reading each block on its own. */
module AsyncReader {
  import opened Bytes
  import opened Common

  const DEFAULT_BLOCK: nat := 1024 * 1024

  /** One queued read; `last` marks the final block of the file. */
  datatype ReadTask = ReadTask(index: nat, offset: nat, bytes: nat, last: bool)

  /** Division rounding up, in 64-bit arithmetic, truncated to 32 bits. */
  function BlockCount(total: u64, blockBytes: u64): u32
    requires blockBytes > 0
  {
    if total == 0 then 1 else (total + blockBytes - 1) % U64_LIMIT / blockBytes % U32_LIMIT
  }

  lemma MulLe(a: nat, b: nat, c: nat)
    requires a <= b
    ensures a * c <= b * c
  {
  }

  /** Block `i` of `s / b` starts at least one block before `s`. */
  lemma StartsBefore(i: nat, s: nat, b: nat)
    requires b > 0 && i < s / b
    ensures i * b + b <= s
  {
    var q, r := s / b, s % b;
    assert s == q * b + r;
    MulLe(i + 1, q, b);
    assert (i + 1) * b == i * b + b;
  }

  lemma ModAtMost(x: nat, n: nat)
    requires n > 0
    ensures x % n <= x
  {
  }

  /** The same when dividend and quotient are cut to their integer types. */
  lemma StartsBeforeSum(i: nat, sum: nat, b: nat, m: nat, n: nat)
    requires b > 0 && m > 0 && n > 0 && i < sum % m / b % n
    ensures i * b + b <= sum
  {
    var s := sum % m;
    ModAtMost(sum, m);
    ModAtMost(s / b, n);
    StartsBefore(i, s, b);
  }

  lemma CountInRange(total: u64, blockBytes: u64, i: nat)
    requires blockBytes > 0 && i < BlockCount(total, blockBytes)
    ensures i * blockBytes <= total && (total > 0 ==> i * blockBytes < total)
  {
    if total > 0 {
      StartsBeforeSum(i, total + blockBytes - 1, blockBytes, U64_LIMIT, U32_LIMIT);
    } else {
      assert i == 0;
    }
  }

  function TaskAt(total: u64, blockBytes: u64, i: nat): ReadTask
    requires blockBytes > 0 && i < BlockCount(total, blockBytes)
  {
    CountInRange(total, blockBytes, i);
    var left := total - i * blockBytes;
    ReadTask(i, i * blockBytes, if blockBytes < left then blockBytes else left,
             i + 1 == BlockCount(total, blockBytes))
  }

  function Tasks(total: u64, blockBytes: u64): (ts: seq<ReadTask>)
    requires blockBytes > 0
    ensures |ts| == BlockCount(total, blockBytes)
    ensures forall i :: 0 <= i < |ts| ==> ts[i] == TaskAt(total, blockBytes, i)
  {
    seq(BlockCount(total, blockBytes), i requires 0 <= i < BlockCount(total, blockBytes)
      => TaskAt(total, blockBytes, i))
  }

  class AsyncReader {
    const blockBytes: u64

    constructor (requested: u64)
      ensures blockBytes == if requested == 0 then 0x10_0000 else requested
      ensures blockBytes > 0
    {
      blockBytes := if requested == 0 then DEFAULT_BLOCK else requested;
    }

    /** The reads queued for a file, in source order. */
    method Submit(total: u64) returns (tasks: seq<ReadTask>)
      requires blockBytes > 0
      ensures tasks == Tasks(total, blockBytes)
    {
      var blockCount := BlockCount(total, blockBytes);
      tasks := [];
      for idx := 0 to blockCount
        invariant |tasks| == idx && tasks == Tasks(total, blockBytes)[..idx]
      {
        CountInRange(total, blockBytes, idx);
        var offset := idx * blockBytes;
        var bytes := if blockBytes < total - offset then blockBytes else total - offset;
        tasks := tasks + [ReadTask(idx, offset, bytes, idx + 1 == blockCount)];
      }
    }
  }

  // ---- Tiling ------------------------------------------------------------------------

  /** Non-empty, gap-free blocks from 0 to `total`, flagged last exactly at the end. */
  predicate Tiles(ts: seq<ReadTask>, total: nat) {
    && ts != [] && ts[0].offset == 0
    && (forall i :: 0 <= i < |ts| - 1 ==> ts[i].offset + ts[i].bytes == ts[i + 1].offset)
    && ts[|ts| - 1].offset + ts[|ts| - 1].bytes == total
    && (forall i :: 0 <= i < |ts| ==> (ts[i].last <==> i == |ts| - 1) && ts[i].index == i)
    && (total > 0 ==> forall i :: 0 <= i < |ts| ==> ts[i].bytes > 0)
  }

  /** Neither the rounded sum nor the block count overflows its integer type. */
  predicate NoOverflow(total: u64, blockBytes: u64)
    requires blockBytes > 0
  {
    total == 0 || (total + blockBytes - 1 < U64_LIMIT && (total + blockBytes - 1) / blockBytes < U32_LIMIT)
  }

  lemma RoundUp(total: nat, b: nat)
    requires b > 0 && total > 0
    ensures var q := (total + b - 1) / b; q > 0 && (q - 1) * b < total <= q * b
  {
    var p, r := (total - 1) / b, (total - 1) % b;
    assert total - 1 == p * b + r;
    assert (p + 1) * b == p * b + b;
    DivUnique(total + b - 1, b, p + 1, r);
  }

  lemma DivBelow(s: nat, b: nat, q: nat)
    requires b > 0 && s < q * b
    ensures s / b < q
  {
    assert s == s / b * b + s % b;
    if s / b >= q {
      MulLe(q, s / b, b);
    }
  }

  lemma ExactCount(total: u64, b: u64)
    requires b > 0 && total > 0 && NoOverflow(total, b)
    ensures BlockCount(total, b) == (total + b - 1) / b
  {
  }

  /** Each block but the final one is full, and the final one ends with the file. */
  lemma TaskFacts(total: u64, b: u64, i: nat)
    requires b > 0 && total > 0 && NoOverflow(total, b) && i < BlockCount(total, b)
    ensures var t, q := TaskAt(total, b, i), BlockCount(total, b);
            && t.index == i && (t.last <==> i == q - 1) && t.bytes > 0 && (i == 0 ==> t.offset == 0)
            && (if i == q - 1 then t.offset + t.bytes == total
                else t.offset + t.bytes == TaskAt(total, b, i + 1).offset)
  {
    ExactCount(total, b);
    RoundUp(total, b);
    var q := BlockCount(total, b);
    assert (i + 1) * b == i * b + b;
    if i + 1 < q {
      CountInRange(total, b, i + 1);
    } else {
      assert q * b == (q - 1) * b + b;
      CountInRange(total, b, i);
    }
  }

  lemma TilesWhenInRange(total: u64, b: u64)
    requires b > 0 && NoOverflow(total, b)
    ensures Tiles(Tasks(total, b), total)
  {
    if total > 0 {
      ExactCount(total, b);
      RoundUp(total, b);
      hide BlockCount, TaskAt, NoOverflow;
      var ts := Tasks(total, b);
      forall i | 0 <= i < |ts|
        ensures (ts[i].last <==> i == |ts| - 1) && ts[i].index == i && ts[i].bytes > 0 && (i == 0 ==> ts[i].offset == 0)
        ensures if i == |ts| - 1 then ts[i].offset + ts[i].bytes == total
                else ts[i].offset + ts[i].bytes == ts[i + 1].offset
      {
        TaskFacts(total, b, i);
      }
    }
  }

  /** The blocks tile the file exactly when the block count is computed without overflow. */
  lemma TilesExactly(total: u64, b: u64)
    requires b > 0
    ensures Tiles(Tasks(total, b), total) <==> NoOverflow(total, b)
  {
    if NoOverflow(total, b) {
      TilesWhenInRange(total, b);
    } else {
      RoundUp(total, b);
      var ts := Tasks(total, b);
      var c, q := |ts|, (total + b - 1) / b;
      CountDrops(total, b);
      if c > 0 {
        MulLe(c, q - 1, b);
        assert c * b == (c - 1) * b + b;
        assert ts[c - 1] == TaskAt(total, b, c - 1);
      }
    }
  }

  lemma CountDrops(total: u64, b: u64)
    requires b > 0 && !NoOverflow(total, b)
    ensures BlockCount(total, b) < (total + b - 1) / b
  {
    Truncation(total + b - 1, b, U64_LIMIT, U32_LIMIT);
  }

  lemma ModBounds(x: nat, n: nat)
    requires n > 0
    ensures x % n < n && x % n <= x && (x < n ==> x % n == x) && (n <= x < 2 * n ==> x % n == x - n)
  {
    if x < n {
      DivUnique(x, n, 0, x);
    } else if x < 2 * n {
      DivUnique(x, n, 1, x - n);
    }
  }

  /** Reducing the dividend modulo `m`, or the quotient modulo `n`, loses blocks. */
  lemma Truncation(sum: nat, b: nat, m: nat, n: nat)
    requires 0 < b < m && n > 0 && sum < 2 * m && (sum >= m || sum / b >= n)
    ensures sum % m / b % n < sum / b
  {
    ModBounds(sum, m);
    var kept := sum % m;
    ModBounds(kept / b, n);
    var q, r := sum / b, sum % b;
    assert sum == q * b + r;
    if sum >= m {
      DivBelow(kept, b, q);
    }
  }

  // ---- What the blocks cover ---------------------------------------------------------

  function TaskBytes(ts: seq<ReadTask>): nat {
    if ts == [] then 0 else TaskBytes(ts[..|ts| - 1]) + ts[|ts| - 1].bytes
  }

  /** Without any bound on the sizes, blocks start one after the other and stay inside the file. */
  lemma TaskInside(total: u64, b: u64, i: nat)
    requires b > 0 && i < BlockCount(total, b)
    ensures var t := TaskAt(total, b, i);
            && t.offset + t.bytes <= total && (i == 0 ==> t.offset == 0)
            && (i + 1 < BlockCount(total, b) ==> t.offset + t.bytes == TaskAt(total, b, i + 1).offset)
  {
    CountInRange(total, b, i);
    if i + 1 < BlockCount(total, b) {
      CountInRange(total, b, i + 1);
      assert (i + 1) * b == i * b + b;
    }
  }

  lemma {:induction false} PrefixBytes(total: u64, b: u64, n: nat)
    requires b > 0 && n <= BlockCount(total, b)
    ensures TaskBytes(Tasks(total, b)[..n])
            == if n == 0 then 0 else TaskAt(total, b, n - 1).offset + TaskAt(total, b, n - 1).bytes
    decreases n
  {
    hide BlockCount, TaskAt;
    var ts := Tasks(total, b);
    if n > 0 {
      PrefixBytes(total, b, n - 1);
      TaskInside(total, b, n - 1);
      if n > 1 {
        TaskInside(total, b, n - 2);
      }
      assert ts[..n][..n - 1] == ts[..n - 1];
    }
  }

  /** Whatever the sizes, the blocks hold no more than the file, and all of it exactly when the block
      count is computed without overflow. */
  lemma BlocksCoverExactly(total: u64, b: u64)
    requires b > 0
    ensures TaskBytes(Tasks(total, b)) <= total
    ensures TaskBytes(Tasks(total, b)) == total <==> NoOverflow(total, b)
  {
    var ts := Tasks(total, b);
    PrefixBytes(total, b, |ts|);
    assert ts[..|ts|] == ts;
    if ts != [] {
      TaskInside(total, b, |ts| - 1);
    }
    if NoOverflow(total, b) {
      TilesWhenInRange(total, b);
      hide BlockCount, TaskAt;
      TileEnd(ts, total, |ts| - 1);
    } else {
      LostBlocks(total, b);
    }
  }

  lemma LostBlocks(total: u64, b: u64)
    requires b > 0 && !NoOverflow(total, b)
    ensures var ts := Tasks(total, b); ts == [] || ts[|ts| - 1].offset + ts[|ts| - 1].bytes < total
    ensures total > 0
  {
    RoundUp(total, b);
    CountDrops(total, b);
    var c, q := BlockCount(total, b), (total + b - 1) / b;
    if c > 0 {
      MulLe(c, q - 1, b);
      assert c * b == (c - 1) * b + b;
    }
  }

  // ---- Reading ------------------------------------------------------------------------

  const OPEN_FAILED := Error(Io, "Failed to open")
  const SHORT_READ := Error(Io, "Short read")

  /** A block read; `content` is None when the file cannot be opened. */
  function ReadBlock(content: Option<seq<byte>>, t: ReadTask): Result<FileBlock> {
    if t.bytes == 0 then Ok(FileBlock(t.index, t.last, t.offset, []))
    else if content.None? then Err(OPEN_FAILED)
    else if t.offset + t.bytes > |content.value| then Err(SHORT_READ)
    else Ok(FileBlock(t.index, t.last, t.offset, content.value[t.offset..t.offset + t.bytes]))
  }

  function Concat(parts: seq<seq<byte>>): seq<byte> {
    if parts == [] then [] else Concat(parts[..|parts| - 1]) + parts[|parts| - 1]
  }

  /** Where the first `n` blocks of a tiling end. */
  function EndOf(ts: seq<ReadTask>, total: nat, n: nat): nat
    requires n <= |ts|
  {
    if n == |ts| then total else ts[n].offset
  }

  /** `parts` are the blocks read from a file with this content. */
  ghost predicate Delivers(content: seq<byte>, ts: seq<ReadTask>, parts: seq<seq<byte>>) {
    && |parts| == |ts|
    && forall i :: 0 <= i < |ts| ==>
         ReadBlock(Some(content), ts[i]).Ok? && parts[i] == ReadBlock(Some(content), ts[i]).value.data
  }

  /** The first `n` blocks read are a prefix of the content, cut where block `n` starts. */
  lemma {:induction false} ReadsConcatenate(content: seq<byte>, ts: seq<ReadTask>, total: nat, parts: seq<seq<byte>>,
                                            n: nat)
    requires Tiles(ts, total) && total > 0 && Delivers(content, ts, parts) && n <= |ts|
    ensures EndOf(ts, total, n) <= |content| && Concat(parts[..n]) == content[..EndOf(ts, total, n)]
    decreases n
  {
    hide Tiles, ReadBlock, Concat, Delivers;
    OnePartPerTile(content, ts, total, parts);
    if n == 0 {
      TileEnd(ts, total, 0);
      NothingRead(parts);
    } else {
      TileEnd(ts, total, n - 1);
      ReadsConcatenate(content, ts, total, parts, n - 1);
      ConcatNext(parts, n - 1);
      ReadNext(content, ts, Concat(parts[..n - 1]), parts, n - 1);
    }
  }

  lemma OnePartPerTile(content: seq<byte>, ts: seq<ReadTask>, total: nat, parts: seq<seq<byte>>)
    requires Tiles(ts, total) && Delivers(content, ts, parts)
    ensures ts != [] && |parts| == |ts|
  {
  }

  lemma NothingRead(parts: seq<seq<byte>>)
    ensures Concat(parts[..0]) == []
  {
  }

  lemma ConcatNext(parts: seq<seq<byte>>, n: nat)
    requires n < |parts|
    ensures Concat(parts[..n + 1]) == Concat(parts[..n]) + parts[n]
  {
    assert parts[..n + 1][..n] == parts[..n];
  }

  lemma ReadNext(content: seq<byte>, ts: seq<ReadTask>, before: seq<byte>, parts: seq<seq<byte>>, i: nat)
    requires Delivers(content, ts, parts) && i < |ts| && ts[i].bytes > 0
    requires ts[i].offset <= |content| && before == content[..ts[i].offset]
    ensures ts[i].offset + ts[i].bytes <= |content| && before + parts[i] == content[..ts[i].offset + ts[i].bytes]
  {
    assert ReadBlock(Some(content), ts[i]).Ok?;
  }

  lemma TileEnd(ts: seq<ReadTask>, total: nat, i: nat)
    requires Tiles(ts, total) && i < |ts|
    ensures ts[i].offset + ts[i].bytes == if i + 1 == |ts| then total else ts[i + 1].offset
    ensures i == 0 ==> ts[i].offset == 0
    ensures total > 0 ==> ts[i].bytes > 0
  {
  }

  /** The blocks of an empty file are empty. */
  lemma {:induction false} ZeroTotal(ts: seq<ReadTask>, i: nat)
    requires Tiles(ts, 0) && i < |ts|
    ensures ts[i].bytes == 0 && ts[i].offset == 0
    decreases |ts| - i
  {
    if i + 1 < |ts| {
      ZeroTotal(ts, i + 1);
    }
  }
}
