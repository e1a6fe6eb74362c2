/** How `main` in awsscrape.go splits the list of IP-range prefixes among
    worker goroutines: the thread count is normalised, a shard size is
    computed by rounding N / W up, and a `for` loop hands out the half-open
    index ranges [start, end) one per worker. */
module Shards {

  /** The half-open index range [start, end) of the prefix list that one
      worker walks. */
  datatype Shard = Shard(start: nat, end: nat)

  /** The `-threads` flag after normalisation: anything not positive means one
      worker. */
  function NormalizeThreads(threads: int): (w: nat)
    ensures w >= 1
    ensures threads > 0 ==> w == threads
    ensures threads <= 0 ==> w == 1
  {
    if threads <= 0 then 1 else threads
  }

  /** `rangesPerThread`: the ceiling of n / w, computed by integer division
      of n + w - 1 (all operands are non-negative, so Go's truncating division
      and Dafny's agree). It is the least s for which w shards of s prefixes
      each reach n; `ShardSizeIsCeiling` states the same with products. */
  function ShardSize(n: nat, w: nat): (s: nat)
    requires w >= 1
    ensures n <= Offset(w, s)
    ensures n == 0 ==> s == 0
    ensures n > 0 ==> 1 <= s <= n && Offset(w, s - 1) < n
  {
    var s := (n + w - 1) / w;
    CeilingBounds(n, w, s);
    OffsetIsProduct(w, s);
    OffsetIsProduct(w, if s > 0 then s - 1 else 0);
    s
  }

  lemma ShardSizeIsCeiling(n: nat, w: nat)
    requires w >= 1
    ensures n <= ShardSize(n, w) * w
    ensures n > 0 ==> (ShardSize(n, w) - 1) * w < n
  {
    var s := ShardSize(n, w);
    OffsetIsProduct(w, s);
    if n > 0 {
      OffsetIsProduct(w, s - 1);
    }
  }

  lemma CeilingBounds(n: nat, w: nat, s: nat)
    requires w >= 1 && s == (n + w - 1) / w
    ensures n <= s * w
    ensures n == 0 ==> s == 0
    ensures n > 0 ==> 1 <= s <= n && (s - 1) * w < n
  {
    var r := (n + w - 1) % w;
    assert n + w - 1 == s * w + r && 0 <= r < w;
    if n > 0 {
      assert n * w >= n by { MulMono(1, w, n); }
      assert s * w < (n + 1) * w;
      MulLess(s, n + 1, w);
      assert (s - 1) * w == s * w - w;
    }
  }

  lemma MulLess(a: nat, b: nat, c: nat)
    requires a * c < b * c
    ensures a < b
  {
    if a >= b {
      MulMono(b, a, c);
      assert false;
    }
  }

  /** Where the loop's `i` stands after k steps of the given size. */
  function Offset(k: nat, size: nat): (i: nat)
  {
    if k == 0 then 0 else Offset(k - 1, size) + size
  }

  lemma {:induction false} OffsetIsProduct(k: nat, size: nat)
    ensures Offset(k, size) == k * size
  {
    if k > 0 {
      OffsetIsProduct(k - 1, size);
      assert k * size == (k - 1) * size + size;
    }
  }

  /** While `i` is still below n, and n is reached after w steps, fewer than w shards exist. */
  lemma FewerThanThreads(k: nat, size: nat, w: nat, n: nat)
    requires Offset(k, size) < n <= Offset(w, size)
    ensures k < w
  {
    OffsetIsProduct(k, size);
    OffsetIsProduct(w, size);
    MulLess(k, w, size);
  }

  lemma MulMono(a: nat, b: nat, c: nat)
    requires a <= b
    ensures a * c <= b * c
  {
  }

  /** Every shard is a non-empty range inside [0, n), each starts where the
      previous one ended, the first starts at 0 and the last ends at n (there
      are none when n is 0). */
  ghost predicate IsPartition(shards: seq<Shard>, n: nat)
  {
    && (forall k :: 0 <= k < |shards| ==> shards[k].start < shards[k].end <= n)
    && (forall k :: 0 <= k < |shards| - 1 ==> shards[k].end == shards[k + 1].start)
    && (if |shards| == 0 then n == 0
        else shards[0].start == 0 && shards[|shards| - 1].end == n)
  }

  /** The indices lo, lo + 1, ..., hi - 1. */
  function Range(lo: nat, hi: nat): (r: seq<int>)
    requires lo <= hi
    ensures |r| == hi - lo
    ensures forall k :: 0 <= k < |r| ==> r[k] == lo + k
  {
    seq(hi - lo, k => lo + k)
  }

  /** The indices the workers visit, in launch order, shard after shard. */
  function Flatten(shards: seq<Shard>): seq<int>
  {
    if shards == [] then []
    else
      var last := shards[|shards| - 1];
      Flatten(shards[..|shards| - 1]) + (if last.start <= last.end then Range(last.start, last.end) else [])
  }

  /** The slices of `xs` the workers receive, concatenated in launch order. */
  function Slices<T>(xs: seq<T>, shards: seq<Shard>): seq<T>
    requires forall k :: 0 <= k < |shards| ==> shards[k].start <= shards[k].end <= |xs|
  {
    if shards == [] then []
    else
      var last := shards[|shards| - 1];
      Slices(xs, shards[..|shards| - 1]) + xs[last.start..last.end]
  }

  /** Dropping the last shard of a partition of [0, n) leaves a partition of
      [0, start of that shard). */
  lemma DropLast(shards: seq<Shard>, n: nat)
    requires IsPartition(shards, n) && |shards| > 0
    ensures IsPartition(shards[..|shards| - 1], shards[|shards| - 1].start)
  {
    var init := shards[..|shards| - 1];
    forall k | 0 <= k < |init|
      ensures init[k].start < init[k].end <= shards[|shards| - 1].start
    {
      PartitionOrdered(shards, n, k, |shards| - 1);
    }
    if |init| > 0 {
      assert init[|init| - 1].end == shards[|shards| - 1].start;
    }
  }

  /** Coverage: the shards of a partition of [0, n), visited in order, list
      every index 0 .. n - 1 exactly once and in ascending order. */
  lemma {:induction false} PartitionCovers(shards: seq<Shard>, n: nat)
    requires IsPartition(shards, n)
    ensures Flatten(shards) == Range(0, n)
  {
    if shards != [] {
      var last := shards[|shards| - 1];
      DropLast(shards, n);
      PartitionCovers(shards[..|shards| - 1], last.start);
      assert Range(0, last.start) + Range(last.start, n) == Range(0, n);
    }
  }

  /** The same fact for the prefix list itself: the workers' slices, joined
      in launch order, give back the whole list. */
  lemma {:induction false} PartitionSlices<T>(xs: seq<T>, shards: seq<Shard>)
    requires IsPartition(shards, |xs|)
    ensures Slices(xs, shards) == xs
  {
    if shards != [] {
      var last := shards[|shards| - 1];
      DropLast(shards, |xs|);
      PartitionSlices(xs[..last.start], shards[..|shards| - 1]);
      assert Slices(xs, shards[..|shards| - 1]) == Slices(xs[..last.start], shards[..|shards| - 1])
        by { SlicesOfPrefix(xs, last.start, shards[..|shards| - 1]); }
      assert xs[..last.start] + xs[last.start..] == xs;
    }
  }

  /** Slices that stay below m read the same from xs and from xs[..m]. */
  lemma {:induction false} SlicesOfPrefix<T>(xs: seq<T>, m: nat, shards: seq<Shard>)
    requires m <= |xs|
    requires forall k :: 0 <= k < |shards| ==> shards[k].start <= shards[k].end <= m
    ensures Slices(xs, shards) == Slices(xs[..m], shards)
  {
    if shards != [] {
      SlicesOfPrefix(xs, m, shards[..|shards| - 1]);
    }
  }

  /** No overlap and no reordering: an earlier shard ends no later than any
      later shard starts. */
  lemma {:induction false} PartitionOrdered(shards: seq<Shard>, n: nat, j: nat, k: nat)
    requires IsPartition(shards, n)
    requires j < k < |shards|
    ensures shards[j].end <= shards[k].start
    decreases k - j
  {
    if j + 1 < k {
      PartitionOrdered(shards, n, j + 1, k);
    }
  }

  /** The range the loop launches on its k-th turn (counting from 0):
      [i, min(i + size, n)) where i has taken k steps of the given size. */
  function LaunchedAt(k: nat, size: nat, n: nat): Shard
  {
    var start := Offset(k, size);
    Shard(start, if start + size > n then n else start + size)
  }

  lemma {:induction false} OffsetMono(j: nat, k: nat, size: nat)
    requires j <= k
    ensures Offset(j, size) <= Offset(k, size)
    decreases k - j
  {
    if j < k {
      OffsetMono(j, k - 1, size);
    }
  }

  /** The ranges launched on turns 0 .. m-1, when turn m-1 still started
      below n and turn m would not, partition [0, n): all are full but the
      last, which is clamped to n. */
  lemma LaunchesPartition(shards: seq<Shard>, size: nat, n: nat)
    requires size >= 1
    requires forall k :: 0 <= k < |shards| ==> shards[k] == LaunchedAt(k, size, n)
    requires n <= Offset(|shards|, size)
    requires if |shards| == 0 then n == 0 else Offset(|shards| - 1, size) < n
    ensures IsPartition(shards, n)
    ensures forall k :: 0 <= k < |shards| ==> shards[k].end - shards[k].start <= size
    ensures forall k :: 0 <= k < |shards| - 1 ==> shards[k].end - shards[k].start == size
  {
    forall k | 0 <= k < |shards|
      ensures shards[k].start < shards[k].end <= n
    {
      OffsetMono(k, |shards| - 1, size);
    }
    forall k | 0 <= k < |shards| - 1
      ensures shards[k].end == shards[k + 1].start
      ensures shards[k].end - shards[k].start == size
    {
      OffsetMono(k + 1, |shards| - 1, size);
    }
  }

  /** The ranges the shard loop launches for n prefixes and the `-threads`
      flag: a partition of [0, n) into at most W shards (at most one for a
      non-positive flag), each of `rangesPerThread` prefixes except the last,
      which may be shorter. These facts determine the shards uniquely. */
  ghost predicate LoopShards(shards: seq<Shard>, n: nat, threads: int)
  {
    && IsPartition(shards, n)
    && (threads <= 0 ==> |shards| <= 1)
    && (threads > 0 ==> |shards| <= threads)
    && (forall k :: 0 <= k < |shards| ==>
          shards[k].end - shards[k].start <= ShardSize(n, NormalizeThreads(threads)))
    && (forall k :: 0 <= k < |shards| - 1 ==>
          shards[k].end - shards[k].start == ShardSize(n, NormalizeThreads(threads)))
  }

  /** In shards of that shape, shard k starts after k full shards. */
  lemma {:induction false} LoopShardStart(shards: seq<Shard>, n: nat, threads: int, k: nat)
    requires LoopShards(shards, n, threads) && k < |shards|
    ensures shards[k].start == Offset(k, ShardSize(n, NormalizeThreads(threads)))
  {
    if k > 0 {
      LoopShardStart(shards, n, threads, k - 1);
    }
  }

  /** The shape `LoopShards` describes admits one list of shards only, so it
      pins down exactly what the loop launches. */
  lemma LoopShardsUnique(a: seq<Shard>, b: seq<Shard>, n: nat, threads: int)
    requires LoopShards(a, n, threads) && LoopShards(b, n, threads)
    ensures a == b
  {
    var size := ShardSize(n, NormalizeThreads(threads));
    if |a| > 0 && |b| > 0 {
      LoopShardStart(a, n, threads, |a| - 1);
      LoopShardStart(b, n, threads, |b| - 1);
      if |a| < |b| {
        OffsetMono(|a|, |b| - 1, size);
        assert false;
      } else if |b| < |a| {
        OffsetMono(|b|, |a| - 1, size);
        assert false;
      }
      forall k | 0 <= k < |a|
        ensures a[k] == b[k]
      {
        LoopShardStart(a, n, threads, k);
        LoopShardStart(b, n, threads, k);
      }
    }
  }

  /** The shard loop of `main`: `i` starts at 0 and steps by the shard size
      while it is below n; each step launches [i, min(i + size, n)). */
  method Partition(n: nat, threads: int) returns (shards: seq<Shard>)
    ensures LoopShards(shards, n, threads)
  {
    var w := NormalizeThreads(threads);
    var size := ShardSize(n, w);
    shards := [];
    var i: nat := 0;
    while i < n
      invariant i == Offset(|shards|, size)
      invariant forall k :: 0 <= k < |shards| ==> shards[k] == LaunchedAt(k, size, n)
      invariant if |shards| == 0 then i == 0 else Offset(|shards| - 1, size) < n
      invariant |shards| <= w
      decreases n - i
    {
      FewerThanThreads(|shards|, size, w, n);
      var start := i;
      var end := i + size;
      if end > n {
        end := n;
      }
      shards := shards + [Shard(start, end)];
      i := i + size;
    }
    if n > 0 {
      LaunchesPartition(shards, size, n);
    }
  }

  // 64-bit behaviour of the shard-size expression as the source writes it.

  const MinInt64: int := -0x8000_0000_0000_0000
  const MaxInt64: int := 0x7fff_ffff_ffff_ffff

  /** Two's-complement wrap-around of a Go `int` on a 64-bit platform. */
  function Wrap64(x: int): (r: int)
    ensures MinInt64 <= r <= MaxInt64
    ensures MinInt64 <= x <= MaxInt64 ==> r == x
    ensures (r - x) % 0x1_0000_0000_0000_0000 == 0
  {
    (x - MinInt64) % 0x1_0000_0000_0000_0000 + MinInt64
  }

  /** Go's `/` on integers: the quotient truncated toward zero. */
  function QuoTrunc(a: int, b: int): (q: int)
    requires b > 0
    ensures a >= 0 ==> 0 <= q && q * b <= a < q * b + b
    ensures a < 0 ==> q <= 0 && q * b - b < a <= q * b
  {
    if a >= 0 then
      DivBounds(a, b);
      a / b
    else
      DivBounds(-a, b);
      assert -((-a) / b) * b == -(((-a) / b) * b);
      -((-a) / b)
  }

  /** Dafny's `/` on naturals rounds down: the quotient times b brackets a. */
  lemma DivBounds(a: nat, b: nat)
    requires b > 0
    ensures 0 <= a / b && (a / b) * b <= a < (a / b) * b + b
  {
    var q, r := a / b, a % b;
    assert a == q * b + r && 0 <= r < b;
  }

  /** `(rangeCount + threadCount - 1) / threadCount` evaluated on 64-bit ints. */
  function ShardSizeInt64(n: nat, w: int): int
    requires 1 <= w <= MaxInt64 && n <= MaxInt64
  {
    QuoTrunc(Wrap64(n + w - 1), w)
  }

  /** Without overflow the 64-bit expression is the ceiling the rest of the
      model uses. */
  lemma ShardSizeInt64Agrees(n: nat, w: int)
    requires 1 <= w <= MaxInt64 && n <= MaxInt64
    requires n + w - 1 <= MaxInt64
    ensures ShardSizeInt64(n, w) == ShardSize(n, w)
  {
  }

  /** With three prefixes and `-threads=9223372036854775807` the sum
      2^63 + 1 wraps to -2^63 + 1 and the step becomes -1, so the loop's `i` moves
      away from rangeCount, launching workers over empty ranges, and only wraps
      back above rangeCount after about 2^63 turns. */
  lemma ShardSizeInt64Overflows()
    ensures ShardSizeInt64(3, MaxInt64) == -1
    ensures ShardSize(3, MaxInt64) == 1
  {
    assert (3 + MaxInt64 - 1 - MinInt64) % 0x1_0000_0000_0000_0000 == 1;
    assert Wrap64(3 + MaxInt64 - 1) == MinInt64 + 1;
  }
}
