# awsScrape work partitioning, in Dafny

awsScrape fetches the published AWS IP-range list. It then scans the ranges
for TLS certificates whose names contain a keyword. The scan is spread over
`-threads` goroutines. This project models the sequential logic of `main` in
`awsscrape.go`:

- **Thread count.** A non-positive `-threads` value is normalised to 1.
- **Shard size.** `rangesPerThread` is the ceiling of N / W. Here N is the
  number of prefixes and W the normalised thread count.
- **Shard loop.** The `for` loop hands out the half-open index ranges
  `[start, end)`, one per worker.
- **Worker body.** A worker checks its prefixes in order. It stops at the
  first error and wraps that error with the failing prefix.
- **Join.** `eg.Wait` gives the scan's overall success or failure.
- **Error text.** `CheckIPRangeError.Error` formats the wrapped error.

Files:

- `Shards.dfy`, module `Shards`: normalisation, the shard size, the
  `Partition` method (the `for` loop as a `while` loop with invariants), and
  the lemmas that a partition covers `0 .. N-1` in order without overlap.
  It also holds the 64-bit reading of the shard-size expression (see
  Findings).
- `Errors.dfy`, module `Errors`: `CheckIPRangeError`, its message, and a
  parser that reads the message back. The parser serves as the round-trip
  partner of the formatter.
- `Workers.dfy`, module `Workers`: the worker loop and the scan over all
  shards.

`checkIPRange` stands outside the model. Its result for the prefix at index
j is a parameter, `outcomes[j]`: `None` for a nil error, `Some(text)` for an
error whose `%v` text is `text`.

Two behaviours of the code are worth stating outright:

- **Shard count.** The loop at awsscrape.go:74-79 launches ceil(N / size)
  shards. That is at most W, and none of them is empty. With N = 0 it
  launches none.
- **Failure policy.** `eg.Wait` (awsscrape.go:91) waits for every worker
  before `logger.Fatalf` runs, because the errgroup has no cancelling
  context. A failing worker stops only its own shard.

## Model

| member | source | states |
|---|---|---|
| `Shards.NormalizeThreads` | awsscrape.go:67-70 | the worker count is at least 1; a positive `-threads` value is kept and any other value becomes 1 |
| `Shards.ShardSize` | awsscrape.go:71-72 | W shards of `rangesPerThread` prefixes each reach N, and W shards of one prefix fewer would not; the size is 0 when N = 0, and between 1 and N when N > 0 |
| `Shards.ShardSizeIsCeiling` | awsscrape.go:72 | the same in products: `rangesPerThread` is the least s with N <= s * W, i.e. the ceiling of N / W |
| `Shards.Partition` | awsscrape.go:67-79 | the launched ranges are non-empty and lie in [0, N); each starts where the previous one ended; the first starts at 0 and the last ends at N, and there are none when N = 0 (so, by `Shards.PartitionCovers`, together they visit 0 .. N-1 in ascending order); there are at most W of them (at most 1 for a non-positive flag); every range but the last has exactly `rangesPerThread` elements and the last has at most that many; the loop terminates |
| `Shards.LoopShardsUnique` | awsscrape.go:71-79 | two shard lists that both partition [0, N) into at most W shards of `rangesPerThread` prefixes each but the last are equal, so `Partition`'s contract fixes the launched shards exactly |
| `Shards.LaunchesPartition` | awsscrape.go:74-79 | the ranges the loop launches, stopping at the first turn whose start is not below N, are non-empty, contiguous from 0 to N, and all of full size except the last |
| `Shards.PartitionCovers` | awsscrape.go:74-79 | any partition of [0, N) in that sense, flattened in launch order, is exactly the index list 0 .. N-1: no gap, overlap or reordering |
| `Shards.PartitionSlices` | awsscrape.go:74-82 | the slices of the prefix list that the workers walk, concatenated in launch order, are the whole prefix list |
| `Shards.PartitionOrdered` | awsscrape.go:74-79 | of any two shards, the one launched earlier ends no later than the later one starts, so the shards are disjoint and in order |
| `Shards.ShardSizeInt64Agrees` | awsscrape.go:72 | when N + W - 1 fits in a 64-bit int, the expression evaluated with Go's int64 wrap-around and truncating division equals the ceiling |
| `Shards.ShardSizeInt64Overflows` | awsscrape.go:72-74 | with N = 3 and W = 2^63 - 1, the 64-bit expression yields -1 where the ceiling is 1 |
| `Errors.Message` | awsscrape.go:45-47 | the message starts with the fixed lead text `error checking IP range ` and ends with the inner error's text; its length is the sum of the lengths of its parts |
| `Errors.ParseMessage` | awsscrape.go:45-47 | whatever the parser accepts is exactly the message of the error it returns, and that error's prefix contains no colon |
| `Errors.MessageRoundTrip` | awsscrape.go:45-47 | for a prefix without a colon (every IPv4 CIDR string), the prefix and the inner error text can be recovered from the message |
| `Errors.MessageInjective` | awsscrape.go:45-47 | two errors on colon-free prefixes with the same message are the same error |
| `Workers.Worker` | awsscrape.go:81-87 | the prefixes are checked at start, start+1, ... with no index skipped, and never past end; the worker succeeds exactly when no prefix in [start, end) fails, and then it has checked all of them; on failure the last index checked is the first failing one, and the result wraps that prefix together with its error |
| `Workers.Scan` | awsscrape.go:71-93 | the workers receive the shards `Shards.Partition` computes (the same `LoopShards` shape, which by `Shards.LoopShardsUnique` admits one list only); the scan succeeds exactly when no prefix fails, so with no prefixes it succeeds; on failure it reports the wrapped error of the first failing prefix of some shard, which is what that shard's worker returns |

## Findings

| source | as written | input that shows it | evidently intended | confidence | as-written member | corrected member |
|---|---|---|---|---|---|---|
| awsscrape.go:72 | `(rangeCount + threadCount - 1) / threadCount` is evaluated in Go's 64-bit `int`, and the sum can wrap | three prefixes and `-threads=9223372036854775807`: the sum 2^63 + 1 wraps to -2^63 + 1, the quotient is -1, and the loop at line 74 steps `i` downward, launching workers over empty ranges, and `i` would only wrap back above rangeCount after about 2^63 turns | `rangesPerThread` = ceil(N / W) = 1, which gives a single worker | not executed; the wrap-around is certain for 64-bit `int`, but only an extreme flag value triggers it | `Shards.ShardSizeInt64Overflows` | `Shards.ShardSize` |

## Left out

- Fetching and decoding the IP-range document (`getIPRanges`, awsscrape.go:101-119) is left out: it is HTTP and JSON I/O. The model starts from the list of prefixes.
- `checkIPRange` (awsscrape.go:121) is not part of this model: it does CIDR expansion and TLS network I/O. Its result per prefix is a parameter.
- The model does not capture that checking the same prefix could give different results at different times (network state, the deadline). Each prefix has one fixed outcome.
- Goroutines, the errgroup and the shared `context.WithTimeout` deadline (awsscrape.go:63-65, 80, 91) are left out as concurrency. In the model the workers run one after another.
- The `sync.Map` result set and the final printing (awsscrape.go:62, 95-98) are left out. Inserts happen inside `checkIPRange`, and printing is output.
- Flag parsing, the usage exit for an empty keyword, and `logger.Fatalf` (awsscrape.go:35-37, 50-60, 92) are left out as command-line glue and process exit.
- Scan: errgroup reports the first error in time, and that depends on scheduling. The model returns the error of the first failing shard in launch order. Its contract fixes the shards but promises only that the error is the first failure of one of them, not which one.
- Errors.Message: Go's `%v` rendering of the inner `error` is treated as an opaque string.
- The 64-bit `int` width is modelled only in the shard-size expression, where it can overflow. The other integers in the model are unbounded: indices and counts are bounded by the slice length, and `i + rangesPerThread` stays below 2N.
