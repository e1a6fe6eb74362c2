/** The workers `main` launches, one per shard, and the join on their
    results. `checkIPRange` itself is not part of this model: its result for
    the prefix at index j is given as outcomes[j], None for a nil error and
    Some(text) for an error whose `%v` rendering is text. */
module Workers {
  import opened Shards
  import opened Errors

  /** What a worker goroutine returns: nil, or the wrapped first failure. */
  datatype Outcome = Pass | Fail(error: CheckIPRangeError)

  /** The body of the goroutine launched for [start, end): check the prefixes
      in ascending order and return on the first error, wrapped with the
      prefix it came from. `checked` lists the indices handed to
      `checkIPRange`, in call order. */
  method Worker(prefixes: seq<string>, outcomes: seq<Option<string>>, start: nat, end: nat)
      returns (r: Outcome, checked: seq<int>)
    requires start <= end <= |prefixes| == |outcomes|
    ensures start + |checked| <= end && checked == Range(start, start + |checked|)
    ensures r.Pass? <==> forall j :: start <= j < end ==> outcomes[j].None?
    ensures r.Pass? ==> |checked| == end - start
    ensures r.Fail? ==> |checked| > 0
    ensures r.Fail? ==>
              var j := start + |checked| - 1;
              && outcomes[j].Some?
              && r.error == CheckIPRangeError(prefixes[j], outcomes[j].value)
              && forall k :: start <= k < j ==> outcomes[k].None?
  {
    checked := [];
    var j := start;
    while j < end
      invariant start <= j <= end
      invariant checked == Range(start, j)
      invariant forall k :: start <= k < j ==> outcomes[k].None?
    {
      checked := checked + [j];
      if outcomes[j].Some? {
        return Fail(CheckIPRangeError(prefixes[j], outcomes[j].value)), checked;
      }
      j := j + 1;
    }
    return Pass, checked;
  }

  /** Checking the prefix at index j fails, and e is the error wrapping it. */
  predicate FailsWith(prefixes: seq<string>, outcomes: seq<Option<string>>, j: nat, e: CheckIPRangeError)
    requires j < |prefixes| == |outcomes|
  {
    outcomes[j].Some? && e == CheckIPRangeError(prefixes[j], outcomes[j].value)
  }

  /** Index j of shard s fails with error e, and no earlier index of s
      fails: the error the worker for s returns. */
  predicate FirstFailureIn(prefixes: seq<string>, outcomes: seq<Option<string>>, s: Shard, j: nat,
                           e: CheckIPRangeError)
    requires s.start <= j < s.end <= |prefixes| == |outcomes|
  {
    FailsWith(prefixes, outcomes, j, e) && forall i :: s.start <= i < j ==> outcomes[i].None?
  }

  /** Where shard k starts: the end of the shard before it, or 0. */
  function Covered(shards: seq<Shard>, k: nat): nat
    requires k <= |shards|
  {
    if k == 0 then 0 else shards[k - 1].end
  }

  /** `main` from the partition to `eg.Wait`: every shard's worker runs to
      completion, and the scan succeeds exactly when no prefix fails; when
      some do, the reported error is one a worker returned, that is the first
      failure inside some shard (here the first failing shard in launch
      order). `shards` are the ranges the workers were given: those
      `Partition` launches. */
  method Scan(prefixes: seq<string>, outcomes: seq<Option<string>>, threads: int)
      returns (r: Outcome, shards: seq<Shard>)
    requires |outcomes| == |prefixes|
    ensures LoopShards(shards, |prefixes|, threads)
    ensures |prefixes| == 0 ==> r == Pass
    ensures r.Pass? <==> forall j :: 0 <= j < |prefixes| ==> outcomes[j].None?
    ensures r.Fail? ==> (exists k, j :: 0 <= k < |shards| && shards[k].start <= j < shards[k].end &&
                           FirstFailureIn(prefixes, outcomes, shards[k], j, r.error))
  {
    shards := Partition(|prefixes|, threads);
    r := Pass;
    var k := 0;
    while k < |shards|
      invariant k <= |shards|
      invariant r.Pass? <==> forall j :: 0 <= j < Covered(shards, k) ==> outcomes[j].None?
      invariant r.Fail? ==> (exists k', j :: 0 <= k' < k && shards[k'].start <= j < shards[k'].end &&
                               FirstFailureIn(prefixes, outcomes, shards[k'], j, r.error))
    {
      var result, checked := Worker(prefixes, outcomes, shards[k].start, shards[k].end);
      if r.Pass? {
        r := result;
        if r.Fail? {
          var j := shards[k].start + |checked| - 1;
          assert shards[k].start <= j < shards[k].end;
          assert FirstFailureIn(prefixes, outcomes, shards[k], j, r.error);
        }
      }
      k := k + 1;
    }
  }
}
