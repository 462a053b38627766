/** The crawl orchestrator: resume, process the remaining ids in order,
    accumulate successes into numbered batch files, log failures. */
module Pipeline {
  import opened Values
  import opened Transform
  import opened Extract
  import opened Load

  /** The settings' defaults (BATCH_SIZE, MAX_WORKERS). */
  const BatchSize := 1000
  const MaxWorkers := 10

  /** The reason written for every failed id. */
  const FetchFailed := "fetch_failed"

  /** `x or default` for an optional integer argument: None and 0 fall back
      to the default, any other value (negative ones included) is kept. */
  function OrDefault(x: Option<int>, default: int): (r: int)
    ensures x.Some? && x.value != 0 ==> r == x.value
    ensures x.None? || x == Some(0) ==> r == default
  {
    if x.Some? && x.value != 0 then x.value else default
  }

  /** Python's `ids[start:]`, negative starts included. */
  function SliceFrom(ids: seq<string>, start: int): (r: seq<string>)
    ensures 0 <= start <= |ids| ==> r == ids[start..]
    ensures start >= |ids| ==> r == []
  {
    if start >= |ids| then []
    else if start >= 0 then ids[start..]
    else if -start <= |ids| then ids[|ids| + start..]
    else ids
  }

  // One id through the pool

  /** The dict `process_one` returns: `{id, success: True, product}` or
      `{id, success: False, product: None}`. */
  datatype Outcome = Succeeded(id: string, product: Product) | Failed(id: string)

  /** A result `executor.map` yields, or the exception it re-raises. */
  datatype Processed = Done(outcome: Outcome) | Raised

  /** `process_one`: fetch with the default budget, then transform. */
  function ProcessOne(productId: string, server: nat -> Attempt, htmlText: string -> string): Processed
  {
    var fetched := Fetch(server, MaxRetries);
    if !fetched.success || !Truthy(fetched.payload) then Done(Failed(productId))
    else
      match Normalize(fetched.payload, htmlText)
      case Raises => Raised
      case Absent => Done(Failed(productId))
      case Built(p) => Done(Succeeded(productId, p))
  }

  /** `process_one` reports success exactly when the fetch succeeded, the
      payload is truthy and the transform builds a record, which is then the
      product; it raises only when the transform raises; a failure carries
      no product; the id is always the one asked for. */
  lemma ProcessOneContract(productId: string, server: nat -> Attempt, htmlText: string -> string)
    ensures var r := ProcessOne(productId, server, htmlText);
      var f := Fetch(server, MaxRetries);
      && (r.Done? ==> r.outcome.id == productId)
      && (r.Done? && r.outcome.Succeeded? <==>
            f.success && Truthy(f.payload) && Normalize(f.payload, htmlText).Built?)
      && (r.Done? && r.outcome.Succeeded? ==> r.outcome.product == Normalize(f.payload, htmlText).product)
      && (r == Raised <==> f.success && Truthy(f.payload) && Normalize(f.payload, htmlText) == Raises)
      && (!f.success ==> r == Done(Failed(productId)))
  {
  }

  /** The results `executor.map(process_one, ids)` yields, in submission
      order; `net(i)` scripts the server's answers for the i-th id. */
  function Results(ids: seq<string>, net: nat -> nat -> Attempt, htmlText: string -> string): (r: seq<Processed>)
    ensures |r| == |ids|
    ensures forall i :: 0 <= i < |ids| ==> r[i] == ProcessOne(ids[i], net(i), htmlText)
  {
    seq(|ids|, i requires 0 <= i < |ids| => ProcessOne(ids[i], net(i), htmlText))
  }

  // Batching

  /** The batches of exactly `b` records that flushing `s` in order fills. */
  function FullBatches(s: seq<Product>, b: int): seq<seq<Product>>
    requires b >= 1
    decreases |s|
  {
    if |s| < b then [] else [s[..b]] + FullBatches(s[b..], b)
  }

  /** The records left in memory after those full batches. */
  function Remainder(s: seq<Product>, b: int): seq<Product>
    requires b >= 1
    decreases |s|
  {
    if |s| < b then s else Remainder(s[b..], b)
  }

  /** Every batch file written for the successes `s`: the full batches, then
      the remainder when it is not empty. */
  function Batches(s: seq<Product>, b: int): seq<seq<Product>>
    requires b >= 1
  {
    FullBatches(s, b) + (if Remainder(s, b) == [] then [] else [Remainder(s, b)])
  }

  function Concat(bs: seq<seq<Product>>): seq<Product>
  {
    if bs == [] then [] else bs[0] + Concat(bs[1..])
  }

  lemma {:induction false} ConcatAppend(a: seq<seq<Product>>, b: seq<seq<Product>>)
    ensures Concat(a + b) == Concat(a) + Concat(b)
    decreases |a|
  {
    if a == [] {
      assert a + b == b;
    } else {
      assert (a + b)[0] == a[0];
      assert (a + b)[1..] == a[1..] + b;
      ConcatAppend(a[1..], b);
    }
  }

  /** Splitting `s`: the full batches followed by the remainder give back
      `s`; each full batch holds `b` records and the remainder fewer. */
  lemma {:induction false} SplitSpec(s: seq<Product>, b: int)
    requires b >= 1
    ensures Concat(FullBatches(s, b)) + Remainder(s, b) == s
    ensures forall c :: 0 <= c < |FullBatches(s, b)| ==> |FullBatches(s, b)[c]| == b
    ensures |Remainder(s, b)| < b
    decreases |s|
  {
    if |s| >= b {
      SplitSpec(s[b..], b);
      assert s == s[..b] + s[b..];
    }
  }

  /** One more success: it joins the remainder, which becomes a full batch
      when it reaches `b` records. */
  lemma {:induction false} SplitSnoc(s: seq<Product>, p: Product, b: int)
    requires b >= 1
    ensures |Remainder(s, b)| + 1 == b ==>
      FullBatches(s + [p], b) == FullBatches(s, b) + [Remainder(s, b) + [p]] && Remainder(s + [p], b) == []
    ensures |Remainder(s, b)| + 1 < b ==>
      FullBatches(s + [p], b) == FullBatches(s, b) && Remainder(s + [p], b) == Remainder(s, b) + [p]
    decreases |s|
  {
    if |s| >= b {
      assert (s + [p])[..b] == s[..b];
      assert (s + [p])[b..] == s[b..] + [p];
      SplitSnoc(s[b..], p, b);
    } else if |s| + 1 == b {
      assert (s + [p])[..b] == s + [p];
      assert (s + [p])[b..] == [];
    }
  }

  /** The batch files written for `s`: together they are `s` in order, all
      but the last hold exactly `b` records, the last holds 1 to `b`, and
      there is none only when there is no success. */
  lemma BatchesContract(s: seq<Product>, b: int)
    requires b >= 1
    ensures Concat(Batches(s, b)) == s
    ensures forall c :: 0 <= c < |Batches(s, b)| - 1 ==> |Batches(s, b)[c]| == b
    ensures Batches(s, b) != [] ==> 1 <= |Batches(s, b)[|Batches(s, b)| - 1]| <= b
    ensures Batches(s, b) == [] <==> s == []
  {
    SplitSpec(s, b);
    var full := FullBatches(s, b);
    var rest := if Remainder(s, b) == [] then [] else [Remainder(s, b)];
    ConcatAppend(full, rest);
    if rest != [] {
      assert Concat(rest) == Remainder(s, b) + Concat([]);
    }
  }

  /** The number of records in batches of which all but the last are full. */
  lemma {:induction false} ConcatLength(bs: seq<seq<Product>>, b: int)
    requires bs != []
    requires forall c :: 0 <= c < |bs| - 1 ==> |bs[c]| == b
    ensures |Concat(bs)| == (|bs| - 1) * b + |bs[|bs| - 1]|
    decreases |bs|
  {
    if |bs| > 1 {
      ConcatLength(bs[1..], b);
      assert |Concat(bs)| == b + (|bs| - 2) * b + |bs[|bs| - 1]|;
    }
  }

  /** The batch files after writing `bs[c]` to index `f + c`, in order. */
  function WriteAll(files: map<int, BatchFile>, f: int, bs: seq<seq<Product>>): map<int, BatchFile>
    decreases |bs|
  {
    if bs == [] then files
    else WriteAll(files, f, bs[..|bs| - 1])[f + |bs| - 1 := Records(bs[|bs| - 1])]
  }

  /** Writing one more batch writes it at the index after the others. */
  lemma WriteAllSnoc(files: map<int, BatchFile>, f: int, bs: seq<seq<Product>>, last: seq<Product>)
    ensures WriteAll(files, f, bs + [last]) == WriteAll(files, f, bs)[f + |bs| := Records(last)]
  {
    assert (bs + [last])[..|bs|] == bs;
  }

  /** Writing `bs` from `f` on adds the files `f` .. `f + |bs| - 1`, each
      holding its batch, and leaves every other file as it was. */
  lemma {:induction false} WriteAllAt(files: map<int, BatchFile>, f: int, bs: seq<seq<Product>>)
    ensures forall j :: j in WriteAll(files, f, bs) <==> j in files || f <= j < f + |bs|
    ensures forall j :: f <= j < f + |bs| ==> WriteAll(files, f, bs)[j] == Records(bs[j - f])
    ensures forall j :: j in files && !(f <= j < f + |bs|) ==> WriteAll(files, f, bs)[j] == files[j]
    decreases |bs|
  {
    if bs != [] {
      var init := bs[..|bs| - 1];
      WriteAllAt(files, f, init);
      assert forall c :: 0 <= c < |init| ==> init[c] == bs[c];
    }
  }

  // The result loop

  /** The variables of the result loop, and the disk they write to. */
  datatype Loop = Loop(
    disk: Disk,
    batch: seq<Product>,
    fileIndex: int,
    success: nat,
    fail: nat,
    processed: nat,
    crashed: bool)

  /** Routing one outcome: a success joins the batch, a failure is logged. */
  function Route(s: Loop, o: Outcome): Loop
  {
    match o
    case Succeeded(_, p) => s.(batch := s.batch + [p], success := s.success + 1)
    case Failed(id) => s.(fail := s.fail + 1, disk := AppendFailureTo(s.disk, id, FetchFailed))
  }

  /** A batch that has reached the batch size is saved and a new one begun. */
  function Spill(s: Loop, batchSize: int): Loop
  {
    if |s.batch| >= batchSize then
      s.(disk := SaveBatchTo(s.disk, s.batch, s.fileIndex), batch := [], fileIndex := s.fileIndex + 1)
    else s
  }

  /** One iteration of the result loop. */
  function Step(s: Loop, o: Outcome, batchSize: int): Loop
  {
    Spill(Route(s.(processed := s.processed + 1), o), batchSize)
  }

  /** The result loop over `results`: it stops at the first result that
      raises. */
  function Consume(s: Loop, results: seq<Processed>, batchSize: int): Loop
    decreases |results|
  {
    if results == [] then s
    else
      var prev := Consume(s, results[..|results| - 1], batchSize);
      if prev.crashed then prev
      else
        match results[|results| - 1]
        case Raised => prev.(crashed := true)
        case Done(o) => Step(prev, o, batchSize)
  }

  /** The final flush after the pool closes normally: a non-empty leftover
      batch goes to the next index. */
  function Flush(s: Loop): Loop
  {
    if !s.crashed && s.batch != [] then s.(disk := SaveBatchTo(s.disk, s.batch, s.fileIndex)) else s
  }

  predicate NoRaise(results: seq<Processed>) {
    forall i :: 0 <= i < |results| ==> results[i].Done?
  }

  /** The products of the successful results, in result order. */
  function Successes(results: seq<Processed>): seq<Product>
    decreases |results|
  {
    if results == [] then []
    else
      var last := results[|results| - 1];
      Successes(results[..|results| - 1]) +
        (if last.Done? && last.outcome.Succeeded? then [last.outcome.product] else [])
  }

  /** The ids of the failed results, in result order. */
  function FailedIds(results: seq<Processed>): seq<string>
    decreases |results|
  {
    if results == [] then []
    else
      var last := results[|results| - 1];
      FailedIds(results[..|results| - 1]) +
        (if last.Done? && last.outcome.Failed? then [last.outcome.id] else [])
  }

  /** One `(id, "fetch_failed")` row per id, in order. */
  function FailureRows(ids: seq<string>): seq<LogLine>
    decreases |ids|
  {
    if ids == [] then [] else FailureRows(ids[..|ids| - 1]) + [Row(ids[|ids| - 1], FetchFailed)]
  }

  /** The lines the failure log gains for the failed ids: the header first
      when the log did not exist and there is a failure, then the rows. */
  function LogGain(logExists: bool, ids: seq<string>): seq<LogLine>
  {
    (if logExists || ids == [] then [] else [Header]) + FailureRows(ids)
  }

  /** The rows name the failed ids and nothing else, one each, in order. */
  lemma {:induction false} FailureRowsSpec(ids: seq<string>)
    ensures |FailureRows(ids)| == |ids|
    ensures forall i :: 0 <= i < |ids| ==> FailureRows(ids)[i] == Row(ids[i], FetchFailed)
    decreases |ids|
  {
    if ids != [] {
      var init := ids[..|ids| - 1];
      FailureRowsSpec(init);
      assert forall i :: 0 <= i < |init| ==> init[i] == ids[i];
    }
  }

  /** The loop after one more result, when it had not stopped before. */
  lemma ConsumeNext(s: Loop, results: seq<Processed>, i: nat, batchSize: int)
    requires i < |results|
    requires !Consume(s, results[..i], batchSize).crashed
    ensures results[i].Raised? ==>
      Consume(s, results[..i + 1], batchSize) == Consume(s, results[..i], batchSize).(crashed := true)
    ensures results[i].Done? ==>
      Consume(s, results[..i + 1], batchSize) == Step(Consume(s, results[..i], batchSize), results[i].outcome, batchSize)
  {
    assert results[..i + 1][..i] == results[..i];
  }

  /** Once the loop has stopped on a raise, later results change nothing. */
  lemma {:induction false} ConsumeCrashSticks(s: Loop, results: seq<Processed>, i: nat, j: nat, batchSize: int)
    requires i <= j <= |results|
    requires Consume(s, results[..i], batchSize).crashed
    ensures Consume(s, results[..j], batchSize) == Consume(s, results[..i], batchSize)
    decreases j - i
  {
    if j > i {
      ConsumeCrashSticks(s, results, i, j - 1, batchSize);
      assert results[..j][..j - 1] == results[..j - 1];
    }
  }

  lemma NoRaiseInit(results: seq<Processed>)
    requires results != [] && NoRaise(results)
    ensures NoRaise(results[..|results| - 1]) && results[|results| - 1].Done?
  {
    var init := results[..|results| - 1];
    forall i | 0 <= i < |init| ensures init[i].Done? {
      assert init[i] == results[i];
    }
  }

  /** Without a raise the loop processes every result and never stops:
      processed = success + fail = the number of results. */
  lemma {:induction false} ConsumeCounts(s: Loop, results: seq<Processed>, batchSize: int)
    requires !s.crashed && NoRaise(results)
    ensures var r := Consume(s, results, batchSize);
      && !r.crashed
      && r.processed == s.processed + |results|
      && r.success == s.success + |Successes(results)|
      && r.fail == s.fail + |FailedIds(results)|
      && |Successes(results)| + |FailedIds(results)| == |results|
    decreases |results|
  {
    if results != [] {
      var init := results[..|results| - 1];
      NoRaiseInit(results);
      ConsumeCounts(s, init, batchSize);
    }
  }

  /** One iteration's effect on the failure log. */
  lemma StepLog(s: Loop, o: Outcome, batchSize: int)
    ensures Step(s, o, batchSize).disk.logExists == (s.disk.logExists || o.Failed?)
    ensures o.Succeeded? ==> Step(s, o, batchSize).disk.log == s.disk.log
    ensures o.Failed? ==>
      Step(s, o, batchSize).disk.log == s.disk.log + (if s.disk.logExists then [] else [Header]) + [Row(o.id, FetchFailed)]
  {
  }

  /** The disk after `append_failed_record(id, "fetch_failed")` for each id
      in turn. */
  function AppendFailures(d: Disk, ids: seq<string>): Disk
    decreases |ids|
  {
    if ids == [] then d
    else AppendFailureTo(AppendFailures(d, ids[..|ids| - 1]), ids[|ids| - 1], FetchFailed)
  }

  /** Logging failures one by one leaves the batch files alone and extends
      the log by exactly `LogGain`: one header if the log was new, then one
      row per id in order. */
  lemma {:induction false} AppendFailuresSpec(d: Disk, ids: seq<string>)
    ensures AppendFailures(d, ids).batches == d.batches
    ensures AppendFailures(d, ids).logExists == (d.logExists || ids != [])
    ensures AppendFailures(d, ids).log == d.log + LogGain(d.logExists, ids)
    decreases |ids|
  {
    if ids != [] {
      var init := ids[..|ids| - 1];
      var id := ids[|ids| - 1];
      AppendFailuresSpec(d, init);
      var before := AppendFailures(d, init);
      assert FailureRows(ids) == FailureRows(init) + [Row(id, FetchFailed)];
      if d.logExists || init != [] {
        assert before.logExists;
        calc {
          AppendFailures(d, ids).log;
          before.log + [Row(id, FetchFailed)];
          d.log + LogGain(d.logExists, init) + [Row(id, FetchFailed)];
          d.log + ((if d.logExists then [] else [Header]) + FailureRows(init) + [Row(id, FetchFailed)]);
        }
      } else {
        assert init == [] && FailureRows(init) == [];
        assert LogGain(d.logExists, ids) == [Header, Row(id, FetchFailed)];
      }
    }
  }

  /** Without a raise the loop logs the failed ids in order and nothing
      else. */
  lemma {:induction false} ConsumeLog(s: Loop, results: seq<Processed>, batchSize: int)
    requires !s.crashed && NoRaise(results)
    ensures var r := Consume(s, results, batchSize);
      && r.disk.logExists == AppendFailures(s.disk, FailedIds(results)).logExists
      && r.disk.log == AppendFailures(s.disk, FailedIds(results)).log
    decreases |results|
  {
    if results != [] {
      var init := results[..|results| - 1];
      NoRaiseInit(results);
      ConsumeLog(s, init, batchSize);
      ConsumeCounts(s, init, batchSize);
      var last := results[|results| - 1];
      var ids := FailedIds(init);
      StepLog(Consume(s, init, batchSize), last.outcome, batchSize);
      if last.outcome.Failed? {
        assert FailedIds(results) == ids + [last.outcome.id];
        assert (ids + [last.outcome.id])[..|ids|] == ids;
      } else {
        assert FailedIds(results) == ids;
      }
    }
  }

  /** The loop stops at the first result that raises: the state is the one
      reached on the results before it, marked crashed. */
  lemma ConsumeStopsAtRaise(s: Loop, results: seq<Processed>, i: nat, batchSize: int)
    requires !s.crashed
    requires i < |results| && results[i] == Raised && NoRaise(results[..i])
    ensures Consume(s, results, batchSize) == Consume(s, results[..i], batchSize).(crashed := true)
  {
    assert Consume(s, results[..i + 1], batchSize) == Consume(s, results[..i], batchSize).(crashed := true) by {
      ConsumeCounts(s, results[..i], batchSize);
      ConsumeNext(s, results, i, batchSize);
    }
    assert Consume(s, results, batchSize) == Consume(s, results[..i + 1], batchSize) by {
      ConsumeCrashSticks(s, results, i + 1, |results|, batchSize);
      assert results[..|results|] == results;
    }
  }

  /** The loop invariant of the batch files for a positive batch size:
      the full batches of the successes so far have been written from index
      `f` on, the rest of them is the in-memory batch, and the next index
      follows the last file written. */
  ghost predicate Batched(s: Loop, orig: map<int, BatchFile>, f: int, succ: seq<Product>, b: int)
    requires b >= 1
  {
    && s.disk.batches == WriteAll(orig, f, FullBatches(succ, b))
    && s.batch == Remainder(succ, b)
    && s.fileIndex == f + |FullBatches(succ, b)|
  }

  /** A success keeps the invariant, with its product added. */
  lemma SucceededBatched(s: Loop, id: string, p: Product, orig: map<int, BatchFile>, f: int, succ: seq<Product>, b: int)
    requires b >= 1 && Batched(s, orig, f, succ, b)
    ensures Batched(Step(s, Succeeded(id, p), b), orig, f, succ + [p], b)
  {
    SplitSpec(succ, b);
    SplitSnoc(succ, p, b);
    var full := FullBatches(succ, b);
    var rem := Remainder(succ, b);
    var r := Step(s, Succeeded(id, p), b);
    if |rem| + 1 == b {
      var bs := full + [rem + [p]];
      assert bs[..|bs| - 1] == full;
      assert WriteAll(orig, f, bs) == WriteAll(orig, f, full)[f + |full| := Records(rem + [p])];
      assert r.disk.batches == s.disk.batches[s.fileIndex := Records(rem + [p])];
    } else {
      assert r.batch == rem + [p];
    }
  }

  /** A failure keeps the invariant: the batch files are untouched. */
  lemma FailedBatched(s: Loop, id: string, orig: map<int, BatchFile>, f: int, succ: seq<Product>, b: int)
    requires b >= 1 && Batched(s, orig, f, succ, b)
    ensures Batched(Step(s, Failed(id), b), orig, f, succ, b)
  {
    SplitSpec(succ, b);
    var r := Step(s, Failed(id), b);
    assert r.batch == s.batch && |r.batch| < b;
    assert r.disk.batches == s.disk.batches;
  }

  /** Without a raise, the loop keeps the invariant over all the results. */
  lemma {:induction false} ConsumeBatched(s: Loop, results: seq<Processed>, orig: map<int, BatchFile>, f: int, succ: seq<Product>, b: int)
    requires b >= 1 && !s.crashed && NoRaise(results) && Batched(s, orig, f, succ, b)
    ensures Batched(Consume(s, results, b), orig, f, succ + Successes(results), b)
    decreases |results|
  {
    if results == [] {
      assert succ + [] == succ;
    } else {
      var init := results[..|results| - 1];
      NoRaiseInit(results);
      ConsumeBatched(s, init, orig, f, succ, b);
      ConsumeCounts(s, init, b);
      var last := results[|results| - 1];
      assert last.Done?;
      var prev := Consume(s, init, b);
      match last.outcome {
        case Succeeded(id, p) =>
          SucceededBatched(prev, id, p, orig, f, succ + Successes(init), b);
          assert succ + Successes(results) == succ + Successes(init) + [p];
        case Failed(id) =>
          FailedBatched(prev, id, orig, f, succ + Successes(init), b);
          assert Successes(results) == Successes(init);
      }
    }
  }

  /** For a positive batch size, a loop that ends without a raise followed
      by the final flush has written exactly `Batches(successes)` from index
      `f` on. */
  lemma RunWritesBatches(d: Disk, f: int, results: seq<Processed>, b: int)
    requires b >= 1 && NoRaise(results)
    ensures Flush(Consume(Loop(d, [], f, 0, 0, 0, false), results, b)).disk.batches ==
      WriteAll(d.batches, f, Batches(Successes(results), b))
  {
    var s := Loop(d, [], f, 0, 0, 0, false);
    assert Batched(s, d.batches, f, [], b);
    ConsumeBatched(s, results, d.batches, f, [], b);
    ConsumeCounts(s, results, b);
    assert [] + Successes(results) == Successes(results);
    var succ := Successes(results);
    var full := FullBatches(succ, b);
    if Remainder(succ, b) != [] {
      var bs := Batches(succ, b);
      assert bs[..|bs| - 1] == full;
    } else {
      assert Batches(succ, b) == full;
    }
  }

  /** A run stopped by a raise writes only the full batches of the
      successes before it: the in-memory batch is lost. */
  lemma CrashedRunWritesFullBatches(d: Disk, f: int, results: seq<Processed>, i: nat, b: int)
    requires b >= 1
    requires i < |results| && results[i] == Raised && NoRaise(results[..i])
    ensures var r := Consume(Loop(d, [], f, 0, 0, 0, false), results, b);
      r.crashed && Flush(r) == r &&
      r.disk.batches == WriteAll(d.batches, f, FullBatches(Successes(results[..i]), b))
  {
    var s := Loop(d, [], f, 0, 0, 0, false);
    ConsumeStopsAtRaise(s, results, i, b);
    assert Batched(s, d.batches, f, [], b);
    ConsumeBatched(s, results[..i], d.batches, f, [], b);
    assert [] + Successes(results[..i]) == Successes(results[..i]);
  }

  // The whole run

  /** The summary a run reports. */
  datatype Report = Report(
    total: nat,
    startIndex: int,
    toProcess: nat,
    success: nat,
    fail: nat,
    processed: nat,
    crashed: bool)

  /** The ids left to process after the resume plan: `ids[start_index:]`. */
  function Todo(d: Disk, rows: seq<seq<string>>, batchSize: int): seq<string>
  {
    SliceFrom(ReadIds(rows, None), ResumeInfo(d.batches, batchSize).0)
  }

  /** The result loop over the remaining ids, from the next file index. */
  function Consumed(d: Disk, rows: seq<seq<string>>, batchSize: int, net: nat -> nat -> Attempt,
                    htmlText: string -> string): Loop
  {
    Consume(Loop(d, [], ResumeInfo(d.batches, batchSize).1, 0, 0, 0, false),
            Results(Todo(d, rows, batchSize), net, htmlText), batchSize)
  }

  /** `run_crawl` with the batch size already defaulted, as a value: the new
      disk and the report. */
  function Crawl(d: Disk, rows: seq<seq<string>>, batchSize: int, net: nat -> nat -> Attempt,
                 htmlText: string -> string): (Disk, Report)
  {
    var total := |ReadIds(rows, None)|;
    var start := ResumeInfo(d.batches, batchSize).0;
    var todo := Todo(d, rows, batchSize);
    if todo == [] then (d, Report(total, start, 0, 0, 0, 0, false))
    else
      var s := Consumed(d, rows, batchSize, net, htmlText);
      (Flush(s).disk, Report(total, start, |todo|, s.success, s.fail, s.processed, s.crashed))
  }

  /** The run with the worker count as well: once some id is left, the pool
      is created, and a pool of 0 or fewer workers raises `ValueError` before
      any id is submitted. */
  function CrawlPool(d: Disk, rows: seq<seq<string>>, batchSize: int, maxWorkers: int,
                     net: nat -> nat -> Attempt, htmlText: string -> string): (Disk, Report)
  {
    var todo := Todo(d, rows, batchSize);
    if todo != [] && maxWorkers <= 0 then
      (d, Report(|ReadIds(rows, None)|, ResumeInfo(d.batches, batchSize).0, |todo|, 0, 0, 0, true))
    else Crawl(d, rows, batchSize, net, htmlText)
  }

  /** A positive worker count does not change the run: the results are the
      same whatever the size of the pool. A worker count of 0 or less stops
      a run that has ids left before any of them is processed: no file is
      written and no failure is logged. A run with nothing left returns
      before the pool is created, whatever the worker count. */
  lemma PoolSize(d: Disk, rows: seq<seq<string>>, batchSize: int, maxWorkers: int,
                 net: nat -> nat -> Attempt, htmlText: string -> string)
    ensures maxWorkers >= 1 || Todo(d, rows, batchSize) == [] ==>
      CrawlPool(d, rows, batchSize, maxWorkers, net, htmlText) == Crawl(d, rows, batchSize, net, htmlText)
    ensures var (d', rep) := CrawlPool(d, rows, batchSize, maxWorkers, net, htmlText);
      maxWorkers <= 0 && Todo(d, rows, batchSize) != [] ==>
        d' == d && rep.crashed && rep.processed == 0 && rep.toProcess >= 1
  {
  }

  /** The worker count `run_crawl` uses is not positive exactly when it is
      given a negative one: a missing or zero count becomes the default 10. */
  lemma WorkerCountDefault(maxWorkers: Option<int>)
    ensures OrDefault(maxWorkers, MaxWorkers) <= 0 <==> maxWorkers.Some? && maxWorkers.value < 0
    ensures OrDefault(maxWorkers, MaxWorkers) >= 1 <==> !(maxWorkers.Some? && maxWorkers.value < 0)
  {
  }

  /** The body of the result loop for a result that did not raise: count
      it, route it, and save the batch once it is full. */
  method HandleResult(store: FileStore, batch: seq<Product>, fileIndex: int, successCount: nat, failCount: nat,
                      processedCount: nat, outcome: Outcome, batchSize: int)
    returns (batch': seq<Product>, fileIndex': int, successCount': nat, failCount': nat, processedCount': nat)
    modifies store
    ensures Loop(store.Snapshot(), batch', fileIndex', successCount', failCount', processedCount', false) ==
      Step(Loop(old(store.Snapshot()), batch, fileIndex, successCount, failCount, processedCount, false), outcome, batchSize)
  {
    batch', fileIndex', successCount', failCount' := batch, fileIndex, successCount, failCount;
    processedCount' := processedCount + 1;
    match outcome {
      case Succeeded(_, product) =>
        batch' := batch' + [product];
        successCount' := successCount' + 1;
      case Failed(id) =>
        failCount' := failCount' + 1;
        store.AppendFailedRecord(id, FetchFailed);
    }
    if |batch'| >= batchSize {
      store.SaveBatch(batch', fileIndex');
      batch' := [];
      fileIndex' := fileIndex' + 1;
    }
  }

  /** The body of `run_crawl` (and of the older `run`) once the batch size
      and worker count are known: read the ids, plan the resume, return
      early when nothing is left, create the pool, then consume the results
      in order. */
  method CrawlCore(store: FileStore, rows: seq<seq<string>>, batchSize: int, maxWorkers: int,
                   net: nat -> nat -> Attempt, htmlText: string -> string) returns (report: Report)
    modifies store
    ensures (store.Snapshot(), report) ==
      CrawlPool(old(store.Snapshot()), rows, batchSize, maxWorkers, net, htmlText)
  {
    ghost var d := store.Snapshot();
    var ids := ReadIdsFromCsv(rows, None);
    var batch: seq<Product> := [];
    var successCount, failCount, processedCount := 0, 0, 0;
    var startIndex, fileIndex := store.GetResumeInfo(batchSize);
    var idsToProcess := SliceFrom(ids, startIndex);
    assert idsToProcess == Todo(d, rows, batchSize);
    if idsToProcess == [] {
      return Report(|ids|, startIndex, 0, 0, 0, 0, false);
    }
    if maxWorkers <= 0 {
      // ThreadPoolExecutor(max_workers=...) raises ValueError outside the try
      return Report(|ids|, startIndex, |idsToProcess|, 0, 0, 0, true);
    }
    ghost var results := Results(idsToProcess, net, htmlText);
    ghost var init := Loop(d, [], fileIndex, 0, 0, 0, false);
    var i := 0;
    assert results[..0] == [];
    while i < |idsToProcess|
      invariant 0 <= i <= |idsToProcess|
      invariant Consume(init, results[..i], batchSize) ==
        Loop(store.Snapshot(), batch, fileIndex, successCount, failCount, processedCount, false)
    {
      var result := ProcessOne(idsToProcess[i], net(i), htmlText);
      assert result == results[i];
      ConsumeNext(init, results, i, batchSize);
      if result.Raised? {
        // executor.map re-raises here: the pool is shut down and nothing more is written
        ConsumeCrashSticks(init, results, i + 1, |results|, batchSize);
        assert results[..|results|] == results;
        return Report(|ids|, startIndex, |idsToProcess|, successCount, failCount, processedCount, true);
      }
      batch, fileIndex, successCount, failCount, processedCount :=
        HandleResult(store, batch, fileIndex, successCount, failCount, processedCount, result.outcome, batchSize);
      i := i + 1;
    }
    assert results[..i] == results;
    if batch != [] {
      store.SaveBatch(batch, fileIndex);
    }
    report := Report(|ids|, startIndex, |idsToProcess|, successCount, failCount, processedCount, false);
  }

  /** `run_crawl`: a missing or zero batch size or worker count falls back to
      the settings; a negative worker count is kept, and the pool rejects
      it. A positive worker count only sizes the pool, whose results are
      consumed in submission order. */
  method RunCrawl(store: FileStore, rows: seq<seq<string>>, batchSize: Option<int>, maxWorkers: Option<int>,
                  net: nat -> nat -> Attempt, htmlText: string -> string) returns (report: Report)
    modifies store
    ensures (store.Snapshot(), report) ==
      CrawlPool(old(store.Snapshot()), rows, OrDefault(batchSize, BatchSize), OrDefault(maxWorkers, MaxWorkers),
                net, htmlText)
  {
    var size := OrDefault(batchSize, BatchSize);
    var workers := OrDefault(maxWorkers, MaxWorkers);
    report := CrawlCore(store, rows, size, workers, net, htmlText);
  }

  // Properties of a whole run

  /** When no id is left after the resume offset, the run returns at once:
      no file is written and no failure is logged. */
  lemma CrawlNothingLeft(d: Disk, rows: seq<seq<string>>, batchSize: int, net: nat -> nat -> Attempt,
                         htmlText: string -> string)
    requires ResumeInfo(d.batches, batchSize).0 >= |ReadIds(rows, None)|
    ensures Crawl(d, rows, batchSize, net, htmlText).0 == d
    ensures Crawl(d, rows, batchSize, net, htmlText).1.processed == 0
  {
  }

  /** The index of the first raise in `results`. */
  lemma FirstRaise(results: seq<Processed>) returns (i: nat)
    requires exists i :: 0 <= i < |results| && results[i] == Raised
    ensures i < |results| && results[i] == Raised && NoRaise(results[..i])
  {
    i := 0;
    while results[i] != Raised
      invariant i < |results|
      invariant NoRaise(results[..i])
      invariant exists k :: i <= k < |results| && results[k] == Raised
      decreases |results| - i
    {
      assert results[..i + 1] == results[..i] + [results[i]];
      i := i + 1;
    }
  }

  /** Only `ids[start:]` is processed, and the run stops exactly when some
      result raises. A run that is not stopped processes every remaining id:
      processed = success + fail = the number of remaining ids, and the
      failure log gains exactly one `(id, "fetch_failed")` row per failed
      id, in id order. */
  lemma CrawlAccounting(d: Disk, rows: seq<seq<string>>, batchSize: int, net: nat -> nat -> Attempt,
                        htmlText: string -> string)
    ensures var (d', rep) := Crawl(d, rows, batchSize, net, htmlText);
      var todo := Todo(d, rows, batchSize);
      var results := Results(todo, net, htmlText);
      && rep.toProcess == |todo|
      && (rep.crashed <==> exists i :: 0 <= i < |results| && results[i] == Raised)
      && (!rep.crashed ==>
            && rep.processed == rep.success + rep.fail == |todo|
            && rep.success == |Successes(results)|
            && rep.fail == |FailedIds(results)|
            && d'.log == d.log + LogGain(d.logExists, FailedIds(results))
            && |d'.log| == |d.log| + rep.fail + (if d.logExists || rep.fail == 0 then 0 else 1))
  {
    var todo := Todo(d, rows, batchSize);
    var results := Results(todo, net, htmlText);
    if todo != [] {
      var s := Loop(d, [], ResumeInfo(d.batches, batchSize).1, 0, 0, 0, false);
      var r := Consume(s, results, batchSize);
      assert r == Consumed(d, rows, batchSize, net, htmlText);
      ConsumeAccounting(s, results, batchSize, r);
      assert Flush(r).disk.log == r.disk.log;
    }
  }

  /** The loop over all the results: it stops exactly when some result
      raises; otherwise it counts every result and logs the failed ids in
      order. */
  lemma ConsumeAccounting(s: Loop, results: seq<Processed>, batchSize: int, r: Loop)
    requires !s.crashed && r == Consume(s, results, batchSize)
    ensures r.crashed <==> exists i :: 0 <= i < |results| && results[i] == Raised
    ensures !r.crashed ==>
      && r.processed == s.processed + |results|
      && r.success == s.success + |Successes(results)|
      && r.fail == s.fail + |FailedIds(results)|
      && |Successes(results)| + |FailedIds(results)| == |results|
      && r.disk.log == s.disk.log + LogGain(s.disk.logExists, FailedIds(results))
      && |r.disk.log| == |s.disk.log| + |FailedIds(results)| +
           (if s.disk.logExists || FailedIds(results) == [] then 0 else 1)
  {
    if exists i :: 0 <= i < |results| && results[i] == Raised {
      var i := FirstRaise(results);
      ConsumeStopsAtRaise(s, results, i, batchSize);
    } else {
      assert NoRaise(results);
      ConsumeCounts(s, results, batchSize);
      ConsumeLog(s, results, batchSize);
      AppendFailuresSpec(s.disk, FailedIds(results));
      FailureRowsSpec(FailedIds(results));
    }
  }

  /** For a positive batch size, a run that is not stopped by a raise writes
      the successful products, in id order, to consecutive files from the
      resume index on: every file but the last holds exactly `batchSize`
      records, the last holds 1 to `batchSize`, and no other file changes. */
  lemma CrawlWritesInOrder(d: Disk, rows: seq<seq<string>>, batchSize: int, net: nat -> nat -> Attempt,
                           htmlText: string -> string)
    requires batchSize >= 1
    ensures var (d', rep) := Crawl(d, rows, batchSize, net, htmlText);
      var succ := Successes(Results(Todo(d, rows, batchSize), net, htmlText));
      var bs := Batches(succ, batchSize);
      !rep.crashed ==>
        && d'.batches == WriteAll(d.batches, ResumeInfo(d.batches, batchSize).1, bs)
        && Concat(bs) == succ
        && (forall c :: 0 <= c < |bs| - 1 ==> |bs[c]| == batchSize)
        && (bs != [] ==> 1 <= |bs[|bs| - 1]| <= batchSize)
  {
    var todo := Todo(d, rows, batchSize);
    var results := Results(todo, net, htmlText);
    BatchesContract(Successes(results), batchSize);
    CrawlAccounting(d, rows, batchSize, net, htmlText);
    if todo != [] && !Crawl(d, rows, batchSize, net, htmlText).1.crashed {
      assert NoRaise(results);
      RunWritesBatches(d, ResumeInfo(d.batches, batchSize).1, results, batchSize);
    }
  }

  /** A run stopped by a raise loses its in-memory batch: only the full
      batches of the successes before the first raise are on disk. */
  lemma CrawlCrashLosesBatch(d: Disk, rows: seq<seq<string>>, batchSize: int, net: nat -> nat -> Attempt,
                             htmlText: string -> string)
    requires batchSize >= 1
    ensures var (d', rep) := Crawl(d, rows, batchSize, net, htmlText);
      var results := Results(Todo(d, rows, batchSize), net, htmlText);
      rep.crashed ==>
        exists i :: 0 <= i < |results| && results[i] == Raised && NoRaise(results[..i]) &&
          d'.batches == WriteAll(d.batches, ResumeInfo(d.batches, batchSize).1,
                                 FullBatches(Successes(results[..i]), batchSize))
  {
    var results := Results(Todo(d, rows, batchSize), net, htmlText);
    CrawlAccounting(d, rows, batchSize, net, htmlText);
    if Crawl(d, rows, batchSize, net, htmlText).1.crashed {
      var i := FirstRaise(results);
      CrashedRunWritesFullBatches(d, ResumeInfo(d.batches, batchSize).1, results, i, batchSize);
    }
  }

  /** No batch file lies after the first gap. */
  ghost predicate NoFileAfterGap(files: map<int, BatchFile>) {
    forall j :: j in files ==> 1 <= j <= LastContiguous(files)
  }

  /** Batches written from index k + 1 after files 1..k, and no other
      file: files 1..k + |bs| with no gap, the last holding the last batch. */
  lemma WriteAllAfter(orig: map<int, BatchFile>, k: nat, bs: seq<seq<Product>>)
    requires bs != []
    requires forall j :: j in orig <==> 1 <= j <= k
    ensures LastContiguous(WriteAll(orig, k + 1, bs)) == k + |bs|
    ensures WriteAll(orig, k + 1, bs)[k + |bs|] == Records(bs[|bs| - 1])
  {
    var files := WriteAll(orig, k + 1, bs);
    WriteAllAt(orig, k + 1, bs);
    assert forall j :: 1 <= j <= k + |bs| ==> j in files;
    assert k + |bs| + 1 !in files;
    LastContiguousIs(files, k + |bs|);
  }

  /** Writing the batches for `s` after files 1..k leaves files
      1..k + |batches| with no gap, and the next plan starts at k * b + |s|. */
  lemma ResumeAfterWrites(orig: map<int, BatchFile>, k: nat, s: seq<Product>, b: int)
    requires b >= 1 && s != []
    requires forall j :: j in orig <==> 1 <= j <= k
    ensures var bs := Batches(s, b);
      ResumeInfo(WriteAll(orig, k + 1, bs), b) == (k * b + |s|, k + |bs| + 1)
  {
    var bs := Batches(s, b);
    var n := |bs|;
    var files := WriteAll(orig, k + 1, bs);
    assert n >= 1 && |s| == (n - 1) * b + |bs[n - 1]| by {
      BatchesContract(s, b);
      ConcatLength(bs, b);
    }
    assert ResumeInfo(files, b) == ((k + n - 1) * b + |bs[n - 1]|, k + n + 1) by {
      WriteAllAfter(orig, k, bs);
      ResumeInfoContract(files, b);
    }
    assert (k + n - 1) * b == k * b + (n - 1) * b;
  }

  /** The next plan after writing the batches of `succ` from the planned
      index, over files 1..K with no gap: unchanged when nothing is written,
      else K * b + |succ|, whatever file K held. */
  lemma ResumeAfterBatches(files: map<int, BatchFile>, succ: seq<Product>, b: int)
    requires b >= 1 && NoFileAfterGap(files)
    ensures ResumeInfo(WriteAll(files, ResumeInfo(files, b).1, Batches(succ, b)), b).0 ==
      if succ == [] then ResumeInfo(files, b).0 else LastContiguous(files) * b + |succ|
  {
    ResumeInfoContract(files, b);
    if succ == [] {
      BatchesContract(succ, b);
    } else {
      var k := LastContiguous(files);
      ResumeAfterWrites(files, k, succ, b);
    }
  }

  /** The next plan after a run that was not stopped by a raise, from files
      1..K with no gap: unchanged when nothing was written, else
      K * batchSize + success, whatever file K held. */
  lemma ResumeStep(d: Disk, rows: seq<seq<string>>, batchSize: int, net: nat -> nat -> Attempt,
                   htmlText: string -> string)
    requires batchSize >= 1
    requires NoFileAfterGap(d.batches)
    ensures var (d', rep) := Crawl(d, rows, batchSize, net, htmlText);
      !rep.crashed ==>
        ResumeInfo(d'.batches, batchSize).0 ==
          if rep.success == 0 then ResumeInfo(d.batches, batchSize).0
          else LastContiguous(d.batches) * batchSize + rep.success
  {
    var succ := Successes(Results(Todo(d, rows, batchSize), net, htmlText));
    CrawlWritesInOrder(d, rows, batchSize, net, htmlText);
    CrawlAccounting(d, rows, batchSize, net, htmlText);
    ResumeAfterBatches(d.batches, succ, batchSize);
  }

  /** The resume offset counts written records only. After a run that was
      not stopped by a raise, starting from files with no gap whose last one
      is full, the next plan starts `success` ids later, not `processed`
      ids later: the two agree exactly when no id failed. */
  lemma ResumeCountsOnlySuccesses(d: Disk, rows: seq<seq<string>>, batchSize: int, net: nat -> nat -> Attempt,
                                  htmlText: string -> string)
    requires batchSize >= 1
    requires NoFileAfterGap(d.batches)
    requires var k := LastContiguous(d.batches); k >= 1 ==> RecordCount(d.batches[k]) == batchSize
    ensures var (d', rep) := Crawl(d, rows, batchSize, net, htmlText);
      var start := ResumeInfo(d.batches, batchSize).0;
      !rep.crashed ==>
        && ResumeInfo(d'.batches, batchSize).0 == start + rep.success
        && (ResumeInfo(d'.batches, batchSize).0 == start + rep.processed <==> rep.fail == 0)
  {
    var (d', rep) := Crawl(d, rows, batchSize, net, htmlText);
    var start := ResumeInfo(d.batches, batchSize).0;
    var k := LastContiguous(d.batches);
    if !rep.crashed {
      assert ResumeInfo(d'.batches, batchSize).0 == if rep.success == 0 then start else k * batchSize + rep.success by {
        ResumeStep(d, rows, batchSize, net, htmlText);
      }
      assert start == k * batchSize by {
        FullLastFileStart(d.batches, batchSize);
      }
      assert rep.processed == rep.success + rep.fail by {
        CrawlAccounting(d, rows, batchSize, net, htmlText);
      }
      assert ResumeInfo(d'.batches, batchSize).0 == start + rep.success;
    }
  }

  /** A run that left its last file short makes the next plan skip ids: from
      files 1..K with no gap whose last one holds c < batchSize records, a
      run that writes anything moves the start by success + (batchSize - c). */
  lemma ResumeSkipsAfterShortFile(d: Disk, rows: seq<seq<string>>, batchSize: int, net: nat -> nat -> Attempt,
                                  htmlText: string -> string)
    requires batchSize >= 1
    requires NoFileAfterGap(d.batches)
    requires var k := LastContiguous(d.batches); k >= 1 && RecordCount(d.batches[k]) < batchSize
    ensures var (d', rep) := Crawl(d, rows, batchSize, net, htmlText);
      var k := LastContiguous(d.batches);
      !rep.crashed && rep.success >= 1 ==>
        ResumeInfo(d'.batches, batchSize).0 ==
          ResumeInfo(d.batches, batchSize).0 + rep.success + (batchSize - RecordCount(d.batches[k]))
  {
    var (d', rep) := Crawl(d, rows, batchSize, net, htmlText);
    var k := LastContiguous(d.batches);
    if !rep.crashed && rep.success >= 1 {
      assert ResumeInfo(d'.batches, batchSize).0 == k * batchSize + rep.success by {
        ResumeStep(d, rows, batchSize, net, htmlText);
      }
      assert ResumeInfo(d.batches, batchSize).0 == k * batchSize - (batchSize - RecordCount(d.batches[k])) by {
        ShortLastFileStart(d.batches, batchSize);
      }
    }
  }

  /** Idempotence: when every fetch of a run succeeds, starting from files
      with no gap whose last one is full, the next plan starts at the end of
      the id list, and a second run over the same ids does nothing. */
  lemma SecondRunIsIdle(d: Disk, rows: seq<seq<string>>, batchSize: int, net: nat -> nat -> Attempt,
                        net2: nat -> nat -> Attempt, htmlText: string -> string)
    requires batchSize >= 1
    requires NoFileAfterGap(d.batches)
    requires var k := LastContiguous(d.batches); k >= 1 ==> RecordCount(d.batches[k]) == batchSize
    requires ResumeInfo(d.batches, batchSize).0 <= |ReadIds(rows, None)|
    requires var rep := Crawl(d, rows, batchSize, net, htmlText).1; !rep.crashed && rep.fail == 0
    ensures var d' := Crawl(d, rows, batchSize, net, htmlText).0;
      var n := |ReadIds(rows, None)|;
      && ResumeInfo(d'.batches, batchSize).0 == n
      && Crawl(d', rows, batchSize, net2, htmlText) == (d', Report(n, n, 0, 0, 0, 0, false))
  {
    ResumeCountsOnlySuccesses(d, rows, batchSize, net, htmlText);
    CrawlAccounting(d, rows, batchSize, net, htmlText);
    ResumeInfoContract(d.batches, batchSize);
  }

  /** Idleness without a full last file: when every fetch of a run
      succeeds, starting from files with no gap whose last one holds at most
      `batchSize` records, the next plan starts at or past the end of the id
      list (past it when a short last file made the start overshoot), and a
      second run writes nothing and processes nothing. */
  lemma RerunIsIdle(d: Disk, rows: seq<seq<string>>, batchSize: int, net: nat -> nat -> Attempt,
                    net2: nat -> nat -> Attempt, htmlText: string -> string)
    requires batchSize >= 1
    requires NoFileAfterGap(d.batches)
    requires var k := LastContiguous(d.batches); k >= 1 ==> RecordCount(d.batches[k]) <= batchSize
    requires var rep := Crawl(d, rows, batchSize, net, htmlText).1; !rep.crashed && rep.fail == 0
    ensures var d' := Crawl(d, rows, batchSize, net, htmlText).0;
      && ResumeInfo(d'.batches, batchSize).0 >= |ReadIds(rows, None)|
      && Crawl(d', rows, batchSize, net2, htmlText).0 == d'
      && Crawl(d', rows, batchSize, net2, htmlText).1.processed == 0
  {
    var (d', rep) := Crawl(d, rows, batchSize, net, htmlText);
    var n := |ReadIds(rows, None)|;
    var start := ResumeInfo(d.batches, batchSize).0;
    var k := LastContiguous(d.batches);
    assert start >= 0 by {
      ResumeInfoContract(d.batches, batchSize);
    }
    assert rep.success == |Todo(d, rows, batchSize)| by {
      CrawlAccounting(d, rows, batchSize, net, htmlText);
    }
    assert start < n ==> |Todo(d, rows, batchSize)| == n - start;
    assert ResumeInfo(d'.batches, batchSize).0 >= n by {
      ResumeStep(d, rows, batchSize, net, htmlText);
      if rep.success >= 1 {
        if k >= 1 {
          ShortLastFileStart(d.batches, batchSize);
        } else {
          ResumeInfoContract(d.batches, batchSize);
        }
      }
    }
    CrawlNothingLeft(d', rows, batchSize, net2, htmlText);
  }
}
