/** The single-file crawler: the same fetch, transform, batching and resume
    logic as the pipeline, with a `run` that takes its batch size and worker
    count as given, without falling back to the settings for 0. */
module Legacy {
  import opened Values
  import opened Transform
  import opened Extract
  import opened Load
  import opened Pipeline

  /** `run` of the single-file crawler. A batch size or worker count of 0 is
      used as it is: with ids left, `run(max_workers=0)` raises where
      `run_crawl(max_workers=0)` uses the default pool. */
  method Run(store: FileStore, rows: seq<seq<string>>, net: nat -> nat -> Attempt, htmlText: string -> string,
             batchSize: int := 1000, maxWorkers: int := 10) returns (report: Report)
    modifies store
    ensures (store.Snapshot(), report) == CrawlPool(old(store.Snapshot()), rows, batchSize, maxWorkers, net, htmlText)
  {
    report := CrawlCore(store, rows, batchSize, maxWorkers, net, htmlText);
  }

  /** The batch each result saves when the batch size is not positive: the
      product of a success, nothing for a failure. */
  function EachResult(results: seq<Processed>): seq<seq<Product>>
    decreases |results|
  {
    if results == [] then []
    else
      var last := results[|results| - 1];
      EachResult(results[..|results| - 1]) +
        [if last.Done? && last.outcome.Succeeded? then [last.outcome.product] else []]
  }

  /** With a batch size of 0 or less, `len(batch) >= batch_size` holds after
      every result: each result, failures included, is saved to a file of
      its own, in result order. */
  lemma {:induction false} SpillEveryResult(s: Loop, results: seq<Processed>, b: int)
    requires b <= 0 && !s.crashed && NoRaise(results) && s.batch == []
    ensures var r := Consume(s, results, b);
      && r.batch == []
      && r.fileIndex == s.fileIndex + |results|
      && r.disk.batches == WriteAll(s.disk.batches, s.fileIndex, EachResult(results))
    decreases |results|
  {
    if results != [] {
      var n := |results| - 1;
      var prev := Consume(s, results[..n], b);
      assert !prev.crashed && results[n].Done? by {
        NoRaiseInit(results);
        ConsumeCounts(s, results[..n], b);
      }
      NoRaiseInit(results);
      SpillEveryResult(s, results[..n], b);
      assert Consume(s, results, b) == Step(prev, results[n].outcome, b);
      SpillStep(s.disk.batches, s.fileIndex, results, b, prev, Consume(s, results, b));
    }
  }

  /** The inductive step of `SpillEveryResult`: the last result saves its
      batch after those of the results before it. */
  lemma SpillStep(files: map<int, BatchFile>, f: int, results: seq<Processed>, b: int, prev: Loop, r: Loop)
    requires b <= 0 && results != [] && results[|results| - 1].Done?
    requires var n := |results| - 1;
      && prev.batch == [] && prev.fileIndex == f + n
      && prev.disk.batches == WriteAll(files, f, EachResult(results[..n]))
    requires r == Step(prev, results[|results| - 1].outcome, b)
    ensures r.batch == [] && r.fileIndex == f + |results|
    ensures r.disk.batches == WriteAll(files, f, EachResult(results))
  {
    var n := |results| - 1;
    StepSpills(prev, results[n].outcome, b);
    WriteEachResult(files, f, results);
  }

  /** Writing the batch of one more result puts it after the others. */
  lemma WriteEachResult(files: map<int, BatchFile>, f: int, results: seq<Processed>)
    requires results != []
    ensures var n := |results| - 1;
      var last := results[n];
      var saved := if last.Done? && last.outcome.Succeeded? then [last.outcome.product] else [];
      WriteAll(files, f, EachResult(results)) == WriteAll(files, f, EachResult(results[..n]))[f + n := Records(saved)]
  {
    var n := |results| - 1;
    EachResultLength(results[..n]);
    var last := results[n];
    var saved := if last.Done? && last.outcome.Succeeded? then [last.outcome.product] else [];
    WriteAllSnoc(files, f, EachResult(results[..n]), saved);
  }

  /** With a batch size of 0 or less and an empty batch, one iteration saves
      the result's own batch at the current index and moves to the next. */
  lemma StepSpills(s: Loop, o: Outcome, b: int)
    requires b <= 0 && s.batch == []
    ensures var r := Step(s, o, b);
      var saved := if o.Succeeded? then [o.product] else [];
      r.batch == [] && r.fileIndex == s.fileIndex + 1 &&
      r.disk.batches == s.disk.batches[s.fileIndex := Records(saved)]
  {
    if o.Succeeded? {
      assert [] + [o.product] == [o.product];
    }
  }

  /** `run(batch_size=0)` that is not stopped by a raise writes one file per
      remaining id, from the planned index on: the product for a success,
      an empty list for a failure. */
  lemma ZeroBatchSizeFilePerId(d: Disk, rows: seq<seq<string>>, net: nat -> nat -> Attempt, htmlText: string -> string)
    ensures var (d', rep) := Crawl(d, rows, 0, net, htmlText);
      var results := Results(Todo(d, rows, 0), net, htmlText);
      !rep.crashed ==>
        && d'.batches == WriteAll(d.batches, ResumeInfo(d.batches, 0).1, EachResult(results))
        && |EachResult(results)| == rep.processed
  {
    var results := Results(Todo(d, rows, 0), net, htmlText);
    CrawlAccounting(d, rows, 0, net, htmlText);
    if Todo(d, rows, 0) != [] && !Crawl(d, rows, 0, net, htmlText).1.crashed {
      assert NoRaise(results);
      SpillEveryResult(Loop(d, [], ResumeInfo(d.batches, 0).1, 0, 0, 0, false), results, 0);
    }
    EachResultLength(results);
  }

  lemma {:induction false} EachResultLength(results: seq<Processed>)
    ensures |EachResult(results)| == |results|
    decreases |results|
  {
    if results != [] {
      EachResultLength(results[..|results| - 1]);
    }
  }

  /** Over files with no gap, writing `bs` from the planned index leaves a
      plan for batch size 0 that starts at the size of the last batch. */
  lemma ResumeAfterEachResult(files: map<int, BatchFile>, bs: seq<seq<Product>>)
    requires NoFileAfterGap(files) && bs != []
    ensures ResumeInfo(WriteAll(files, ResumeInfo(files, 0).1, bs), 0).0 == |bs[|bs| - 1]|
  {
    var k := LastContiguous(files);
    ResumeInfoContract(files, 0);
    WriteAllAfter(files, k, bs);
    ResumeInfoContract(WriteAll(files, k + 1, bs), 0);
  }

  /** After `run(batch_size=0)` over files with no gap that is not stopped by
      a raise and has at least one id to process, the next plan starts at 1 if
      the last id succeeded and at 0 if it failed: the resume offset no
      longer reflects the ids already processed. */
  lemma ZeroBatchSizeRestarts(d: Disk, rows: seq<seq<string>>, net: nat -> nat -> Attempt, htmlText: string -> string)
    requires NoFileAfterGap(d.batches)
    ensures var (d', rep) := Crawl(d, rows, 0, net, htmlText);
      var results := Results(Todo(d, rows, 0), net, htmlText);
      !rep.crashed && |results| >= 1 ==>
        ResumeInfo(d'.batches, 0).0 ==
          if results[|results| - 1].Done? && results[|results| - 1].outcome.Succeeded? then 1 else 0
  {
    var (d', rep) := Crawl(d, rows, 0, net, htmlText);
    var results := Results(Todo(d, rows, 0), net, htmlText);
    if !rep.crashed && |results| >= 1 {
      var bs := EachResult(results);
      assert d'.batches == WriteAll(d.batches, ResumeInfo(d.batches, 0).1, bs) && |bs| == |results| >= 1 by {
        ZeroBatchSizeFilePerId(d, rows, net, htmlText);
        EachResultLength(results);
      }
      ResumeAfterEachResult(d.batches, bs);
      assert results[|results| - 1].Done? by {
        CrawlAccounting(d, rows, 0, net, htmlText);
      }
    }
  }
}
