/** The load stage: the numbered batch files, the failure log, and the
    resume planner that reads the batch files back. */
module Load {
  import opened Values
  import opened Transform

  /** What reading `batch_%04d.json` back gives: the list of records, a JSON
      document that is not a list, or content that fails to open or parse. */
  datatype BatchFile = Records(items: seq<Product>) | NotAList | Unreadable

  /** One line of the failure log (columns id, error). */
  datatype LogLine = Header | Row(id: string, error: string)

  /** The output directory and the failure log: the batch files by index,
      whether the log file exists, and its lines. */
  datatype Disk = Disk(batches: map<int, BatchFile>, logExists: bool, log: seq<LogLine>)

  /** `save_batch` on a disk: file `fileIndex` is (over)written with the
      batch, nothing else changes. */
  function SaveBatchTo(d: Disk, batch: seq<Product>, fileIndex: int): (r: Disk)
    ensures r.batches.Keys == d.batches.Keys + {fileIndex}
    ensures r.batches[fileIndex] == Records(batch)
    ensures forall j :: j in d.batches && j != fileIndex ==> r.batches[j] == d.batches[j]
    ensures r.logExists == d.logExists && r.log == d.log
  {
    d.(batches := d.batches[fileIndex := Records(batch)])
  }

  /** `append_failed_record` on a disk: one row is appended, preceded by the
      header only when the log did not exist; the log exists afterwards. */
  function AppendFailureTo(d: Disk, id: string, error: string): (r: Disk)
    ensures r.logExists && r.batches == d.batches
    ensures |r.log| == |d.log| + (if d.logExists then 1 else 2)
    ensures r.log[..|d.log|] == d.log && r.log[|r.log| - 1] == Row(id, error)
    ensures !d.logExists ==> r.log[|d.log|] == Header
  {
    d.(logExists := true, log := d.log + (if d.logExists then [] else [Header]) + [Row(id, error)])
  }

  /** The number of records a batch file counts for when resuming: the
      length of its list, 0 for any other content. */
  function RecordCount(f: BatchFile): nat
  {
    match f
    case Records(items) => |items|
    case NotAList => 0
    case Unreadable => 0
  }

  /** The indices 1, ..., n. */
  function Indices(n: nat): set<int>
  {
    if n == 0 then {} else Indices(n - 1) + {n}
  }

  /** The indices 1, ..., n are exactly the integers from 1 to n, and there
      are n of them. */
  lemma {:induction false} IndicesSpec(n: nat)
    ensures forall j :: j in Indices(n) <==> 1 <= j <= n
    ensures |Indices(n)| == n
  {
    if n > 0 {
      IndicesSpec(n - 1);
      assert Indices(n - 1) !! {n};
    }
  }

  /** If files 1..n all exist there are at least n files: the scan ends. */
  lemma RangeFits(files: map<int, BatchFile>, n: nat)
    requires forall j :: 1 <= j <= n ==> j in files
    ensures n <= |files|
  {
    IndicesSpec(n);
    var rest := files.Keys - Indices(n);
    forall j | j in Indices(n)
      ensures j in files.Keys
    {
      assert 1 <= j <= n;
    }
    assert files.Keys == Indices(n) + rest;
    assert Indices(n) !! rest;
    assert |files.Keys| == |Indices(n)| + |rest|;
  }

  /** The scan of `get_resume_info` from index `i` on, knowing that files
      1..i-1 exist: it stops at the first missing index and returns the one
      before it. */
  function ScanFrom(files: map<int, BatchFile>, i: int): (k: int)
    requires 1 <= i
    requires forall j :: 1 <= j < i ==> j in files
    ensures i - 1 <= k
    ensures forall j :: 1 <= j <= k ==> j in files
    ensures k + 1 !in files
    decreases |files| - i + 1
  {
    if i in files then
      RangeFits(files, i);
      ScanFrom(files, i + 1)
    else i - 1
  }

  /** K: the largest index such that files 1..K all exist (0 when the first
      file is missing). */
  function LastContiguous(files: map<int, BatchFile>): (k: nat)
    ensures forall j :: 1 <= j <= k ==> j in files
    ensures k + 1 !in files
  {
    ScanFrom(files, 1)
  }

  /** K is determined by the gap: if files 1..k exist and file k + 1 does
      not, K is k, whatever files lie after the gap. */
  lemma {:induction false} LastContiguousIs(files: map<int, BatchFile>, k: nat)
    requires forall j :: 1 <= j <= k ==> j in files
    requires k + 1 !in files
    ensures LastContiguous(files) == k
  {
    ScanFromIs(files, 1, k);
  }

  lemma {:induction false} ScanFromIs(files: map<int, BatchFile>, i: int, k: nat)
    requires 1 <= i <= k + 1
    requires forall j :: 1 <= j <= k ==> j in files
    requires k + 1 !in files
    ensures ScanFrom(files, i) == k
    decreases k + 1 - i
  {
    if i <= k {
      ScanFromIs(files, i + 1, k);
    }
  }

  /** `get_resume_info` as a value: (start_index, next_file_index). */
  function ResumeInfo(files: map<int, BatchFile>, batchSize: int): (r: (int, int))
  {
    var k := LastContiguous(files);
    if k == 0 then (0, 1)
    else
      match files[k]
      case Unreadable => ((k - 1) * batchSize, k + 1)
      case NotAList => ((k - 1) * batchSize + 0, k + 1)
      case Records(items) => ((k - 1) * batchSize + |items|, k + 1)
  }

  /** The resume plan: (0, 1) without batch_0001; otherwise
      ((K - 1) * B + count(K), K + 1), where an unreadable or non-list last
      file counts as 0 records. The next index is K + 1 >= 1, and the start
      is not negative for B >= 0. */
  lemma ResumeInfoContract(files: map<int, BatchFile>, batchSize: int)
    ensures 1 !in files ==> ResumeInfo(files, batchSize) == (0, 1)
    ensures var k := LastContiguous(files);
      k >= 1 ==> ResumeInfo(files, batchSize) == ((k - 1) * batchSize + RecordCount(files[k]), k + 1)
    ensures ResumeInfo(files, batchSize).1 == LastContiguous(files) + 1 >= 1
    ensures batchSize >= 0 ==> ResumeInfo(files, batchSize).0 >= 0
  {
    if 1 !in files {
      LastContiguousIs(files, 0);
    }
  }

  /** When file K is full, the start is K * B: the first id after files 1..K. */
  lemma FullLastFileStart(files: map<int, BatchFile>, batchSize: int)
    requires var k := LastContiguous(files); k >= 1 ==> RecordCount(files[k]) == batchSize
    ensures ResumeInfo(files, batchSize).0 == LastContiguous(files) * batchSize
  {
    var k := LastContiguous(files);
    ResumeInfoContract(files, batchSize);
    if k >= 1 {
      PredTimes(k, batchSize);
    }
  }

  /** When file K holds c < B records, the start falls B - c short of K * B. */
  lemma ShortLastFileStart(files: map<int, BatchFile>, batchSize: int)
    requires var k := LastContiguous(files); k >= 1
    ensures var k := LastContiguous(files);
      ResumeInfo(files, batchSize).0 == k * batchSize - (batchSize - RecordCount(files[k]))
  {
    ResumeInfoContract(files, batchSize);
    PredTimes(LastContiguous(files), batchSize);
  }

  lemma PredTimes(k: int, b: int)
    ensures (k - 1) * b + b == k * b
  {
  }

  /** Files after the first gap are ignored: two stores that agree on files
      1..K + 1 give the same plan. */
  lemma ResumeIgnoresAfterGap(f1: map<int, BatchFile>, f2: map<int, BatchFile>, batchSize: int)
    requires forall j :: 1 <= j <= LastContiguous(f1) + 1 ==> (j in f1 <==> j in f2)
    requires forall j :: 1 <= j <= LastContiguous(f1) && j in f1 ==> f2[j] == f1[j]
    ensures ResumeInfo(f1, batchSize) == ResumeInfo(f2, batchSize)
  {
    LastContiguousIs(f2, LastContiguous(f1));
  }

  /** The records held by files 1..k. */
  function TotalRecords(files: map<int, BatchFile>, k: nat): nat
    requires forall j :: 1 <= j <= k ==> j in files
  {
    if k == 0 then 0 else TotalRecords(files, k - 1) + RecordCount(files[k])
  }

  /** When files 1..K-1 each hold exactly B records, the start index is the
      number of records in files 1..K: with N full files it is N * B, with
      N - 1 full files and a last one of r records it is (N - 1) * B + r. */
  lemma {:induction false} ResumeCountsRecords(files: map<int, BatchFile>, batchSize: nat)
    requires var k := LastContiguous(files);
      forall j :: 1 <= j < k ==> RecordCount(files[j]) == batchSize
    ensures ResumeInfo(files, batchSize).0 == TotalRecords(files, LastContiguous(files))
  {
    var k := LastContiguous(files);
    if k >= 1 {
      FullPrefix(files, k - 1, batchSize);
    }
  }

  lemma {:induction false} FullPrefix(files: map<int, BatchFile>, n: nat, batchSize: nat)
    requires forall j :: 1 <= j <= n ==> j in files && RecordCount(files[j]) == batchSize
    ensures TotalRecords(files, n) == n * batchSize
  {
    if n > 0 {
      FullPrefix(files, n - 1, batchSize);
    }
  }

  /** The batch files and the failure log, updated in place. */
  class FileStore {
    var batches: map<int, BatchFile>
    var logExists: bool
    var log: seq<LogLine>

    /** The state of the store as a value. */
    function Snapshot(): Disk
      reads this
    {
      Disk(batches, logExists, log)
    }

    constructor (d: Disk)
      ensures Snapshot() == d
    {
      batches, logExists, log := d.batches, d.logExists, d.log;
    }

    /** `save_batch`: writes `batch_%04d.json` for `fileIndex`. */
    method SaveBatch(batch: seq<Product>, fileIndex: int)
      modifies this
      ensures Snapshot() == SaveBatchTo(old(Snapshot()), batch, fileIndex)
    {
      batches := batches[fileIndex := Records(batch)];
    }

    /** `append_failed_record`: the header goes in only when the log file did
      not exist before this call. */
    method AppendFailedRecord(id: string, error: string)
      modifies this
      ensures Snapshot() == AppendFailureTo(old(Snapshot()), id, error)
    {
      var fileExist := logExists;
      logExists := true;
      if !fileExist {
        log := log + [Header];
      }
      log := log + [Row(id, error)];
    }

    /** `get_resume_info`: scan for batch_0001, batch_0002, ... up to the
      first missing file, then read the last one found. */
    method GetResumeInfo(batchSize: int) returns (startIndex: int, nextFileIndex: int)
      ensures (startIndex, nextFileIndex) == ResumeInfo(batches, batchSize)
    {
      var fileIndex := 1;
      var lastExistingIndex := 0;
      while fileIndex in batches
        invariant 1 <= fileIndex && lastExistingIndex == fileIndex - 1
        invariant forall j :: 1 <= j < fileIndex ==> j in batches
        decreases |batches| - fileIndex + 1
      {
        RangeFits(batches, fileIndex);
        lastExistingIndex := fileIndex;
        fileIndex := fileIndex + 1;
      }
      LastContiguousIs(batches, lastExistingIndex);
      if lastExistingIndex == 0 {
        return 0, 1;
      }
      var lastFile := batches[lastExistingIndex];
      if lastFile.Unreadable? {
        startIndex := (lastExistingIndex - 1) * batchSize;
        return startIndex, lastExistingIndex + 1;
      }
      var countLast := if lastFile.Records? then |lastFile.items| else 0;
      startIndex := (lastExistingIndex - 1) * batchSize + countLast;
      nextFileIndex := lastExistingIndex + 1;
    }
  }
}
