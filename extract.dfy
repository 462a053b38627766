/** The extract stage: fetching one product with bounded retries, and
    reading the list of product ids from the tokenised CSV rows. */
module Extract {
  import opened Values

  /** The settings' default attempt budget (MAX_RETRIES). */
  const MaxRetries := 3

  /** The body of an HTTP reply, as `response.json()` sees it: a decoded
      document, or text it cannot decode. */
  datatype Body = Document(doc: Value) | Undecodable

  /** What one `session.get` attempt yields: a reply with its status, or a
      transport-level failure (a `requests.RequestException` such as a
      timeout or a refused connection). */
  datatype Attempt = Reply(status: int, body: Body) | TransportError

  /** The statuses after which the loop sleeps and tries again. */
  predicate IsTransientStatus(status: int) {
    status == 429 || status == 500 || status == 502 || status == 503 || status == 504
  }

  /** The attempt that ends the call successfully: status 200 with a body
      that decodes. */
  predicate Succeeds(a: Attempt) {
    a.Reply? && a.status == 200 && a.body.Document?
  }

  /** A transient status reply: the loop sleeps, even after its last attempt. */
  predicate IsTransientReply(a: Attempt) {
    a.Reply? && IsTransientStatus(a.status)
  }

  /** An attempt that raises a `RequestException` inside the `try`: a
      transport failure, or a 200 whose body fails to decode (the decode
      error of `requests` is a `RequestException`). The loop sleeps only
      when attempts remain. */
  predicate IsRequestError(a: Attempt) {
    a.TransportError? || (a.status == 200 && a.body.Undecodable?)
  }

  /** An attempt after which the loop goes on to the next one, if any. */
  predicate Retries(a: Attempt) {
    IsTransientReply(a) || IsRequestError(a)
  }

  /** The observable outcome of a call: the returned pair, how many requests
      were made, and the multiplier of each `time.sleep(backoff * attempt)`
      in order (the sleep itself lasts `backoff` times that multiplier). */
  datatype FetchResult = FetchResult(payload: Value, success: bool, requests: nat, sleeps: seq<nat>)

  /** The multipliers lo, lo + 1, ..., hi - 1. */
  function Range(lo: nat, hi: nat): (r: seq<nat>)
    ensures |r| == if lo <= hi then hi - lo else 0
    ensures forall i :: 0 <= i < |r| ==> r[i] == lo + i
    decreases hi - lo
  {
    if lo >= hi then [] else [lo] + Range(lo + 1, hi)
  }

  /** One more request made before `r`, with a sleep of multiplier `k`. */
  function SleepThen(k: nat, r: FetchResult): FetchResult
  {
    FetchResult(r.payload, r.success, r.requests + 1, [k] + r.sleeps)
  }

  /** The retry loop of `fetch_product` from attempt number `attempt` on,
      for the server's scripted answer `server(k)` to attempt `k`. */
  function FetchFrom(server: nat -> Attempt, maxRetries: int, attempt: nat): FetchResult
    decreases if attempt <= maxRetries then maxRetries - attempt + 1 else 0
  {
    if attempt > maxRetries then FetchResult(Null, false, 0, [])
    else
      var a := server(attempt);
      if Succeeds(a) then FetchResult(a.body.doc, true, 1, [])
      else if IsTransientReply(a) then SleepThen(attempt, FetchFrom(server, maxRetries, attempt + 1))
      else if IsRequestError(a) then
        if attempt < maxRetries then SleepThen(attempt, FetchFrom(server, maxRetries, attempt + 1))
        else FetchResult(Null, false, 1, [])
      else FetchResult(Null, false, 1, [])
  }

  /** `fetch_product` as a value: the loop from attempt 1. */
  function Fetch(server: nat -> Attempt, maxRetries: int): FetchResult
  {
    FetchFrom(server, maxRetries, 1)
  }

  /** `r` preceded by `n` requests and the sleeps `s`. */
  function After(n: nat, s: seq<nat>, r: FetchResult): FetchResult
  {
    FetchResult(r.payload, r.success, n + r.requests, s + r.sleeps)
  }

  /** A request followed by a sleep, then `r`: one more request and one
      more sleep before `r`. */
  lemma AfterSleep(n: nat, s: seq<nat>, k: nat, r: FetchResult)
    ensures After(n, s, SleepThen(k, r)) == After(n + 1, s + [k], r)
  {
    assert s + ([k] + r.sleeps) == (s + [k]) + r.sleeps;
  }

  /** `fetch_product`: the `for attempt` loop with its early returns,
      `continue` and `break`. The requests it makes and its sleeps are ghost
      outputs. */
  method FetchProduct(server: nat -> Attempt, maxRetries: int)
    returns (payload: Value, success: bool, ghost requests: nat, ghost sleeps: seq<nat>)
    ensures FetchResult(payload, success, requests, sleeps) == Fetch(server, maxRetries)
  {
    requests, sleeps := 0, [];
    var attempt: nat := 1;
    while attempt <= maxRetries
      invariant Fetch(server, maxRetries) == After(requests, sleeps, FetchFrom(server, maxRetries, attempt))
      decreases maxRetries - attempt
    {
      var response := server(attempt);
      requests := requests + 1;
      if response.Reply? && response.status == 200 && response.body.Document? {
        payload, success := response.body.doc, true;
        return;
      }
      if response.Reply? && response.status != 200 {
        if IsTransientStatus(response.status) {
          AfterSleep(requests - 1, sleeps, attempt, FetchFrom(server, maxRetries, attempt + 1));
          sleeps := sleeps + [attempt];
          attempt := attempt + 1;
          continue;
        }
        payload, success := Null, false;
        return;
      }
      // a RequestException: a transport failure, or a 200 that does not decode
      if attempt < maxRetries {
        AfterSleep(requests - 1, sleeps, attempt, FetchFrom(server, maxRetries, attempt + 1));
        sleeps := sleeps + [attempt];
      } else {
        break;
      }
      attempt := attempt + 1;
    }
    payload, success := Null, false;
  }

  /** At most `maxRetries` requests are made, and none when the budget is
      zero or negative, which returns (None, False). */
  lemma {:induction false} FetchBudget(server: nat -> Attempt, maxRetries: int, attempt: nat)
    ensures FetchFrom(server, maxRetries, attempt).requests <=
      if attempt <= maxRetries then maxRetries - attempt + 1 else 0
    ensures attempt > maxRetries ==> FetchFrom(server, maxRetries, attempt) == FetchResult(Null, false, 0, [])
    decreases if attempt <= maxRetries then maxRetries - attempt + 1 else 0
  {
    if attempt <= maxRetries {
      FetchBudget(server, maxRetries, attempt + 1);
    }
  }

  /** Every failure result is exactly (None, False). */
  lemma {:induction false} FetchFailureIsNone(server: nat -> Attempt, maxRetries: int, attempt: nat)
    ensures !FetchFrom(server, maxRetries, attempt).success ==> FetchFrom(server, maxRetries, attempt).payload == Null
    decreases if attempt <= maxRetries then maxRetries - attempt + 1 else 0
  {
    if attempt <= maxRetries {
      FetchFailureIsNone(server, maxRetries, attempt + 1);
    }
  }

  /** When every attempt before `k` is one the loop retries and attempt `k`
      returns a decodable 200, the call returns that document with success
      after exactly `k` requests, having slept after each earlier one. */
  lemma {:induction false} FetchSucceedsAt(server: nat -> Attempt, maxRetries: int, attempt: nat, k: nat)
    requires attempt <= k <= maxRetries
    requires forall j :: attempt <= j < k ==> Retries(server(j))
    requires Succeeds(server(k))
    ensures FetchFrom(server, maxRetries, attempt) ==
      FetchResult(server(k).body.doc, true, k - attempt + 1, Range(attempt, k))
    decreases k - attempt
  {
    if attempt < k {
      FetchSucceedsAt(server, maxRetries, attempt + 1, k);
      assert Range(attempt, k) == [attempt] + Range(attempt + 1, k);
    }
  }

  /** A success comes only from a decodable 200 within budget, after
      attempts that were all retried; it is the last request made and its
      document is the payload. */
  lemma {:induction false} FetchSuccessOnlyAt(server: nat -> Attempt, maxRetries: int, attempt: nat)
    ensures var r := FetchFrom(server, maxRetries, attempt);
      r.success ==>
        var k := attempt + r.requests - 1;
        r.requests >= 1 && k <= maxRetries && Succeeds(server(k)) && r.payload == server(k).body.doc &&
        forall j :: attempt <= j < k ==> Retries(server(j))
    decreases if attempt <= maxRetries then maxRetries - attempt + 1 else 0
  {
    if attempt <= maxRetries && !Succeeds(server(attempt)) {
      FetchSuccessOnlyAt(server, maxRetries, attempt + 1);
    }
  }

  /** The call succeeds exactly when some attempt within budget returns a
      decodable 200 and every attempt before it was one the loop retries. */
  lemma FetchSuccessIff(server: nat -> Attempt, maxRetries: int)
    ensures Fetch(server, maxRetries).success <==>
      exists k :: 1 <= k <= maxRetries && Succeeds(server(k)) &&
        forall j :: 1 <= j < k ==> Retries(server(j))
  {
    FetchSuccessOnlyAt(server, maxRetries, 1);
    if exists k :: 1 <= k <= maxRetries && Succeeds(server(k)) && forall j :: 1 <= j < k ==> Retries(server(j)) {
      var k :| 1 <= k <= maxRetries && Succeeds(server(k)) && forall j :: 1 <= j < k ==> Retries(server(j));
      FetchSucceedsAt(server, maxRetries, 1, k);
    }
  }

  /** A status outside 200 and the transient set ends the call at once with
      (None, False): no sleep after it and no further attempt. */
  lemma {:induction false} FetchStopsOnPermanentStatus(server: nat -> Attempt, maxRetries: int, attempt: nat, k: nat)
    requires attempt <= k <= maxRetries
    requires forall j :: attempt <= j < k ==> Retries(server(j))
    requires server(k).Reply? && server(k).status != 200 && !IsTransientStatus(server(k).status)
    ensures FetchFrom(server, maxRetries, attempt) == FetchResult(Null, false, k - attempt + 1, Range(attempt, k))
    decreases k - attempt
  {
    if attempt < k {
      FetchStopsOnPermanentStatus(server, maxRetries, attempt + 1, k);
      assert Range(attempt, k) == [attempt] + Range(attempt + 1, k);
    }
  }

  /** The sleeps are linear in the attempt number: after each of the first
      n - 1 of n requests the loop sleeps backoff times that attempt's
      number, and after the n-th one only when it was a transient status;
      a transport failure on the last attempt is not followed by a sleep. */
  lemma {:induction false} FetchSleeps(server: nat -> Attempt, maxRetries: int, attempt: nat)
    requires attempt >= 1
    ensures var r := FetchFrom(server, maxRetries, attempt);
      var last: nat := attempt + r.requests - 1;
      r.sleeps == Range(attempt, last) +
        (if r.requests >= 1 && IsTransientReply(server(last)) then [last] else [])
    decreases if attempt <= maxRetries then maxRetries - attempt + 1 else 0
  {
    if attempt <= maxRetries {
      var a := server(attempt);
      if IsTransientReply(a) || (IsRequestError(a) && attempt < maxRetries) {
        var r' := FetchFrom(server, maxRetries, attempt + 1);
        var r := FetchFrom(server, maxRetries, attempt);
        assert r == SleepThen(attempt, r');
        assert r'.requests == 0 ==> attempt == maxRetries by {
          if attempt < maxRetries {
            MakesRequest(server, maxRetries, attempt + 1);
          }
        }
        FetchSleeps(server, maxRetries, attempt + 1);
        SleepsStep(server, maxRetries, attempt, r', r);
      } else {
        assert FetchFrom(server, maxRetries, attempt).sleeps == [] && !IsTransientReply(a);
        assert Range(attempt, attempt) == [];
      }
    } else {
      assert Range(attempt, attempt - 1) == [];
    }
  }

  /** An attempt within budget makes a request. */
  lemma MakesRequest(server: nat -> Attempt, maxRetries: int, attempt: nat)
    requires attempt <= maxRetries
    ensures FetchFrom(server, maxRetries, attempt).requests >= 1
  {
  }

  /** The inductive step of `FetchSleeps`: a retried attempt, a sleep, then
      the rest of the loop `r'`. */
  lemma SleepsStep(server: nat -> Attempt, maxRetries: int, attempt: nat, r': FetchResult, r: FetchResult)
    requires 1 <= attempt <= maxRetries
    requires IsTransientReply(server(attempt)) || (IsRequestError(server(attempt)) && attempt < maxRetries)
    requires r'.requests == 0 ==> attempt == maxRetries
    requires var last: nat := attempt + r'.requests;
      r'.sleeps == Range(attempt + 1, last) +
        (if r'.requests >= 1 && IsTransientReply(server(last)) then [last] else [])
    requires r == SleepThen(attempt, r')
    ensures var last: nat := attempt + r.requests - 1;
      r.sleeps == Range(attempt, last) +
        (if r.requests >= 1 && IsTransientReply(server(last)) then [last] else [])
  {
    var last := attempt + r'.requests;
    var tail := if r'.requests >= 1 && IsTransientReply(server(last)) then [last] else [];
    if r'.requests == 0 {
      assert r'.sleeps == [];
      assert r.sleeps == Range(attempt, attempt) + [attempt];
    } else {
      assert Range(attempt, last) == [attempt] + Range(attempt + 1, last);
      assert r.sleeps == [attempt] + (Range(attempt + 1, last) + tail);
    }
  }

  /** Example: 503 twice, then 200, with a budget of 3, succeeds on the
      third request after sleeping 1 and then 2 backoff units. */
  lemma FetchExample(doc: Value)
    ensures var server := (k: nat) => if k < 3 then Reply(503, Undecodable) else Reply(200, Document(doc));
      Fetch(server, 3) == FetchResult(doc, true, 3, [1, 2])
  {
  }

  // Reading the ids

  /** The characters `str.strip()` removes, those for which `str.isspace()`
      holds: ASCII whitespace, the information separators U+001C..U+001F,
      NEL, NO-BREAK SPACE, OGHAM SPACE MARK, the spaces U+2000..U+200A, the
      line and paragraph separators, NARROW NO-BREAK SPACE, MEDIUM
      MATHEMATICAL SPACE and IDEOGRAPHIC SPACE. */
  predicate IsSpace(c: char) {
    c == ' ' || c == '\t' || c == '\n' || c == '\r' || c == '\U{0B}' || c == '\U{0C}' ||
    ('\U{1C}' <= c <= '\U{1F}') || c == '\U{85}' || c == '\U{A0}' || c == '\U{1680}' ||
    ('\U{2000}' <= c <= '\U{200A}') || c == '\U{2028}' || c == '\U{2029}' || c == '\U{202F}' ||
    c == '\U{205F}' || c == '\U{3000}'
  }

  function TrimLeft(s: string): string
    decreases |s|
  {
    if s != [] && IsSpace(s[0]) then TrimLeft(s[1..]) else s
  }

  function TrimRight(s: string): string
    decreases |s|
  {
    if s != [] && IsSpace(s[|s| - 1]) then TrimRight(s[..|s| - 1]) else s
  }

  /** `str.strip()`. */
  function Strip(s: string): string
  {
    TrimRight(TrimLeft(s))
  }

  /** `TrimLeft` drops a prefix made of spaces and stops at a non-space. */
  lemma {:induction false} TrimLeftSpec(s: string)
    ensures |TrimLeft(s)| <= |s| && TrimLeft(s) == s[|s| - |TrimLeft(s)|..]
    ensures forall j :: 0 <= j < |s| - |TrimLeft(s)| ==> IsSpace(s[j])
    ensures TrimLeft(s) != [] ==> !IsSpace(TrimLeft(s)[0])
    decreases |s|
  {
    if s != [] && IsSpace(s[0]) {
      var s' := s[1..];
      TrimLeftSpec(s');
      var m := |s'| - |TrimLeft(s')|;
      assert s'[m..] == s[m + 1..];
      forall j | 0 < j < m + 1
        ensures IsSpace(s[j])
      {
        assert s[j] == s'[j - 1];
      }
    }
  }

  /** `TrimRight` drops a suffix made of spaces and stops at a non-space. */
  lemma {:induction false} TrimRightSpec(s: string)
    ensures |TrimRight(s)| <= |s| && TrimRight(s) == s[..|TrimRight(s)|]
    ensures forall j :: |TrimRight(s)| <= j < |s| ==> IsSpace(s[j])
    ensures TrimRight(s) != [] ==> !IsSpace(TrimRight(s)[|TrimRight(s)| - 1])
    decreases |s|
  {
    if s != [] && IsSpace(s[|s| - 1]) {
      var n := |s| - 1;
      var s' := s[..n];
      TrimRightSpec(s');
      var m := |TrimRight(s')|;
      assert s'[..m] == s[..m];
      forall j | m <= j < n
        ensures IsSpace(s[j])
      {
        assert s[j] == s'[j];
      }
    }
  }

  /** `str.strip()` returns a slice of its input that neither starts nor ends
      with a space, and is empty exactly when the input is all spaces. */
  lemma StripSpec(s: string)
    ensures exists i, k :: 0 <= i <= k <= |s| && Strip(s) == s[i..k]
    ensures Strip(s) != "" ==> !IsSpace(Strip(s)[0]) && !IsSpace(Strip(s)[|Strip(s)| - 1])
    ensures Strip(s) == "" <==> forall j :: 0 <= j < |s| ==> IsSpace(s[j])
  {
    var t := TrimLeft(s);
    var r := TrimRight(t);
    assert r == Strip(s);
    TrimLeftSpec(s);
    TrimRightSpec(t);
    var i := |s| - |t|;
    var k := |r|;
    SuffixPrefix(s, i, k);
    assert r == s[i..i + k];
    if r != "" {
      assert r[0] == t[0] == s[i];
    } else if t != [] {
      assert false;
    }
  }

  lemma SuffixPrefix(s: string, i: nat, k: nat)
    requires i + k <= |s|
    ensures s[i..][..k] == s[i..i + k]
  {
  }

  /** The id one CSV row contributes: its stripped first cell, when the row
      is non-empty and that cell is not blank. */
  function RowId(row: seq<string>): Option<string>
  {
    if row != [] && Strip(row[0]) != "" then Some(Strip(row[0])) else None
  }

  /** The ids of a run of data rows, in row order, without a cap. */
  function CollectIds(rows: seq<seq<string>>): seq<string>
    decreases |rows|
  {
    if rows == [] then []
    else
      var last := RowId(rows[|rows| - 1]);
      CollectIds(rows[..|rows| - 1]) + (if last.Some? then [last.value] else [])
  }

  /** The ids of a whole CSV file without a cap: the header row is skipped. */
  function AllIds(rows: seq<seq<string>>): seq<string>
  {
    if rows == [] then [] else CollectIds(rows[1..])
  }

  /** How many ids `read_ids_from_csv` keeps: the cap is checked after an
      append, so a cap below 1 still keeps the first id. */
  function Cap(maxIds: Option<int>, available: nat): (n: nat)
    ensures n <= available
    ensures maxIds.None? || (maxIds.value >= 1 && available <= maxIds.value) ==> n == available
    ensures maxIds.Some? && maxIds.value >= 1 ==> n <= maxIds.value
    ensures maxIds.Some? && maxIds.value >= 1 && maxIds.value <= available ==> n == maxIds.value
    ensures maxIds.Some? && maxIds.value < 1 ==> n == if available == 0 then 0 else 1
  {
    if maxIds.None? || available <= Limit(maxIds.value) then available else Limit(maxIds.value)
  }

  /** The least number of ids a cap of `m` lets through before stopping. */
  function Limit(m: int): nat
  {
    if m < 1 then 1 else m
  }

  /** `read_ids_from_csv` as a value. */
  function ReadIds(rows: seq<seq<string>>, maxIds: Option<int>): seq<string>
  {
    AllIds(rows)[..Cap(maxIds, |AllIds(rows)|)]
  }

  /** The ids of the rows distribute over concatenation of the rows. */
  lemma {:induction false} CollectIdsAppend(a: seq<seq<string>>, b: seq<seq<string>>)
    ensures CollectIds(a + b) == CollectIds(a) + CollectIds(b)
    decreases |b|
  {
    if b == [] {
      assert a + b == a;
    } else {
      var b' := b[..|b| - 1];
      assert (a + b)[..|a + b| - 1] == a + b';
      assert (a + b)[|a + b| - 1] == b[|b| - 1];
      CollectIdsAppend(a, b');
    }
  }

  /** Each collected id is the stripped, non-blank first cell of a row, and
      every row with a non-blank first cell gives its id: membership both
      ways; no more ids than rows. */
  lemma {:induction false} CollectIdsMembership(rows: seq<seq<string>>, id: string)
    ensures |CollectIds(rows)| <= |rows|
    ensures id in CollectIds(rows) <==>
      exists i :: 0 <= i < |rows| && rows[i] != [] && Strip(rows[i][0]) != "" && Strip(rows[i][0]) == id
    decreases |rows|
  {
    if rows != [] {
      var n := |rows| - 1;
      var init := rows[..n];
      CollectIdsMembership(init, id);
      assert forall i :: 0 <= i < n ==> init[i] == rows[i];
      if id in CollectIds(rows) && id !in CollectIds(init) {
        assert RowId(rows[n]) == Some(id);
      }
      if exists i :: 0 <= i < |rows| && rows[i] != [] && Strip(rows[i][0]) != "" && Strip(rows[i][0]) == id {
        var i :| 0 <= i < |rows| && rows[i] != [] && Strip(rows[i][0]) != "" && Strip(rows[i][0]) == id;
        if i == n {
          assert RowId(rows[n]) == Some(id);
        }
      }
    }
  }

  /** `read_ids_from_csv` skips the header, returns stripped non-blank first
      cells of later rows, in row order, and with a cap returns a prefix of
      the uncapped list of at most max(1, cap) ids. */
  lemma ReadIdsContract(rows: seq<seq<string>>, maxIds: Option<int>, id: string)
    ensures ReadIds(rows, None) == AllIds(rows)
    ensures ReadIds(rows, maxIds) <= AllIds(rows)
    ensures maxIds.Some? && maxIds.value >= 1 ==> |ReadIds(rows, maxIds)| <= maxIds.value
    ensures maxIds.Some? && maxIds.value >= 1 && maxIds.value <= |AllIds(rows)| ==>
      |ReadIds(rows, maxIds)| == maxIds.value
    ensures maxIds.Some? && maxIds.value < 1 ==>
      ReadIds(rows, maxIds) == if AllIds(rows) == [] then [] else [AllIds(rows)[0]]
    ensures id in AllIds(rows) <==>
      exists i :: 1 <= i < |rows| && rows[i] != [] && Strip(rows[i][0]) != "" && Strip(rows[i][0]) == id
  {
    if rows != [] {
      CollectIdsMembership(rows[1..], id);
      if exists i :: 1 <= i < |rows| && rows[i] != [] && Strip(rows[i][0]) != "" && Strip(rows[i][0]) == id {
        var i :| 1 <= i < |rows| && rows[i] != [] && Strip(rows[i][0]) != "" && Strip(rows[i][0]) == id;
        assert rows[1..][i - 1] == rows[i];
      }
    }
  }

  /** The ids of the first `i + 1` rows: those of the first `i`, then the
      `i`-th row's own. */
  lemma CollectIdsSnoc(rows: seq<seq<string>>, i: nat)
    requires i < |rows|
    ensures CollectIds(rows[..i + 1]) ==
      CollectIds(rows[..i]) + (if RowId(rows[i]).Some? then [RowId(rows[i]).value] else [])
  {
    assert rows[..i + 1][..i] == rows[..i];
  }

  /** The ids of the first `i` rows are a prefix of the ids of all rows. */
  lemma {:induction false} CollectIdsPrefix(rows: seq<seq<string>>, i: nat)
    requires i <= |rows|
    ensures CollectIds(rows[..i]) <= CollectIds(rows)
    decreases |rows|
  {
    if i == |rows| {
      assert rows[..i] == rows;
    } else {
      var n := |rows| - 1;
      CollectIdsPrefix(rows[..n], i);
      assert rows[..n][..i] == rows[..i];
    }
  }

  /** A prefix of the ids that has just reached the cap is the capped list. */
  lemma PrefixAtCap(ids: seq<string>, all: seq<string>, m: int)
    requires ids <= all && |ids| == Limit(m)
    ensures ids == all[..Cap(Some(m), |all|)]
  {
  }

  /** `read_ids_from_csv` over the already tokenised rows: skip the header,
      append each non-blank stripped first cell, stop once the cap is met. */
  method ReadIdsFromCsv(rows: seq<seq<string>>, maxIds: Option<int>) returns (ids: seq<string>)
    ensures ids == ReadIds(rows, maxIds)
  {
    ids := [];
    if rows == [] {
      return;
    }
    var body := rows[1..];
    ghost var all := CollectIds(body);
    var i := 0;
    while i < |body|
      invariant 0 <= i <= |body|
      invariant ids == CollectIds(body[..i])
      invariant maxIds.Some? ==> |ids| < Limit(maxIds.value)
    {
      CollectIdsSnoc(body, i);
      var row := body[i];
      if row != [] && Strip(row[0]) != "" {
        ids := ids + [Strip(row[0])];
        if maxIds.Some? && |ids| >= maxIds.value {
          CollectIdsPrefix(body, i + 1);
          PrefixAtCap(ids, all, maxIds.value);
          return;
        }
      }
      i := i + 1;
    }
    assert body[..i] == body;
  }
}
