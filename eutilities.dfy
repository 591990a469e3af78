/**
 * The E-utilities download loops: `esearch_query`, which pages through search
 * results, and `download_pubmed_ids`, which fetches records for a list of IDs
 * in batches, splits and retries failed batches from the front of its queue,
 * backs off linearly with the number of successive failures and writes one
 * aggregate XML document.
 *
 * HTTP, XML parsing and serialisation are outside the model: each request's
 * outcome comes from an oracle sequence, a successful response is its root tag
 * and the serialisations of its children, and sleeps are recorded durations.
 */
module EUtilities {
  import opened Wrappers
  import opened Text

  // ===========================================================================
  // esearch_query

  /**
   * One ESearch response: the text of its `Count` element (`None` when it is
   * missing) and the texts of its `IdList/Id` elements (`None` for an empty one).
   */
  datatype SearchPage = SearchPage(count: Option<string>, idList: seq<Option<string>>)

  /** How `esearch_query` ended within the oracle's horizon. */
  datatype SearchOutcome =
    | Finished             // `retstart` reached the latest `Count`
    | Exhausted            // the pages ran out first
    | Raised(error: PyError)  // `int(tree.findtext('Count'))` raised

  /** The IDs of a run of pages, in request order (`ids += add_ids`). */
  function PageIds(pages: seq<SearchPage>): seq<Option<string>> {
    if pages == [] then [] else PageIds(pages[..|pages| - 1]) + pages[|pages| - 1].idList
  }

  /** `n` copies of `x`: the sleeps of `n` requests paced by `x`. */
  function Repeat(x: real, n: nat): (r: seq<real>)
    ensures |r| == n && forall j :: 0 <= j < n ==> r[j] == x
  {
    if n == 0 then [] else Repeat(x, n - 1) + [x]
  }

  lemma PageIdsPrefix(pages: seq<SearchPage>, k: nat)
    requires k < |pages|
    ensures PageIds(pages[..k + 1]) == PageIds(pages[..k]) + pages[k].idList
  {
    assert pages[..k + 1][..k] == pages[..k];
  }

  /** A page whose `Count` parses and lies beyond `retstart + retmax`: the loop sends another request. */
  predicate Continues(page: SearchPage, retstart: int, retmax: nat) {
    IntOf(page.count).Ok? && retstart + retmax < IntOf(page.count).value
  }

  /** A page whose `Count` parses and is reached by `retstart + retmax`: the loop ends. */
  predicate Reaches(page: SearchPage, retstart: int, retmax: nat) {
    IntOf(page.count).Ok? && retstart + retmax >= IntOf(page.count).value
  }

  /**
   * The `retstart` values of the requests sent so far: 0 first, then
   * `retmax` more each time, and each followed by a further request only
   * because its page's `Count` lay beyond it.
   */
  ghost predicate Sent(retstarts: seq<int>, pages: seq<SearchPage>, retmax: nat) {
    && |retstarts| <= |pages|
    && (retstarts != [] ==> retstarts[0] == 0)
    && (forall j :: 0 <= j < |retstarts| - 1 ==> retstarts[j + 1] == retstarts[j] + retmax)
    && (forall j :: 0 <= j < |retstarts| - 1 ==> Continues(pages[j], retstarts[j], retmax))
  }

  lemma SentSnoc(retstarts: seq<int>, pages: seq<SearchPage>, retmax: nat, r: int)
    requires Sent(retstarts, pages, retmax) && |retstarts| < |pages|
    requires retstarts == [] ==> r == 0
    requires retstarts != [] ==>
               var n := |retstarts|;
               r == retstarts[n - 1] + retmax && Continues(pages[n - 1], retstarts[n - 1], retmax)
    ensures Sent(retstarts + [r], pages, retmax)
  {
  }

  /**
   * `esearch_query(payload, retmax, sleep)` with `pages[j]` as the response
   * to the j-th request. `retstarts` are the `retstart` values sent; the
   * loop goes on while `retstart < count`, where `count` starts at 1 and is
   * then the `Count` of the latest page. A `Count` that `int()` rejects
   * raises at once, before that page's IDs are added or its sleep is taken.
   */
  method EsearchQuery(retmax: nat, sleep: real, pages: seq<SearchPage>)
    returns (ids: seq<Option<string>>, retstarts: seq<int>, sleeps: seq<real>, outcome: SearchOutcome)
    ensures |retstarts| <= |pages|
    ensures retstarts != [] ==> retstarts[0] == 0
    ensures forall j :: 0 <= j < |retstarts| - 1 ==> retstarts[j + 1] == retstarts[j] + retmax
    ensures forall j :: 0 <= j < |retstarts| - 1 ==> Continues(pages[j], retstarts[j], retmax)
    ensures outcome.Raised? <==> retstarts != [] && IntOf(pages[|retstarts| - 1].count).Err?
    ensures outcome.Raised? ==> Err(outcome.error) == IntOf(pages[|retstarts| - 1].count)
    ensures var served := if outcome.Raised? then |retstarts| - 1 else |retstarts|;
            ids == PageIds(pages[..served]) && sleeps == Repeat(sleep, served)
    ensures outcome == Finished <==>
              |retstarts| > 0 && Reaches(pages[|retstarts| - 1], retstarts[|retstarts| - 1], retmax)
    ensures outcome == Exhausted ==> |retstarts| == |pages|
  {
    var retstart := 0;
    var count := 1;
    ids, retstarts, sleeps := [], [], [];
    var k := 0;
    outcome := Exhausted;
    while retstart < count && k < |pages|
      invariant k == |retstarts| == |sleeps| <= |pages|
      invariant k == 0 ==> retstart == 0 && count == 1
      invariant k > 0 ==> retstart == retstarts[k - 1] + retmax && IntOf(pages[k - 1].count) == Ok(count)
      invariant Sent(retstarts, pages, retmax)
      invariant ids == PageIds(pages[..k])
      invariant sleeps == Repeat(sleep, k)
      decreases |pages| - k
    {
      var page := pages[k];
      SentSnoc(retstarts, pages, retmax, retstart);
      retstarts := retstarts + [retstart];
      var parsed := IntOf(page.count);
      if parsed.Err? {
        outcome := Raised(parsed.error);
        break;
      }
      count := parsed.value;
      PageIdsPrefix(pages, k);
      ids := ids + page.idList;
      retstart := retstart + retmax;
      sleeps := sleeps + [sleep];
      k := k + 1;
    }
    if !outcome.Raised? && retstart >= count {
      outcome := Finished;
    }
  }

  // ===========================================================================
  // Batches

  /** All IDs of a queue of batches, front to back. */
  function Flatten(q: seq<seq<string>>): seq<string>
    decreases |q|
  {
    if q == [] then [] else q[0] + Flatten(q[1..])
  }

  lemma FlattenCons(c: seq<string>, rest: seq<seq<string>>)
    ensures Flatten([c] + rest) == c + Flatten(rest)
  {
    assert ([c] + rest)[1..] == rest;
  }

  predicate AllNonEmpty(q: seq<seq<string>>) {
    forall k :: 0 <= k < |q| ==> q[k] != []
  }

  /** `[ids[i:i + retmax] for i in range(0, len(ids), retmax)]`. */
  function Chunks(ids: seq<string>, retmax: nat): seq<seq<string>>
    requires retmax >= 1
    decreases |ids|
  {
    if ids == [] then []
    else if |ids| <= retmax then [ids]
    else [ids[..retmax]] + Chunks(ids[retmax..], retmax)
  }

  function Min(a: int, b: int): int { if a <= b then a else b }

  /**
   * The batches cover the IDs in order, each holds between 1 and `retmax`
   * IDs, and there are ceil(n / retmax) of them.
   */
  lemma ChunksPartition(ids: seq<string>, retmax: nat)
    requires retmax >= 1
    ensures Flatten(Chunks(ids, retmax)) == ids
    ensures forall k :: 0 <= k < |Chunks(ids, retmax)| ==> 1 <= |Chunks(ids, retmax)[k]| <= retmax
    ensures |Chunks(ids, retmax)| == (|ids| + retmax - 1) / retmax
  {
    ChunksFlatten(ids, retmax);
    ChunksSizes(ids, retmax);
    ChunksCount(ids, retmax);
  }

  lemma {:induction false} ChunksFlatten(ids: seq<string>, retmax: nat)
    requires retmax >= 1
    ensures Flatten(Chunks(ids, retmax)) == ids
    decreases |ids|
  {
    if |ids| > retmax {
      ChunksFlatten(ids[retmax..], retmax);
      FlattenCons(ids[..retmax], Chunks(ids[retmax..], retmax));
      assert ids[..retmax] + ids[retmax..] == ids;
    }
  }

  lemma {:induction false} ChunksSizes(ids: seq<string>, retmax: nat)
    requires retmax >= 1
    ensures forall k :: 0 <= k < |Chunks(ids, retmax)| ==> 1 <= |Chunks(ids, retmax)[k]| <= retmax
    decreases |ids|
  {
    if |ids| > retmax {
      var cs, rest := Chunks(ids, retmax), Chunks(ids[retmax..], retmax);
      ChunksSizes(ids[retmax..], retmax);
      assert forall k :: 1 <= k < |cs| ==> cs[k] == rest[k - 1];
    }
  }

  lemma {:induction false} ChunksCount(ids: seq<string>, retmax: nat)
    requires retmax >= 1
    ensures |Chunks(ids, retmax)| == (|ids| + retmax - 1) / retmax
    decreases |ids|
  {
    if ids == [] {
    } else if |ids| <= retmax {
      DivOne(|ids| - 1, retmax);
    } else {
      var n := |ids| - retmax;
      ChunksCount(ids[retmax..], retmax);
      DivStep(n + retmax - 1, retmax);
      assert n + retmax - 1 + retmax == |ids| + retmax - 1;
    }
  }

  lemma DivOne(x: nat, d: nat)
    requires d >= 1 && x < d
    ensures (x + d) / d == 1
  {
  }

  lemma DivStep(x: nat, d: nat)
    requires d >= 1
    ensures (x + d) / d == x / d + 1
  {
    var q, r := x / d, x % d;
    assert x == q * d + r;
    assert x + d == (q + 1) * d + r;
    DivUnique(x + d, d, q + 1, r);
  }

  lemma DivUnique(y: nat, d: nat, q: int, r: int)
    requires d >= 1 && 0 <= r < d && y == q * d + r
    ensures y / d == q
  {
    var q', r' := y / d, y % d;
    assert y == q' * d + r';
    assert (q - q') * d == r' - r;
    if q > q' {
      assert (q - q') * d >= d by { MulAtLeast(q - q', d); }
    } else if q < q' {
      assert (q' - q) * d >= d by { MulAtLeast(q' - q, d); }
    }
  }

  lemma MulAtLeast(a: int, d: nat)
    requires a >= 1
    ensures a * d >= d
  {
  }

  /** Batch `k` is the slice `ids[k*retmax : k*retmax + retmax]`, as the source's range loop cuts it. */
  lemma {:induction false} ChunkIsSlice(ids: seq<string>, retmax: nat, k: nat)
    requires retmax >= 1 && k < |Chunks(ids, retmax)|
    ensures k * retmax < |ids|
    ensures Chunks(ids, retmax)[k] == ids[k * retmax..Min(k * retmax + retmax, |ids|)]
    decreases |ids|
  {
    if k > 0 {
      assert |ids| > retmax;
      var tail := ids[retmax..];
      assert Chunks(ids, retmax)[k] == Chunks(tail, retmax)[k - 1];
      ChunkIsSlice(tail, retmax, k - 1);
      var m := (k - 1) * retmax;
      MulSucc(k, retmax);
      var hi := Min(m + retmax, |tail|);
      assert m + retmax == k * retmax && hi + retmax == Min(k * retmax + retmax, |ids|);
      SliceOfSuffix(ids, retmax, m, hi);
    }
  }

  lemma MulSucc(k: nat, d: nat)
    requires k >= 1
    ensures (k - 1) * d + d == k * d
  {
  }

  /** A slice of `ids[off..]` is the slice of `ids` shifted by `off`. */
  lemma SliceOfSuffix(ids: seq<string>, off: nat, lo: nat, hi: nat)
    requires off <= |ids| && lo <= hi <= |ids| - off
    ensures ids[off..][lo..hi] == ids[off + lo..off + hi]
  {
  }

  /** Builds the initial queue with the source's stepping loop. */
  method InitialQueue(ids: seq<string>, retmax: nat) returns (q: seq<seq<string>>)
    requires retmax >= 1
    ensures q == Chunks(ids, retmax)
  {
    q := [];
    var i := 0;
    while i < |ids|
      invariant 0 <= i
      invariant q + Chunks(ids[Min(i, |ids|)..], retmax) == Chunks(ids, retmax)
      decreases |ids| - i
    {
      var end := Min(i + retmax, |ids|);
      var rest := ids[i..];
      assert Chunks(rest, retmax) == [ids[i..end]] + Chunks(ids[end..], retmax) by {
        if |rest| <= retmax {
          assert end == |ids| && rest == ids[i..end] && ids[end..] == [];
        } else {
          assert rest[..retmax] == ids[i..end] && rest[retmax..] == ids[end..];
        }
      }
      q := q + [ids[i..end]];
      i := i + retmax;
      assert Min(i, |ids|) == end;
    }
  }

  /**
   * The queue after a failed batch `c` is put back at its front: halves
   * `c[mid:]` then `c[:mid]` when it holds at least `2 * retmin` IDs (the
   * second `appendleft` wins the front), otherwise `c` unchanged.
   */
  function Requeue(c: seq<string>, rest: seq<seq<string>>, retmin: nat): seq<seq<string>> {
    if |c| >= retmin * 2 then
      var mid := |c| / 2;
      [c[mid..], c[..mid]] + rest
    else
      [c] + rest
  }

  /**
   * Requeueing neither loses nor adds IDs, keeps every batch non-empty, and a
   * split batch is its two halves in order.
   */
  lemma RequeueConserves(c: seq<string>, rest: seq<seq<string>>, retmin: nat)
    requires retmin >= 1 && c != [] && AllNonEmpty(rest)
    ensures AllNonEmpty(Requeue(c, rest, retmin))
    ensures multiset(Flatten(Requeue(c, rest, retmin))) == multiset(c) + multiset(Flatten(rest))
    ensures |c| >= retmin * 2 ==>
              var q := Requeue(c, rest, retmin);
              && |q| == |rest| + 2 && q[2..] == rest
              && q[1] + q[0] == c && |q[0]| >= retmin && |q[1]| >= retmin
    ensures |c| < retmin * 2 ==> Requeue(c, rest, retmin) == [c] + rest
  {
    var q := Requeue(c, rest, retmin);
    if |c| >= retmin * 2 {
      var mid := |c| / 2;
      assert q == [c[mid..]] + ([c[..mid]] + rest);
      FlattenCons(c[mid..], [c[..mid]] + rest);
      FlattenCons(c[..mid], rest);
      assert c == c[..mid] + c[mid..];
    } else {
      FlattenCons(c, rest);
    }
  }

  // ===========================================================================
  // The response oracle, the log of attempts, and the document written

  /** What one request came back with: an exception, or a parsed response. */
  datatype Response = Failure | Success(rootTag: string, children: seq<string>)

  /** The failures at the end of the attempt log: `successive_errors`. */
  function Streak(attempts: seq<Response>): nat {
    if attempts == [] || attempts[|attempts| - 1].Success? then 0
    else Streak(attempts[..|attempts| - 1]) + 1
  }

  /** `error_sleep * successive_errors`: the back-off after a failure grows linearly with the streak. */
  function Backoff(errorSleep: real, streak: nat): real {
    errorSleep * streak as real
  }

  /** The sleeps the loop performs for a log of attempts. */
  function SleepLog(attempts: seq<Response>, sleep: real, errorSleep: real): seq<real> {
    if attempts == [] then []
    else
      SleepLog(attempts[..|attempts| - 1], sleep, errorSleep) + [sleep]
      + if attempts[|attempts| - 1].Failure? then [Backoff(errorSleep, Streak(attempts))] else []
  }

  function Successes(attempts: seq<Response>): (rs: seq<Response>)
    ensures forall k :: 0 <= k < |rs| ==> rs[k].Success?
  {
    if attempts == [] then []
    else
      Successes(attempts[..|attempts| - 1])
      + if attempts[|attempts| - 1].Success? then [attempts[|attempts| - 1]] else []
  }

  function OpenTag(tag: string): string { "<" + tag + ">\n" }
  function CloseTag(tag: string): string { "</" + tag + ">\n" }

  /** One serialised child as written: trailing whitespace stripped, then a newline. */
  function ChildLine(xml: string): string { StripRight(xml, Space) + "\n" }

  function ChildLines(children: seq<string>): (ls: seq<string>)
    ensures |ls| == |children|
    ensures forall k :: 0 <= k < |children| ==> ls[k] == ChildLine(children[k])
  {
    seq(|children|, k requires 0 <= k < |children| => ChildLine(children[k]))
  }

  /** The child lines of successful responses, in arrival order. */
  function Body(rs: seq<Response>): seq<string>
    requires forall k :: 0 <= k < |rs| ==> rs[k].Success?
  {
    if rs == [] then [] else Body(rs[..|rs| - 1]) + ChildLines(rs[|rs| - 1].children)
  }

  /** The writes made while the queue is worked: nothing before the first success, then its opening tag and every child line. */
  function Written(rs: seq<Response>): seq<string>
    requires forall k :: 0 <= k < |rs| ==> rs[k].Success?
  {
    if rs == [] then [] else [OpenTag(rs[0].rootTag)] + Body(rs)
  }

  /** The whole file once the queue drained: the closing tag is that of the most recent response. */
  function Document(rs: seq<Response>): seq<string>
    requires forall k :: 0 <= k < |rs| ==> rs[k].Success?
    requires rs != []
  {
    Written(rs) + [CloseTag(rs[|rs| - 1].rootTag)]
  }

  lemma {:induction false} BodyLength(rs: seq<Response>)
    requires forall k :: 0 <= k < |rs| ==> rs[k].Success?
    ensures |Body(rs)| == TotalChildren(rs)
  {
    if rs != [] {
      BodyLength(rs[..|rs| - 1]);
    }
  }

  function TotalChildren(rs: seq<Response>): nat
    requires forall k :: 0 <= k < |rs| ==> rs[k].Success?
  {
    if rs == [] then 0 else TotalChildren(rs[..|rs| - 1]) + |rs[|rs| - 1].children|
  }

  /**
   * The document opens with the first success's root tag, ends with the last
   * success's closing tag, and between them holds one line per child of every
   * successful response.
   */
  lemma DocumentShape(rs: seq<Response>)
    requires forall k :: 0 <= k < |rs| ==> rs[k].Success?
    requires rs != []
    ensures |Document(rs)| == TotalChildren(rs) + 2
    ensures Document(rs)[0] == OpenTag(rs[0].rootTag)
    ensures Document(rs)[|Document(rs)| - 1] == CloseTag(rs[|rs| - 1].rootTag)
    ensures Document(rs)[1..|Document(rs)| - 1] == Body(rs)
  {
    BodyLength(rs);
  }

  lemma SuccessesSnoc(a: seq<Response>, r: Response)
    ensures Successes(a + [r]) == Successes(a) + if r.Success? then [r] else []
  {
    assert (a + [r])[..|a + [r]| - 1] == a;
  }

  lemma StreakSnoc(a: seq<Response>, r: Response, sleep: real, errorSleep: real)
    ensures Streak(a + [r]) == if r.Success? then 0 else Streak(a) + 1
    ensures SleepLog(a + [r], sleep, errorSleep) == SleepLog(a, sleep, errorSleep) + [sleep]
              + if r.Failure? then [Backoff(errorSleep, Streak(a + [r]))] else []
  {
    var a' := a + [r];
    assert a'[..|a'| - 1] == a;
    assert a'[|a'| - 1] == r;
    assert SleepLog(a', sleep, errorSleep) == SleepLog(a, sleep, errorSleep) + [sleep]
              + (if r.Failure? then [Backoff(errorSleep, Streak(a'))] else []);
  }

  lemma WrittenSnoc(rs: seq<Response>, r: Response)
    requires forall k :: 0 <= k < |rs| ==> rs[k].Success?
    requires r.Success?
    ensures Written(rs + [r]) == Written(rs) + (if rs == [] then [OpenTag(r.rootTag)] else [])
                                 + ChildLines(r.children)
  {
    var rs' := rs + [r];
    assert rs'[..|rs'| - 1] == rs;
    assert Body(rs') == Body(rs) + ChildLines(r.children);
    if rs != [] {
      assert rs'[0] == rs[0];
    }
  }

  // ===========================================================================
  // download_pubmed_ids

  /** The arguments of one `download_pubmed_ids` call. */
  datatype Settings = Settings(ids: seq<string>, retmax: nat, retmin: nat, sleep: real, errorSleep: real)

  /**
   * The local state of the download loop. `attempts` (every response consumed)
   * and `delivered` (the IDs of the successful batches, in order) are
   * bookkeeping of the model; the other fields are the source's variables.
   */
  datatype LoopState = LoopState(
    queue: seq<seq<string>>,
    successiveErrors: nat,
    initializeXml: bool,
    tree: Option<string>,
    written: seq<string>,
    sleeps: seq<real>,
    requests: seq<string>,
    progress: nat,
    attempts: seq<Response>,
    delivered: seq<string>)

  /** The state just before `while idq` starts. */
  function Initial(cfg: Settings): LoopState
    requires cfg.retmax >= 1
  {
    LoopState(Chunks(cfg.ids, cfg.retmax), 0, true, None, [], [], [], 0, [], [])
  }

  /**
   * One pass of `while idq`: pacing sleep, pop the front batch, request it;
   * on failure count the error, requeue at the front and back off; on success
   * reset the count, write the opening tag if it is the first success, write
   * every child and advance the progress by the batch size.
   */
  function Step(cfg: Settings, st: LoopState, resp: Response): LoopState
    requires st.queue != []
  {
    var chunk := st.queue[0];
    var popped := Popped(cfg, st, resp);
    match resp
    case Failure => Failed(cfg, popped, chunk)
    case Success(tag, children) => Delivered(popped, chunk, tag, children)
  }

  /** The start of a pass: pacing sleep, the front batch popped, its request sent and its response logged. */
  function Popped(cfg: Settings, st: LoopState, resp: Response): LoopState
    requires st.queue != []
  {
    st.(queue := st.queue[1..],
        sleeps := st.sleeps + [cfg.sleep],
        requests := st.requests + [Join(st.queue[0], ",")],
        attempts := st.attempts + [resp])
  }

  /** The `except` block: count the error, requeue the batch at the front, back off. */
  function Failed(cfg: Settings, st: LoopState, chunk: seq<string>): LoopState {
    var errors := st.successiveErrors + 1;
    st.(queue := Requeue(chunk, st.queue, cfg.retmin),
        successiveErrors := errors,
        sleeps := st.sleeps + [Backoff(cfg.errorSleep, errors)])
  }

  /** The rest of a successful pass: reset the count, write the response, report the progress. */
  function Delivered(st: LoopState, chunk: seq<string>, tag: string, children: seq<string>): LoopState {
    st.(successiveErrors := 0,
        tree := Some(tag),
        initializeXml := false,
        written := st.written + (if st.initializeXml then [OpenTag(tag)] else []) + ChildLines(children),
        progress := st.progress + |chunk|,
        delivered := st.delivered + chunk)
  }

  /**
   * What holds before every pass of the loop: every ID is either delivered or
   * queued, exactly once; the error count is the streak of failures at the
   * end of the log and the sleeps are those the log calls for; the file holds
   * the opening tag of the first success and the child lines of all
   * successes; `tree` is the most recent success.
   */
  ghost predicate Consistent(cfg: Settings, st: LoopState) {
    && cfg.retmax >= 1 && cfg.retmin >= 1
    && AllNonEmpty(st.queue)
    && multiset(st.delivered) + multiset(Flatten(st.queue)) == multiset(cfg.ids)
    && st.progress == |st.delivered|
    && (Successes(st.attempts) == [] <==> st.delivered == [])
    && st.successiveErrors == Streak(st.attempts)
    && st.sleeps == SleepLog(st.attempts, cfg.sleep, cfg.errorSleep)
    && |st.requests| == |st.attempts|
    && st.initializeXml == (Successes(st.attempts) == [])
    && st.tree == (if Successes(st.attempts) == [] then None
                   else Some(Successes(st.attempts)[|Successes(st.attempts)| - 1].rootTag))
    && st.written == Written(Successes(st.attempts))
  }

  lemma InitialConsistent(cfg: Settings)
    requires cfg.retmax >= 1 && cfg.retmin >= 1
    ensures Consistent(cfg, Initial(cfg))
  {
    ChunksPartition(cfg.ids, cfg.retmax);
    var q := Chunks(cfg.ids, cfg.retmax);
    forall k | 0 <= k < |q| ensures q[k] != [] { assert 1 <= |q[k]|; }
  }

  /** Every pass of the loop keeps the loop invariant. */
  lemma StepConsistent(cfg: Settings, st: LoopState, resp: Response)
    requires Consistent(cfg, st) && st.queue != []
    ensures Consistent(cfg, Step(cfg, st, resp))
  {
    if resp.Failure? {
      FailureConsistent(cfg, st);
    } else {
      SuccessConsistent(cfg, st, resp.rootTag, resp.children);
    }
  }

  /** A failed pass requeues the batch, counts the error and backs off. */
  lemma FailureConsistent(cfg: Settings, st: LoopState)
    requires Consistent(cfg, st) && st.queue != []
    ensures Consistent(cfg, Step(cfg, st, Failure))
  {
    var chunk, rest := st.queue[0], st.queue[1..];
    assert st.queue == [chunk] + rest;
    FlattenCons(chunk, rest);
    var st' := Step(cfg, st, Failure);
    var log := st.attempts + [Failure];
    assert st'.attempts == log;
    SuccessesSnoc(st.attempts, Failure);
    StreakSnoc(st.attempts, Failure, cfg.sleep, cfg.errorSleep);
    RequeueConserves(chunk, rest, cfg.retmin);
    assert st'.delivered == st.delivered && st'.written == st.written && st'.tree == st.tree;
    assert Successes(log) == Successes(st.attempts);
    assert st'.successiveErrors == Streak(log);
    assert st'.sleeps == SleepLog(log, cfg.sleep, cfg.errorSleep);
    assert multiset(st'.delivered) + multiset(Flatten(st'.queue)) == multiset(cfg.ids);
  }

  /** A successful pass delivers the batch and writes its children. */
  lemma SuccessConsistent(cfg: Settings, st: LoopState, tag: string, children: seq<string>)
    requires Consistent(cfg, st) && st.queue != []
    ensures Consistent(cfg, Step(cfg, st, Success(tag, children)))
  {
    var resp := Success(tag, children);
    var chunk, rest := st.queue[0], st.queue[1..];
    assert st.queue == [chunk] + rest;
    FlattenCons(chunk, rest);
    var st' := Step(cfg, st, resp);
    var log := st.attempts + [resp];
    assert st'.attempts == log && st'.queue == rest && st'.delivered == st.delivered + chunk;
    SuccessesSnoc(st.attempts, resp);
    StreakSnoc(st.attempts, resp, cfg.sleep, cfg.errorSleep);
    var rs := Successes(st.attempts);
    assert Successes(log) == rs + [resp];
    WrittenSnoc(rs, resp);
    assert st'.written == Written(rs + [resp]);
    assert st'.successiveErrors == Streak(log);
    assert st'.sleeps == SleepLog(log, cfg.sleep, cfg.errorSleep);
    assert multiset(st'.delivered) == multiset(st.delivered) + multiset(chunk);
    assert multiset(st'.delivered) + multiset(Flatten(st'.queue)) == multiset(cfg.ids);
  }

  /** Every ID is either delivered or still queued: progress plus queued IDs is `len(ids)`. */
  lemma Conservation(cfg: Settings, st: LoopState)
    requires Consistent(cfg, st)
    ensures st.progress + |Flatten(st.queue)| == |cfg.ids|
  {
    assert |multiset(st.delivered) + multiset(Flatten(st.queue))| == |multiset(cfg.ids)|;
  }

  /**
   * Once the queue has drained every ID has been delivered, and `tree` is
   * unbound exactly when there were no IDs at all.
   */
  lemma Drained(cfg: Settings, st: LoopState)
    requires Consistent(cfg, st) && st.queue == []
    ensures st.progress == |cfg.ids| && multiset(st.delivered) == multiset(cfg.ids)
    ensures st.tree.None? <==> cfg.ids == []
  {
    Conservation(cfg, st);
  }

  /**
   * The `while idq` loop as a function of the responses, one per request:
   * a `Step` per response while batches remain. The state it stops in, and
   * how many responses it consumed.
   */
  function Loop(cfg: Settings, st: LoopState, responses: seq<Response>): (LoopState, nat)
    decreases |responses|
  {
    if st.queue == [] || responses == [] then (st, 0)
    else
      var r := Loop(cfg, Step(cfg, st, responses[0]), responses[1..]);
      (r.0, r.1 + 1)
  }

  /** One more pass: the fold from the `i`-th response is a `Step` and then the fold from the next. */
  lemma LoopAdvance(cfg: Settings, st: LoopState, responses: seq<Response>, i: nat)
    requires st.queue != [] && i < |responses|
    ensures var r := Loop(cfg, Step(cfg, st, responses[i]), responses[i + 1..]);
            Loop(cfg, st, responses[i..]) == (r.0, r.1 + 1)
  {
    var rest := responses[i..];
    assert rest[0] == responses[i] && rest[1..] == responses[i + 1..];
  }

  /** The loop keeps its invariant. */
  lemma {:induction false} LoopConsistent(cfg: Settings, st: LoopState, responses: seq<Response>)
    requires Consistent(cfg, st)
    ensures Consistent(cfg, Loop(cfg, st, responses).0)
    decreases |responses|
  {
    if st.queue != [] && responses != [] {
      StepConsistent(cfg, st, responses[0]);
      LoopConsistent(cfg, Step(cfg, st, responses[0]), responses[1..]);
    }
  }

  /**
   * The loop consumes the responses in order, one per request, and stops
   * only once the queue has drained or the responses ran out.
   */
  lemma LoopConsumes(cfg: Settings, st: LoopState, responses: seq<Response>)
    ensures var r := Loop(cfg, st, responses);
            && r.1 <= |responses|
            && r.0.attempts == st.attempts + responses[..r.1]
            && |r.0.requests| == |st.requests| + r.1
            && (r.0.queue == [] || r.1 == |responses|)
  {
    LoopStops(cfg, st, responses);
    LoopLogs(cfg, st, responses);
  }

  lemma {:induction false} LoopStops(cfg: Settings, st: LoopState, responses: seq<Response>)
    ensures var r := Loop(cfg, st, responses);
            r.1 <= |responses| && (r.0.queue == [] || r.1 == |responses|)
    decreases |responses|
  {
    if st.queue != [] && responses != [] {
      LoopStops(cfg, Step(cfg, st, responses[0]), responses[1..]);
    }
  }

  lemma {:induction false} LoopLogs(cfg: Settings, st: LoopState, responses: seq<Response>)
    ensures var r := Loop(cfg, st, responses);
            r.1 <= |responses|
            && r.0.attempts == st.attempts + responses[..r.1]
            && |r.0.requests| == |st.requests| + r.1
    decreases |responses|
  {
    if st.queue != [] && responses != [] {
      var st' := Step(cfg, st, responses[0]);
      StepLogs(cfg, st, responses[0]);
      LoopLogs(cfg, st', responses[1..]);
      var r := Loop(cfg, st', responses[1..]);
      assert responses[..r.1 + 1] == [responses[0]] + responses[1..][..r.1];
    } else {
      assert responses[..0] == [];
    }
  }

  /** A pass logs its response and sends one request. */
  lemma StepLogs(cfg: Settings, st: LoopState, resp: Response)
    requires st.queue != []
    ensures Step(cfg, st, resp).attempts == st.attempts + [resp]
    ensures |Step(cfg, st, resp).requests| == |st.requests| + 1
  {
  }

  /** When every request succeeds, each response delivers the front batch, so the queue drains after one response per batch. */
  lemma {:induction false} SuccessesDrain(cfg: Settings, st: LoopState, responses: seq<Response>)
    requires forall k :: 0 <= k < |responses| ==> responses[k].Success?
    requires |st.queue| <= |responses|
    ensures Loop(cfg, st, responses).0.queue == []
    ensures Loop(cfg, st, responses).1 == |st.queue|
    decreases |responses|
  {
    if st.queue != [] {
      var st' := Step(cfg, st, responses[0]);
      assert st'.queue == st.queue[1..];
      assert forall k :: 0 <= k < |responses[1..]| ==> responses[1..][k] == responses[k + 1];
      SuccessesDrain(cfg, st', responses[1..]);
    }
  }

  /**
   * When every request fails, a non-empty queue never drains: every response
   * is consumed, and nothing is written or delivered.
   */
  lemma {:induction false} FailuresKeepQueue(cfg: Settings, st: LoopState, responses: seq<Response>)
    requires forall k :: 0 <= k < |responses| ==> responses[k].Failure?
    requires st.queue != []
    ensures var r := Loop(cfg, st, responses);
            && r.0.queue != [] && r.1 == |responses|
            && r.0.written == st.written && r.0.progress == st.progress && r.0.tree == st.tree
    decreases |responses|
  {
    if responses != [] {
      var st' := Step(cfg, st, responses[0]);
      assert st'.queue == Requeue(st.queue[0], st.queue[1..], cfg.retmin);
      assert forall k :: 0 <= k < |responses[1..]| ==> responses[1..][k] == responses[k + 1];
      FailuresKeepQueue(cfg, st', responses[1..]);
    }
  }

  /**
   * A download of at least one ID whose requests all succeed, with a response
   * for every initial batch, drains the queue with a response bound to `tree`
   * and reports every ID as progress.
   */
  lemma DownloadDrains(cfg: Settings, responses: seq<Response>)
    requires cfg.retmax >= 1 && cfg.retmin >= 1 && cfg.ids != []
    requires forall k :: 0 <= k < |responses| ==> responses[k].Success?
    requires |Chunks(cfg.ids, cfg.retmax)| <= |responses|
    ensures var r := Loop(cfg, Initial(cfg), responses);
            && r.0.queue == [] && r.1 == |Chunks(cfg.ids, cfg.retmax)|
            && r.0.tree.Some? && r.0.progress == |cfg.ids|
  {
    InitialConsistent(cfg);
    SuccessesDrain(cfg, Initial(cfg), responses);
    LoopConsistent(cfg, Initial(cfg), responses);
    Drained(cfg, Loop(cfg, Initial(cfg), responses).0);
  }

  /**
   * One ID and one successful response: the queue drains with `tree` bound,
   * having written the opening tag and the one child line.
   */
  lemma OneBatchDrains(retmax: nat, retmin: nat, sleep: real, errorSleep: real)
    requires retmax >= 1 && retmin >= 1
    ensures var cfg := Settings(["a"], retmax, retmin, sleep, errorSleep);
            var r := Loop(cfg, Initial(cfg), [Success("t", ["<x/>"])]);
            && r.0.queue == [] && r.1 == 1 && r.0.tree == Some("t")
            && r.0.written == [OpenTag("t"), ChildLine("<x/>")] && r.0.progress == 1
  {
    var cfg := Settings(["a"], retmax, retmin, sleep, errorSleep);
    var resp := Success("t", ["<x/>"]);
    assert Chunks(["a"], retmax) == [["a"]];
    var st' := Step(cfg, Initial(cfg), resp);
    assert st'.queue == [] && st'.written == [OpenTag("t")] + ChildLines(["<x/>"]);
    assert Loop(cfg, Initial(cfg), [resp]) == (st', 1);
  }

  /** How the download loop ended within the oracle's horizon. */
  datatype Outcome =
    | Completed    // queue drained and the closing tag written
    | Unfinished   // responses ran out while batches were still queued
    | UnboundTree  // queue drained without any success: `tree` is unbound at the final write

  class Downloader {
    const ids: seq<string>
    const url: string
    const retmax: nat
    const retmin: nat
    const sleep: real
    const errorSleep: real

    var queue: seq<seq<string>>   // idq
    var successiveErrors: nat
    var initializeXml: bool
    var tree: Option<string>      // root tag of the most recently parsed response
    var written: seq<string>      // calls to write_file.write
    var sleeps: seq<real>         // calls to time.sleep
    var requests: seq<string>     // the `id` parameter of every request
    var progress: nat             // total passed to progress_bar.update
    ghost var attempts: seq<Response>
    ghost var delivered: seq<string>

    function Config(): Settings
      reads this
    {
      Settings(ids, retmax, retmin, sleep, errorSleep)
    }

    ghost function State(): LoopState
      reads this
    {
      LoopState(queue, successiveErrors, initializeXml, tree, written, sleeps, requests, progress,
                attempts, delivered)
    }

    ghost predicate Valid()
      reads this
    {
      Consistent(Config(), State())
    }

    /** The set-up part of `download_pubmed_ids`, before its `while idq` loop. */
    constructor (ids: seq<string>, endpoint: string, retmax: nat, retmin: nat, sleep: real, errorSleep: real)
      requires retmax >= 1 && retmin >= 1
      ensures Valid()
      ensures Config() == Settings(ids, retmax, retmin, sleep, errorSleep)
      ensures url == "https://eutils.ncbi.nlm.nih.gov/entrez/eutils/" + endpoint + ".fcgi"
      ensures State() == Initial(Config())
    {
      var q := InitialQueue(ids, retmax);
      this.ids, this.retmax, this.retmin := ids, retmax, retmin;
      this.sleep, this.errorSleep := sleep, errorSleep;
      url := "https://eutils.ncbi.nlm.nih.gov/entrez/eutils/" + endpoint + ".fcgi";
      queue := q;
      successiveErrors, initializeXml, tree := 0, true, None;
      written, sleeps, requests, progress := [], [], [], 0;
      attempts, delivered := [], [];
      new;
      InitialConsistent(Config());
    }

    /** One pass of the `while idq` loop, keeping the loop invariant. */
    method Request(resp: Response)
      requires Valid() && queue != []
      modifies this
      ensures Valid()
      ensures State() == Step(Config(), old(State()), resp)
      ensures attempts == old(attempts) + [resp]
    {
      StepConsistent(Config(), State(), resp);
      Advance(resp);
    }

    /** The statements of one pass of the `while idq` loop, with `resp` as the outcome of its request. */
    method Advance(resp: Response)
      requires queue != []
      modifies this
      ensures State() == Step(Config(), old(State()), resp)
    {
      ghost var popped := Popped(Config(), State(), resp);
      sleeps := sleeps + [sleep];
      var chunk := queue[0];
      queue := queue[1..];
      requests := requests + [Join(chunk, ",")];
      attempts := attempts + [resp];
      assert State() == popped;
      if resp.Failure? {
        Retry(chunk);
      } else {
        Deliver(chunk, resp.rootTag, resp.children);
      }
    }

    /** The `except` block of the loop, after a failed request for `chunk`. */
    method Retry(chunk: seq<string>)
      modifies this
      ensures State() == Failed(Config(), old(State()), chunk)
    {
      successiveErrors := successiveErrors + 1;
      queue := Requeue(chunk, queue, retmin);
      sleeps := sleeps + [Backoff(errorSleep, successiveErrors)];
    }

    /** The rest of the loop body after a successful request for `chunk`. */
    method Deliver(chunk: seq<string>, tag: string, children: seq<string>)
      modifies this
      ensures State() == Delivered(old(State()), chunk, tag, children)
    {
      successiveErrors := 0;
      tree := Some(tag);
      if initializeXml {
        initializeXml := false;
        written := written + [OpenTag(tag)];
      }
      WriteChildLines(children);
      progress := progress + |chunk|;
      delivered := delivered + chunk;
    }

    /** `for elem in tree.getchildren(): write_file.write(xml_str.rstrip() + '\n')`. */
    method WriteChildLines(children: seq<string>)
      modifies this`written
      ensures written == old(written) + ChildLines(children)
    {
      var k := 0;
      while k < |children|
        invariant 0 <= k <= |children|
        invariant written == old(written) + ChildLines(children[..k])
      {
        assert ChildLines(children[..k + 1]) == ChildLines(children[..k]) + [ChildLine(children[k])];
        written := written + [ChildLine(children[k])];
        k := k + 1;
      }
      assert children[..k] == children;
    }

    /** The `while idq` loop driven by `responses`, one per request, until the queue drains or they run out. */
    method Drain(responses: seq<Response>) returns (used: nat)
      requires Valid()
      modifies this
      ensures Valid()
      ensures (State(), used) == Loop(Config(), old(State()), responses)
      ensures used <= |responses| && attempts == old(attempts) + responses[..used]
      ensures queue != [] ==> used == |responses|
    {
      ghost var start := State();
      ghost var total := Loop(Config(), start, responses);
      LoopConsistent(Config(), start, responses);
      LoopConsumes(Config(), start, responses);
      used := 0;
      assert responses[used..] == responses;
      while queue != [] && used < |responses|
        invariant used <= |responses|
        invariant Loop(Config(), State(), responses[used..]).0 == total.0
        invariant Loop(Config(), State(), responses[used..]).1 + used == total.1
        decreases |responses| - used
      {
        LoopAdvance(Config(), State(), responses, used);
        Advance(responses[used]);
        used := used + 1;
      }
      assert Loop(Config(), State(), responses[used..]) == (State(), 0);
    }

    /** The final `write_file.write(f'</{tree.tag}>\n')`, after the queue drained. */
    method Finish() returns (outcome: Outcome)
      requires Valid() && queue == []
      modifies this`written
      ensures outcome != Unfinished
      ensures outcome == UnboundTree <==> Successes(attempts) == []
      ensures outcome == UnboundTree ==> ids == [] && written == []
      ensures outcome == Completed ==>
                Successes(attempts) != [] && written == Document(Successes(attempts))
      ensures outcome == UnboundTree <==> tree.None?
      ensures outcome == UnboundTree ==> written == old(written)
      ensures outcome == Completed ==> written == old(written) + [CloseTag(tree.value)]
      ensures progress == |ids| && multiset(delivered) == multiset(ids)
    {
      Drained(Config(), State());
      if tree.None? {
        outcome := UnboundTree;
      } else {
        written := written + [CloseTag(tree.value)];
        outcome := Completed;
      }
    }

    /** The `while idq` loop driven by `responses`, then the closing tag if the queue drained. */
    method Run(responses: seq<Response>) returns (outcome: Outcome, used: nat)
      requires Valid()
      modifies this
      ensures var fin := Loop(Config(), old(State()), responses);
              && used == fin.1
              && State().(written := fin.0.written) == fin.0
              && (outcome == Unfinished <==> fin.0.queue != [])
              && (outcome == UnboundTree <==> fin.0.queue == [] && fin.0.tree.None?)
              && (outcome == Completed ==> fin.0.tree.Some? && written == fin.0.written + [CloseTag(fin.0.tree.value)])
              && (outcome != Completed ==> written == fin.0.written)
      ensures outcome == Unfinished ==> Valid()
      ensures used <= |responses| && attempts == old(attempts) + responses[..used]
      ensures sleeps == SleepLog(attempts, sleep, errorSleep)
      ensures outcome == Unfinished ==> used == |responses| && written == Written(Successes(attempts))
      ensures outcome == UnboundTree <==> outcome != Unfinished && Successes(attempts) == []
      ensures outcome == UnboundTree ==> ids == [] && written == []
      ensures outcome == Completed ==>
                Successes(attempts) != [] && written == Document(Successes(attempts))
      ensures outcome != Unfinished ==> progress == |ids| && multiset(delivered) == multiset(ids)
    {
      used := Drain(responses);
      ghost var st := State();
      assert Consistent(Config(), st);
      assert st.sleeps == SleepLog(st.attempts, sleep, errorSleep);
      if queue != [] {
        outcome := Unfinished;
        assert st.written == Written(Successes(st.attempts));
      } else {
        outcome := Finish();
      }
    }
  }

  /**
   * `download_pubmed_ids(ids, write_file, endpoint, retmax, retmin, sleep,
   * error_sleep)` with an oracle for the responses: the `id` parameter of
   * every request, what was written to the file, the sleeps, the total
   * reported to the progress bar, and how the loop ended.
   */
  method DownloadPubmedIds(ids: seq<string>, endpoint: string, retmax: nat, retmin: nat,
                           sleep: real, errorSleep: real, responses: seq<Response>)
    returns (outcome: Outcome, requests: seq<string>, written: seq<string>, sleeps: seq<real>,
             progress: nat, used: nat)
    requires retmax >= 1 && retmin >= 1
    ensures var cfg := Settings(ids, retmax, retmin, sleep, errorSleep);
            var fin := Loop(cfg, Initial(cfg), responses);
            && used == fin.1 && requests == fin.0.requests && sleeps == fin.0.sleeps
            && progress == fin.0.progress
            && (outcome == Unfinished <==> fin.0.queue != [])
            && (outcome == UnboundTree <==> fin.0.queue == [] && fin.0.tree.None?)
            && (outcome == Completed ==> fin.0.tree.Some? && written == fin.0.written + [CloseTag(fin.0.tree.value)])
            && (outcome != Completed ==> written == fin.0.written)
    ensures used <= |responses| && |requests| == used
    ensures sleeps == SleepLog(responses[..used], sleep, errorSleep)
    ensures outcome == UnboundTree <==> outcome != Unfinished && Successes(responses[..used]) == []
    ensures outcome == UnboundTree ==> ids == [] && written == []
    ensures outcome == Completed ==>
              Successes(responses[..used]) != [] && written == Document(Successes(responses[..used]))
    ensures outcome == Unfinished ==> used == |responses| && written == Written(Successes(responses[..used]))
    ensures outcome != Unfinished ==> progress == |ids|
  {
    var d := new Downloader(ids, endpoint, retmax, retmin, sleep, errorSleep);
    ghost var cfg := Settings(ids, retmax, retmin, sleep, errorSleep);
    assert d.Config() == cfg && d.State() == Initial(cfg);
    assert d.attempts == [] && d.sleep == sleep && d.errorSleep == errorSleep && d.ids == ids;
    outcome, used := d.Run(responses);
    assert d.attempts == responses[..used];
    LoopConsumes(cfg, Initial(cfg), responses);
    requests, written, sleeps, progress := d.requests, d.written, d.sleeps, d.progress;
  }
}
