/**
 * The leaderboard walker: the paging loop of `Program.Main`.
 *
 * The network is abstracted as the sequence of outcomes the successive page
 * requests have.  A page outcome is either a transport failure of the page
 * request itself, any other exception of the page request, or the listed
 * leaderboards, each with the outcome of `DownloadLeaderboardScores` for it.
 * The real loop has no bound; the model runs until the outcomes run out.
 */
module Walker {

  /** The `count` requested per page; a page with fewer leaderboards is the last. */
  const PageSize: int := 100

  /** The first page number requested. */
  const FirstPage: int := 1

  /**
   * `DownloadLeaderboardScores` for one listed leaderboard: it completed, it
   * threw an `HttpRequestException` (caught by `Main`), or it threw any
   * other exception (which `Main` does not catch).
   */
  datatype Leaderboard = Downloaded | TransportFailure | OtherFailure

  /**
   * One page request: an `HttpRequestException` before the body was read
   * (`FetchFailed`), any other exception of the page request (`Malformed`:
   * a body that fails to deserialise, a null `Data`, a request timeout, ...),
   * or the page's list of leaderboards.
   */
  datatype PageOutcome = FetchFailed | Malformed | Listed(leaderboards: seq<Leaderboard>)

  /** Why the walk ended: the `break` on a short page, an uncaught exception, or no more outcomes. */
  datatype Stop = LastPage | Crashed | OutOfOutcomes

  /** The effect of one pass through the loop body. */
  datatype Step = Continue(page: int, count: int) | Halt(count: int, stop: Stop)

  /** Final `page` and `leaderboardCount`, the page numbers requested in order, and why it ended. */
  datatype Walk = Walk(page: int, count: int, requested: seq<int>, stop: Stop)

  /** Index of the first leaderboard at or after `j` whose download did not complete, or `|lbs|`. */
  function CompletedFrom(lbs: seq<Leaderboard>, j: nat): (k: nat)
    requires j <= |lbs|
    ensures j <= k <= |lbs|
    ensures forall i :: j <= i < k ==> lbs[i] == Downloaded
    ensures k < |lbs| ==> lbs[k] != Downloaded
    decreases |lbs| - j
  {
    if j == |lbs| || lbs[j] != Downloaded then j else CompletedFrom(lbs, j + 1)
  }

  /** The download of leaderboard `k` ended in `failure` after all earlier ones completed. */
  predicate FailsFirstAt(lbs: seq<Leaderboard>, k: int, failure: Leaderboard) {
    0 <= k < |lbs| && lbs[k] == failure && forall i :: 0 <= i < k ==> lbs[i] == Downloaded
  }

  /** The first download that did not complete is the one `CompletedFrom` stops at. */
  lemma FirstFailureAt(lbs: seq<Leaderboard>)
    ensures forall k, failure :: FailsFirstAt(lbs, k, failure) && failure != Downloaded ==>
              CompletedFrom(lbs, 0) == k
  {
  }

  /** How many leaderboards of a page were processed (and counted) before the page ended. */
  function Processed(o: PageOutcome): (n: nat)
    ensures o.Listed? ==> n <= |o.leaderboards| && forall i :: 0 <= i < n ==> o.leaderboards[i] == Downloaded
    ensures o.Listed? && n < |o.leaderboards| ==> o.leaderboards[n] != Downloaded
    ensures !o.Listed? ==> n == 0
  {
    if o.Listed? then CompletedFrom(o.leaderboards, 0) else 0
  }

  /** Every leaderboard of a full page was processed: the next page is requested. */
  predicate IsFull(o: PageOutcome)
    ensures IsFull(o) <==> o.Listed? && |o.leaderboards| >= PageSize &&
                           forall i :: 0 <= i < |o.leaderboards| ==> o.leaderboards[i] == Downloaded
  {
    o.Listed? && Processed(o) == |o.leaderboards| && |o.leaderboards| >= PageSize
  }

  /** Every leaderboard of a short page was processed: the loop breaks. */
  predicate IsLast(o: PageOutcome)
    ensures IsLast(o) <==> o.Listed? && |o.leaderboards| < PageSize &&
                           forall i :: 0 <= i < |o.leaderboards| ==> o.leaderboards[i] == Downloaded
  {
    o.Listed? && Processed(o) == |o.leaderboards| && |o.leaderboards| < PageSize
  }

  /** An `HttpRequestException` from the page request or from one of its leaderboards: same page again. */
  predicate IsRetry(o: PageOutcome)
    ensures IsRetry(o) <==> (o.FetchFailed? || (o.Listed? && exists k :: FailsFirstAt(o.leaderboards, k, TransportFailure)))
  {
    match o
    case FetchFailed => true
    case Malformed => false
    case Listed(lbs) => FirstFailureAt(lbs); FailsFirstAt(lbs, Processed(o), TransportFailure)
  }

  /** Any other exception: it leaves `Main`. */
  predicate IsCrash(o: PageOutcome)
    ensures IsCrash(o) <==> (o.Malformed? || (o.Listed? && exists k :: FailsFirstAt(o.leaderboards, k, OtherFailure)))
  {
    match o
    case Malformed => true
    case FetchFailed => false
    case Listed(lbs) => FirstFailureAt(lbs); FailsFirstAt(lbs, Processed(o), OtherFailure)
  }

  /** An outcome after which no further page is requested. */
  predicate IsTerminal(o: PageOutcome) {
    IsLast(o) || IsCrash(o)
  }

  /** Every page outcome falls in exactly one of the four classes. */
  lemma OutcomeClasses(o: PageOutcome)
    ensures IsFull(o) || IsLast(o) || IsRetry(o) || IsCrash(o)
    ensures !(IsFull(o) && IsLast(o)) && !(IsFull(o) && IsRetry(o)) && !(IsFull(o) && IsCrash(o))
    ensures !(IsLast(o) && IsRetry(o)) && !(IsLast(o) && IsCrash(o)) && !(IsRetry(o) && IsCrash(o))
  {
  }

  /**
   * One pass of the `do` body on the page `page` with `leaderboardCount`
   * equal to `count`.  Every processed leaderboard is counted, even on a
   * page that then fails and is retried.
   */
  function StepPage(page: int, count: int, o: PageOutcome): (r: Step)
    ensures r.count == count + Processed(o)
    ensures r.Continue? <==> IsFull(o) || IsRetry(o)
    ensures r.Continue? ==> r.page == if IsFull(o) then page + 1 else page
    ensures r.Halt? ==> (r.stop == LastPage <==> IsLast(o)) && (r.stop == Crashed <==> IsCrash(o))
    ensures r.Halt? ==> r.stop != OutOfOutcomes
  {
    match o
    case FetchFailed => Continue(page, count)
    case Malformed => Halt(count, Crashed)
    case Listed(lbs) =>
      var k := CompletedFrom(lbs, 0);
      if k < |lbs| then
        if lbs[k] == TransportFailure then Continue(page, count + k) else Halt(count + k, Crashed)
      else if |lbs| < PageSize then Halt(count + k, LastPage)
      else Continue(page + 1, count + k)
  }

  /** The loop from outcome `i` on, with the page requests made so far in `requested`. */
  function Run(outs: seq<PageOutcome>, i: nat, page: int, count: int, requested: seq<int>): (w: Walk)
    requires i <= |outs|
    ensures |requested| < |w.requested| <= |requested| + (|outs| - i) || (i == |outs| && w.requested == requested)
    decreases |outs| - i
  {
    if i == |outs| then Walk(page, count, requested, OutOfOutcomes)
    else match StepPage(page, count, outs[i])
      case Continue(page', count') => Run(outs, i + 1, page', count', requested + [page])
      case Halt(count', stop) => Walk(page, count', requested + [page], stop)
  }

  /** The whole walk, from `page = 1` and `leaderboardCount = 0`. */
  function Harvest(outs: seq<PageOutcome>): (w: Walk)
    ensures |w.requested| <= |outs|
  {
    Run(outs, 0, FirstPage, 0, [])
  }

  /** Number of full pages among `outs[i..j]`. */
  function FullPages(outs: seq<PageOutcome>, i: nat, j: nat): nat
    requires i <= j <= |outs|
    decreases j - i
  {
    if i == j then 0 else (if IsFull(outs[i]) then 1 else 0) + FullPages(outs, i + 1, j)
  }

  /** Number of leaderboards processed over `outs[i..j]`. */
  function ProcessedOver(outs: seq<PageOutcome>, i: nat, j: nat): nat
    requires i <= j <= |outs|
    decreases j - i
  {
    if i == j then 0 else Processed(outs[i]) + ProcessedOver(outs, i + 1, j)
  }

  /** `Run` from outcome `i`, with the effect of the earlier outcomes already accumulated. */
  lemma {:induction false} RunFacts(outs: seq<PageOutcome>, i: nat, page: int, count: int, requested: seq<int>)
    requires i <= |outs|
    ensures var w := Run(outs, i, page, count, requested);
      var n := |w.requested| - |requested|;
      0 <= n && i + n <= |outs| &&
      w.requested[..|requested|] == requested &&
      (forall j :: i <= j < i + n ==> w.requested[|requested| + (j - i)] == page + FullPages(outs, i, j)) &&
      (forall j :: i <= j < i + n - 1 ==> !IsTerminal(outs[j])) &&
      w.page == page + FullPages(outs, i, i + n) &&
      w.count == count + ProcessedOver(outs, i, i + n) &&
      (w.stop == LastPage ==> n > 0 && IsLast(outs[i + n - 1])) &&
      (w.stop == Crashed ==> n > 0 && IsCrash(outs[i + n - 1])) &&
      (w.stop == OutOfOutcomes ==> i + n == |outs| && (n > 0 ==> !IsTerminal(outs[i + n - 1])))
    decreases |outs| - i
  {
    if i < |outs| {
      var s := StepPage(page, count, outs[i]);
      OutcomeClasses(outs[i]);
      match s
      case Halt(_, _) =>
        assert FullPages(outs, i, i + 1) == 0;
        assert ProcessedOver(outs, i, i + 1) == Processed(outs[i]);
      case Continue(page', count') =>
        var requested' := requested + [page];
        RunFacts(outs, i + 1, page', count', requested');
        var w := Run(outs, i + 1, page', count', requested');
        var n := |w.requested| - |requested|;
        assert w.requested[..|requested'|] == requested';
        assert w.requested[..|requested|] == requested'[..|requested|];
        forall j | i <= j < i + n
          ensures w.requested[|requested| + (j - i)] == page + FullPages(outs, i, j)
        {
          if j > i {
            assert |requested| + (j - i) == |requested'| + (j - (i + 1));
          }
        }
    }
  }

  /**
   * What the walk does, from the first page:
   *  - it requests pages in order starting at page 1; the page number
   *    requested at step j is 1 plus the number of full pages before it, so
   *    a retried outcome requests the same page again and a full page moves
   *    on by exactly one;
   *  - `leaderboardCount` is the number of leaderboards processed over all
   *    requests made;
   *  - it stops right after the first short (last) page or uncaught failure,
   *    and only runs out of outcomes if it met neither.
   */
  lemma HarvestFacts(outs: seq<PageOutcome>)
    ensures var w := Harvest(outs);
      var n := |w.requested|;
      n <= |outs| &&
      (forall j :: 0 <= j < n ==> w.requested[j] == FirstPage + FullPages(outs, 0, j)) &&
      (forall j :: 0 <= j < n - 1 ==> !IsTerminal(outs[j])) &&
      w.page == FirstPage + FullPages(outs, 0, n) &&
      w.count == ProcessedOver(outs, 0, n) &&
      (w.stop == LastPage ==> 0 < n && IsLast(outs[n - 1])) &&
      (w.stop == Crashed ==> 0 < n && IsCrash(outs[n - 1])) &&
      (w.stop == OutOfOutcomes ==> n == |outs| && (n > 0 ==> !IsTerminal(outs[n - 1]))) &&
      (w.stop != OutOfOutcomes ==> 0 < n && IsTerminal(outs[n - 1]))
  {
    RunFacts(outs, 0, FirstPage, 0, []);
  }

  /** Consecutive requests: the same page after a retry, the next page after a full one. */
  lemma RequestsAdvance(outs: seq<PageOutcome>, j: nat)
    requires j + 1 < |Harvest(outs).requested|
    ensures IsRetry(outs[j]) ==> Harvest(outs).requested[j + 1] == Harvest(outs).requested[j]
    ensures IsFull(outs[j]) ==> Harvest(outs).requested[j + 1] == Harvest(outs).requested[j] + 1
  {
    HarvestFacts(outs);
    assert FullPages(outs, j, j + 1) == (if IsFull(outs[j]) then 1 else 0);
    FullPagesSplit(outs, 0, j, j + 1);
  }

  /** Counting full pages over two adjacent ranges adds up. */
  lemma {:induction false} FullPagesSplit(outs: seq<PageOutcome>, i: nat, j: nat, k: nat)
    requires i <= j <= k <= |outs|
    ensures FullPages(outs, i, k) == FullPages(outs, i, j) + FullPages(outs, j, k)
    decreases j - i
  {
    if i < j {
      FullPagesSplit(outs, i + 1, j, k);
    }
  }

  /**
   * The walk stops at the first terminal outcome: if outcome `j` is the
   * first short page or uncaught failure, exactly `j + 1` pages are
   * requested and the walk ends for that reason.
   */
  lemma StopsAtFirstTerminal(outs: seq<PageOutcome>, j: nat)
    requires j < |outs| && IsTerminal(outs[j])
    requires forall k :: 0 <= k < j ==> !IsTerminal(outs[k])
    ensures |Harvest(outs).requested| == j + 1
    ensures Harvest(outs).stop == (if IsLast(outs[j]) then LastPage else Crashed)
  {
    HarvestFacts(outs);
    OutcomeClasses(outs[j]);
    var w := Harvest(outs);
    var n := |w.requested|;
    assert j < n by {
      if w.stop != OutOfOutcomes {
        assert IsTerminal(outs[n - 1]);
      }
    }
  }

  /** Without a terminal outcome the walk keeps requesting and consumes every outcome. */
  lemma NoTerminalNoStop(outs: seq<PageOutcome>)
    requires forall k :: 0 <= k < |outs| ==> !IsTerminal(outs[k])
    ensures Harvest(outs).stop == OutOfOutcomes && |Harvest(outs).requested| == |outs|
  {
    HarvestFacts(outs);
  }

  /**
   * The loop of `Main`: `page` starts at 1 and `leaderboardCount` at 0; a
   * caught `HttpRequestException` re-requests the same page; the walk breaks
   * on a page with fewer than `PageSize` leaderboards and otherwise goes on
   * to `page + 1`.
   */
  method HarvestLeaderboards(outs: seq<PageOutcome>)
    returns (page: int, leaderboardCount: int, requested: seq<int>, stop: Stop)
    ensures Walk(page, leaderboardCount, requested, stop) == Harvest(outs)
  {
    leaderboardCount := 0;
    page := FirstPage;
    requested := [];
    var i := 0;
    while i < |outs|
      invariant 0 <= i <= |outs|
      invariant Run(outs, i, page, leaderboardCount, requested) == Harvest(outs)
      decreases |outs| - i
    {
      ghost var before := leaderboardCount;
      requested := requested + [page];
      match outs[i] {
        case FetchFailed =>
          // caught: the same page is requested again
        case Malformed =>
          return page, leaderboardCount, requested, Crashed;
        case Listed(lbs) =>
          var j := 0;
          while j < |lbs| && lbs[j] == Downloaded
            invariant 0 <= j <= |lbs|
            invariant CompletedFrom(lbs, j) == CompletedFrom(lbs, 0)
            invariant leaderboardCount == before + j
          {
            leaderboardCount := leaderboardCount + 1;
            j := j + 1;
          }
          if j < |lbs| {
            if lbs[j] == OtherFailure {
              return page, leaderboardCount, requested, Crashed;
            }
            // an HttpRequestException: caught, the same page is requested again
          } else {
            if |lbs| < PageSize {
              return page, leaderboardCount, requested, LastPage;
            }
            page := page + 1;
          }
      }
      i := i + 1;
    }
    stop := OutOfOutcomes;
  }
}
