/** The Mercury remote aggregator: per feed, the latest valid report ever seen, kept across calls. */
module MercuryAggregator {

  datatype FeedReport = FeedReport(feedID: string, observationTimestamp: int, fullReport: string)

  /** One node's response: unreadable, or the reports it unwraps to. */
  datatype Response = Unreadable | Reports(reports: seq<FeedReport>)

  datatype AggregateResult = NoValidReports | Aggregated(reportList: seq<FeedReport>)

  type Cache = map<string, FeedReport>

  type Validator = FeedReport -> bool

  // ---------- specification ----------

  /** One report against the cache: a later, valid report of its feed replaces the cached one. */
  function Absorb(valid: Validator, cache: Cache, report: FeedReport): Cache {
    var f := report.feedID;
    if (f !in cache || report.observationTimestamp > cache[f].observationTimestamp) && valid(report)
    then cache[f := report] else cache
  }

  function AbsorbAll(valid: Validator, cache: Cache, reports: seq<FeedReport>): Cache {
    if reports == [] then cache
    else Absorb(valid, AbsorbAll(valid, cache, reports[..|reports| - 1]), reports[|reports| - 1])
  }

  /** All reports of a batch, in order of arrival. */
  function AllReports(responses: seq<Response>): seq<FeedReport> {
    if responses == [] then []
    else AllReports(responses[..|responses| - 1]) +
         match responses[|responses| - 1] case Unreadable => [] case Reports(rs) => rs
  }

  function FeedsOf(reports: seq<FeedReport>): set<string> {
    set r | r in reports :: r.feedID
  }

  /** The cache entries of the feeds that occur among the reports. */
  function Restricted(cache: Cache, feeds: set<string>): Cache {
    map f | f in cache && f in feeds :: cache[f]
  }

  ghost predicate KeyedByFeed(cache: Cache) {
    forall f :: f in cache ==> cache[f].feedID == f
  }

  /** Lexicographic order of strings. */
  predicate Before(a: string, b: string) {
    b != "" && (a == "" || a[0] < b[0] || (a[0] == b[0] && Before(a[1..], b[1..])))
  }

  ghost predicate StrictlyAscending(ids: seq<string>) {
    forall i, j :: 0 <= i < j < |ids| ==> Before(ids[i], ids[j])
  }

  function FeedIDs(list: seq<FeedReport>): (ids: seq<string>)
    ensures |ids| == |list|
  {
    seq(|list|, k requires 0 <= k < |list| => list[k].feedID)
  }

  /** The answer to a batch that brought the cache to `cache`: the cached reports of the batch's feeds, in ascending
      order of feed, or an error when there are none. */
  ghost predicate IsAnswer(cache: Cache, feeds: set<string>, r: AggregateResult) {
    match r
    case NoValidReports => forall f :: f in cache ==> f !in feeds
    case Aggregated(list) =>
      && list != []
      && StrictlyAscending(FeedIDs(list))
      && (forall f :: f in FeedIDs(list) <==> f in cache && f in feeds)
      && (forall k :: 0 <= k < |list| ==> list[k].feedID in cache && list[k] == cache[list[k].feedID])
  }

  // ---------- the order ----------

  lemma {:induction false} BeforeTransitive(a: string, b: string, c: string)
    requires Before(a, b) && Before(b, c)
    ensures Before(a, c)
  {
    if a != "" && a[0] == b[0] && b[0] == c[0] {
      BeforeTransitive(a[1..], b[1..], c[1..]);
    }
  }

  lemma {:induction false} BeforeTotal(a: string, b: string)
    ensures a == b || Before(a, b) || Before(b, a)
    ensures !(Before(a, b) && Before(b, a)) && !Before(a, a)
    decreases |a|
  {
    if a != "" {
      BeforeTotal(a[1..], a[1..]);
    }
    if a != "" && b != "" && a[0] == b[0] {
      BeforeTotal(a[1..], b[1..]);
      assert a == [a[0]] + a[1..] && b == [b[0]] + b[1..];
    }
  }

  /** The order of strings, spelled out: at the first position where the two differ, `a` has ended or has the smaller
      character. */
  ghost predicate Precedes(a: string, b: string) {
    exists i :: Agree(a, b, i) && i < |b| && (i == |a| || a[i] < b[i])
  }

  /** The first `n` characters are the same. */
  ghost predicate Agree(a: string, b: string, n: int) {
    0 <= n <= |a| && n <= |b| && forall j :: 0 <= j < n ==> a[j] == b[j]
  }

  lemma {:induction false} BeforeMeaning(a: string, b: string)
    ensures Before(a, b) <==> Precedes(a, b)
    decreases |a|
  {
    assert Agree(a, b, 0);
    if a != "" && b != "" && a[0] == b[0] {
      var a', b' := a[1..], b[1..];
      BeforeMeaning(a', b');
      if i :| Agree(a', b', i) && i < |b'| && (i == |a'| || a'[i] < b'[i]) {
        assert Agree(a, b, i + 1);
      }
      if i :| Agree(a, b, i) && i < |b| && (i == |a| || a[i] < b[i]) {
        assert Agree(a', b', i - 1);
      }
    }
  }

  lemma AnswerOrder(cache: Cache, feeds: set<string>, r: AggregateResult)
    requires IsAnswer(cache, feeds, r) && r.Aggregated?
    ensures forall i, j :: 0 <= i < j < |r.reportList| ==> Precedes(r.reportList[i].feedID, r.reportList[j].feedID)
  {
    hide Before, Precedes;
    var list := r.reportList;
    forall i, j | 0 <= i < j < |list|
      ensures Precedes(list[i].feedID, list[j].feedID)
    {
      assert FeedIDs(list)[i] == list[i].feedID && FeedIDs(list)[j] == list[j].feedID;
      BeforeMeaning(list[i].feedID, list[j].feedID);
    }
  }

  lemma InsertAscending(ids: seq<string>, k: nat, id: string)
    requires StrictlyAscending(ids) && k <= |ids|
    requires forall i :: 0 <= i < k ==> Before(ids[i], id)
    requires k < |ids| ==> Before(id, ids[k])
    ensures StrictlyAscending(ids[..k] + [id] + ids[k..])
  {
    hide Before;
    var longer := ids[..k] + [id] + ids[k..];
    forall i, j | 0 <= i < j < |longer|
      ensures Before(longer[i], longer[j])
    {
      if j > k {
        assert longer[j] == ids[j - 1];
        if i == k && j - 1 > k {
          BeforeTransitive(id, ids[k], ids[j - 1]);
        }
      }
    }
  }

  /** The standard library's sort, as insertion. */
  method SortedInsert(ids: seq<string>, id: string) returns (longer: seq<string>)
    requires StrictlyAscending(ids) && id !in ids
    ensures StrictlyAscending(longer)
    ensures forall x :: x in longer <==> x in ids || x == id
  {
    hide StrictlyAscending;
    var k := 0;
    while k < |ids| && Before(ids[k], id)
      invariant 0 <= k <= |ids|
      invariant forall i :: 0 <= i < k ==> Before(ids[i], id)
    {
      k := k + 1;
    }
    if k < |ids| {
      BeforeTotal(ids[k], id);
    }
    InsertAscending(ids, k, id);
    longer := ids[..k] + [id] + ids[k..];
    assert ids == ids[..k] + ids[k..];
  }

  // ---------- the aggregator ----------

  class MercuryRemoteAggregator {
    const valid: Validator
    var previousLatestReports: Cache

    ghost predicate Valid()
      reads this
    {
      KeyedByFeed(previousLatestReports)
    }

    constructor (valid: Validator)
      ensures Valid() && this.valid == valid && previousLatestReports == map[]
    {
      this.valid := valid;
      previousLatestReports := map[];
    }

    /** The innermost loop body: one report against this batch's latest reports and the cache. */
    method SaveLatest(latestReports: Cache, report: FeedReport, ghost seen: seq<FeedReport>) returns (latest: Cache)
      requires Valid() && latestReports == Restricted(previousLatestReports, FeedsOf(seen))
      modifies this`previousLatestReports
      ensures Valid()
      ensures previousLatestReports == Absorb(valid, old(previousLatestReports), report)
      ensures latest == Restricted(previousLatestReports, FeedsOf(seen + [report]))
    {
      latest := latestReports;
      var f := report.feedID;
      assert FeedsOf(seen + [report]) == FeedsOf(seen) + {f};
      var ok := f in latest;
      var latestReport := report;
      if ok {
        latestReport := latest[f];
      } else if f in previousLatestReports {
        ok := true;
        latestReport := previousLatestReports[f];
        latest := latest[f := latestReport];
      }
      if !ok || report.observationTimestamp > latestReport.observationTimestamp {
        if valid(report) {
          latest := latest[f := report];
          previousLatestReports := previousLatestReports[f := report];
        }
      }
    }

    /** `Aggregate`: the cache absorbs the whole batch, and the answer is read off the new cache. */
    method Aggregate(responses: seq<Response>) returns (r: AggregateResult)
      requires Valid()
      modifies this`previousLatestReports
      ensures Valid()
      ensures previousLatestReports == AbsorbAll(valid, old(previousLatestReports), AllReports(responses))
      ensures IsAnswer(previousLatestReports, FeedsOf(AllReports(responses)), r)
      ensures r.Aggregated? ==>
                forall i, j :: 0 <= i < j < |r.reportList| ==> Precedes(r.reportList[i].feedID, r.reportList[j].feedID)
    {
      hide Absorb, Precedes, Before;
      var latestReports: Cache := map[];
      ghost var seen: seq<FeedReport> := [];
      for i := 0 to |responses|
        invariant Valid() && seen == AllReports(responses[..i])
        invariant previousLatestReports == AbsorbAll(valid, old(previousLatestReports), seen)
        invariant latestReports == Restricted(previousLatestReports, FeedsOf(seen))
      {
        assert responses[..i + 1][..i] == responses[..i];
        if responses[i].Unreadable? {
          continue;
        }
        var feedReports := responses[i].reports;
        ghost var start := seen;
        for k := 0 to |feedReports|
          invariant Valid() && seen == start + feedReports[..k]
          invariant previousLatestReports == AbsorbAll(valid, old(previousLatestReports), seen)
          invariant latestReports == Restricted(previousLatestReports, FeedsOf(seen))
        {
          latestReports := SaveLatest(latestReports, feedReports[k], seen);
          assert (seen + [feedReports[k]])[..|seen|] == seen;
          seen := seen + [feedReports[k]];
          assert feedReports[..k + 1] == feedReports[..k] + [feedReports[k]];
        }
        assert feedReports[..|feedReports|] == feedReports;
      }
      assert responses[..|responses|] == responses;
      hide AbsorbAll, AllReports;
      r := Assemble(latestReports);
      AnswerOfRestricted(previousLatestReports, FeedsOf(seen), r);
      if r.Aggregated? {
        AnswerOrder(previousLatestReports, FeedsOf(seen), r);
      }
    }

    /** The answer from this batch's latest reports: ids collected in any order, then sorted. */
    method Assemble(latestReports: Cache) returns (r: AggregateResult)
      requires KeyedByFeed(latestReports)
      ensures IsAnswer(latestReports, latestReports.Keys, r)
    {
      if |latestReports| == 0 {
        return NoValidReports;
      }
      var ids: seq<string> := [];
      var todo := latestReports.Keys;
      while todo != {}
        invariant StrictlyAscending(ids) && todo <= latestReports.Keys
        invariant forall f :: f in ids <==> f in latestReports.Keys - todo
        decreases todo
      {
        var f :| f in todo;
        ids := SortedInsert(ids, latestReports[f].feedID);
        todo := todo - {f};
      }
      var list: seq<FeedReport> := [];
      for k := 0 to |ids|
        invariant |list| == k && forall i :: 0 <= i < k ==> ids[i] in latestReports && list[i] == latestReports[ids[i]]
      {
        assert ids[k] in ids;
        list := list + [latestReports[ids[k]]];
      }
      assert FeedIDs(list) == ids;
      var some :| some in latestReports;
      assert some in ids;
      return Aggregated(list);
    }
  }

  lemma AnswerOfRestricted(cache: Cache, feeds: set<string>, r: AggregateResult)
    requires var latest := Restricted(cache, feeds); IsAnswer(latest, latest.Keys, r)
    ensures IsAnswer(cache, feeds, r)
  {
    var latest := Restricted(cache, feeds);
    assert forall f :: f in cache && f in feeds <==> f in latest;
  }

  // ---------- what the cache means ----------

  ghost predicate IsCandidate(valid: Validator, reports: seq<FeedReport>, f: string, r: FeedReport) {
    r in reports && r.feedID == f && valid(r)
  }

  ghost predicate HasCandidate(valid: Validator, reports: seq<FeedReport>, f: string) {
    exists r :: IsCandidate(valid, reports, f, r)
  }

  /** `latest` holds, for each feed, a report with the greatest timestamp among the cached one and the valid ones. */
  ghost predicate HoldsLatest(valid: Validator, cache: Cache, reports: seq<FeedReport>, latest: Cache) {
    && (forall f :: f in latest <==> f in cache || HasCandidate(valid, reports, f))
    && (forall f :: f in latest ==> (f in cache && latest[f] == cache[f]) || IsCandidate(valid, reports, f, latest[f]))
    && (forall f :: f in cache && f in latest ==> cache[f].observationTimestamp <= latest[f].observationTimestamp)
    && (forall f, r :: IsCandidate(valid, reports, f, r) && f in latest ==> r.observationTimestamp <= latest[f].observationTimestamp)
  }

  /** Per-feed maximum: after a batch the cache holds exactly the latest of the old entries and the batch's valid reports. */
  lemma {:induction false} AbsorbAllHoldsLatest(valid: Validator, cache: Cache, reports: seq<FeedReport>)
    requires KeyedByFeed(cache)
    ensures KeyedByFeed(AbsorbAll(valid, cache, reports))
    ensures HoldsLatest(valid, cache, reports, AbsorbAll(valid, cache, reports))
    decreases |reports|
  {
    if reports != [] {
      var front, last := reports[..|reports| - 1], reports[|reports| - 1];
      AbsorbAllHoldsLatest(valid, cache, front);
      assert reports == front + [last];
      AbsorbStep(valid, cache, front, last, AbsorbAll(valid, cache, front));
    }
  }

  lemma AbsorbStep(valid: Validator, cache: Cache, front: seq<FeedReport>, last: FeedReport, before: Cache)
    requires KeyedByFeed(before) && HoldsLatest(valid, cache, front, before)
    ensures HoldsLatest(valid, cache, front + [last], Absorb(valid, before, last))
  {
    forall f
      ensures HasCandidate(valid, front + [last], f) <==> HasCandidate(valid, front, f) || (last.feedID == f && valid(last))
    {
      CandidatesSnoc(valid, front, last, f);
    }
    assert forall f, r :: IsCandidate(valid, front, f, r) ==> IsCandidate(valid, front + [last], f, r);
    var after := Absorb(valid, before, last);
    forall f, r | IsCandidate(valid, front + [last], f, r) && f in after
      ensures r.observationTimestamp <= after[f].observationTimestamp
    {
      if IsCandidate(valid, front, f, r) {
        assert HasCandidate(valid, front, f);
      }
    }
  }

  lemma CandidatesSnoc(valid: Validator, front: seq<FeedReport>, last: FeedReport, f: string)
    ensures HasCandidate(valid, front + [last], f) <==> HasCandidate(valid, front, f) || (last.feedID == f && valid(last))
  {
    if r :| IsCandidate(valid, front, f, r) {
      assert IsCandidate(valid, front + [last], f, r);
    }
    if last.feedID == f && valid(last) {
      assert IsCandidate(valid, front + [last], f, last);
    }
    if r :| IsCandidate(valid, front + [last], f, r) {
      assert r == last || IsCandidate(valid, front, f, r);
    }
  }

  ghost predicate IsValidReport(valid: Validator, reports: seq<FeedReport>, f: string, k: int) {
    0 <= k < |reports| && reports[k].feedID == f && valid(reports[k])
  }

  /** No valid report of the first `n` is later than `ts`. */
  ghost predicate NoneLater(valid: Validator, reports: seq<FeedReport>, f: string, n: int, ts: int) {
    forall j :: IsValidReport(valid, reports, f, j) && j < n ==> reports[j].observationTimestamp <= ts
  }

  /** The `k`-th report is later than the cached one and than the valid ones before it, and no valid one is later. */
  ghost predicate IsFirstLatest(valid: Validator, cache: Cache, reports: seq<FeedReport>, f: string, k: int) {
    && IsValidReport(valid, reports, f, k)
    && (f in cache ==> cache[f].observationTimestamp < reports[k].observationTimestamp)
    && NoneLater(valid, reports, f, k, reports[k].observationTimestamp - 1)
    && NoneLater(valid, reports, f, |reports|, reports[k].observationTimestamp)
  }

  /** Which report is to be held, exactly: the cached one unless a valid one is later, else the first of the latest. */
  ghost predicate IsHeld(valid: Validator, cache: Cache, reports: seq<FeedReport>, f: string, r: FeedReport) {
    || (f in cache && r == cache[f] && NoneLater(valid, reports, f, |reports|, r.observationTimestamp))
    || exists k :: IsFirstLatest(valid, cache, reports, f, k) && r == reports[k]
  }

  lemma LaterSnoc(valid: Validator, front: seq<FeedReport>, last: FeedReport, f: string, n: int, ts: int)
    ensures n <= |front| ==> (NoneLater(valid, front + [last], f, n, ts) <==> NoneLater(valid, front, f, n, ts))
    ensures NoneLater(valid, front + [last], f, |front| + 1, ts)
       <==> NoneLater(valid, front, f, |front|, ts) && (last.feedID == f && valid(last) ==> last.observationTimestamp <= ts)
  {
    var all := front + [last];
    assert forall j :: j < |front| ==> (IsValidReport(valid, all, f, j) <==> IsValidReport(valid, front, f, j));
    assert IsValidReport(valid, all, f, |front|) <==> last.feedID == f && valid(last);
  }

  /** A report that is not later, not valid or of another feed changes nothing. */
  lemma HeldStays(valid: Validator, cache: Cache, front: seq<FeedReport>, last: FeedReport, f: string, r: FeedReport)
    requires IsHeld(valid, cache, front, f, r)
    requires last.feedID == f && valid(last) ==> last.observationTimestamp <= r.observationTimestamp
    ensures IsHeld(valid, cache, front + [last], f, r)
  {
    hide NoneLater;
    LaterSnoc(valid, front, last, f, 0, r.observationTimestamp);
    if k :| IsFirstLatest(valid, cache, front, f, k) && r == front[k] {
      LaterSnoc(valid, front, last, f, k, r.observationTimestamp - 1);
      assert IsFirstLatest(valid, cache, front + [last], f, k);
    }
  }

  /** A later valid report takes over. */
  lemma HeldReplaced(valid: Validator, cache: Cache, front: seq<FeedReport>, last: FeedReport, f: string)
    requires last.feedID == f && valid(last)
    requires f in cache ==> cache[f].observationTimestamp < last.observationTimestamp
    requires NoneLater(valid, front, f, |front|, last.observationTimestamp - 1)
    ensures IsHeld(valid, cache, front + [last], f, last)
  {
    LaterSnoc(valid, front, last, f, |front|, last.observationTimestamp - 1);
    assert IsFirstLatest(valid, cache, front + [last], f, |front|);
  }

  lemma HeldIsLatest(valid: Validator, cache: Cache, reports: seq<FeedReport>, f: string, r: FeedReport, ts: int)
    requires IsHeld(valid, cache, reports, f, r) && r.observationTimestamp < ts
    ensures NoneLater(valid, reports, f, |reports|, ts - 1)
    ensures f in cache ==> cache[f].observationTimestamp < ts
  {
  }

  /** Ties go to the report that came first: the cache holds exactly the report that is to be held, and has no entry
      exactly when there was none and no valid report came. */
  lemma {:induction false} EarliestIsKept(valid: Validator, cache: Cache, reports: seq<FeedReport>, f: string)
    ensures var latest := AbsorbAll(valid, cache, reports);
            if f in latest then IsHeld(valid, cache, reports, f, latest[f])
            else f !in cache && forall j :: !IsValidReport(valid, reports, f, j)
    decreases |reports|
  {
    hide IsHeld;
    if reports == [] {
      if f in cache {
        assert IsHeld(valid, cache, [], f, cache[f]) by { HeldAtFirst(valid, cache, f); }
      }
    } else {
      var front, last := reports[..|reports| - 1], reports[|reports| - 1];
      EarliestIsKept(valid, cache, front, f);
      assert reports == front + [last];
      var before := AbsorbAll(valid, cache, front);
      if f in before && !(last.feedID == f && valid(last) && last.observationTimestamp > before[f].observationTimestamp) {
        HeldStays(valid, cache, front, last, f, before[f]);
      } else if last.feedID == f && valid(last) {
        if f in before {
          HeldIsLatest(valid, cache, front, f, before[f], last.observationTimestamp);
        }
        HeldReplaced(valid, cache, front, last, f);
      } else {
        NoValidSnoc(valid, front, last, f);
      }
    }
  }

  lemma HeldAtFirst(valid: Validator, cache: Cache, f: string)
    requires f in cache
    ensures IsHeld(valid, cache, [], f, cache[f])
  {
  }

  lemma NoValidSnoc(valid: Validator, front: seq<FeedReport>, last: FeedReport, f: string)
    requires (forall j :: !IsValidReport(valid, front, f, j)) && !(last.feedID == f && valid(last))
    ensures forall j :: !IsValidReport(valid, front + [last], f, j)
  {
    forall j
      ensures !IsValidReport(valid, front + [last], f, j)
    {
      assert !IsValidReport(valid, front, f, j);
    }
  }

  /** A batch is read in order of arrival; an unreadable response contributes nothing. */
  lemma {:induction false} BatchInOrder(first: Response, rest: seq<Response>)
    ensures AllReports([first] + rest) == (if first.Reports? then first.reports else []) + AllReports(rest)
    decreases |rest|
  {
    var all := [first] + rest;
    if rest == [] {
      assert all[..0] == [] && all == [first];
    } else {
      BatchInOrder(first, rest[..|rest| - 1]);
      assert all[..|all| - 1] == [first] + rest[..|rest| - 1];
    }
  }

  /** Absorbing one batch after another is absorbing their concatenation. */
  lemma {:induction false} AbsorbConcat(valid: Validator, cache: Cache, a: seq<FeedReport>, b: seq<FeedReport>)
    ensures AbsorbAll(valid, cache, a + b) == AbsorbAll(valid, AbsorbAll(valid, cache, a), b)
    decreases |b|
  {
    if b == [] {
      assert a + b == a;
    } else {
      assert (a + b)[..|a + b| - 1] == a + b[..|b| - 1];
      AbsorbConcat(valid, cache, a, b[..|b| - 1]);
    }
  }

  // ---------- whole histories ----------

  /** The cache of a fresh aggregator after a history of calls. */
  function CacheAfter(valid: Validator, history: seq<seq<Response>>): Cache {
    if history == [] then map[]
    else AbsorbAll(valid, CacheAfter(valid, history[..|history| - 1]), AllReports(history[|history| - 1]))
  }

  function HistoryReports(history: seq<seq<Response>>): seq<FeedReport> {
    if history == [] then []
    else HistoryReports(history[..|history| - 1]) + AllReports(history[|history| - 1])
  }

  /** Over any sequence of calls the cache holds, for each feed, the latest valid report ever received, and nothing else. */
  lemma {:induction false} CacheHoldsLatestEver(valid: Validator, history: seq<seq<Response>>)
    ensures CacheAfter(valid, history) == AbsorbAll(valid, map[], HistoryReports(history))
    ensures KeyedByFeed(CacheAfter(valid, history))
    ensures HoldsLatest(valid, map[], HistoryReports(history), CacheAfter(valid, history))
    ensures forall f :: f in CacheAfter(valid, history) ==> valid(CacheAfter(valid, history)[f])
    decreases |history|
  {
    if history != [] {
      var front := history[..|history| - 1];
      CacheHoldsLatestEver(valid, front);
      AbsorbConcat(valid, map[], HistoryReports(front), AllReports(history[|history| - 1]));
    }
    AbsorbAllHoldsLatest(valid, map[], HistoryReports(history));
  }

  /** Along a history a cached timestamp never decreases and a cached feed never disappears. */
  lemma {:induction false} CacheMonotone(valid: Validator, history: seq<seq<Response>>, i: nat, f: string)
    requires i <= |history| && f in CacheAfter(valid, history[..i])
    ensures f in CacheAfter(valid, history)
    ensures CacheAfter(valid, history[..i])[f].observationTimestamp <= CacheAfter(valid, history)[f].observationTimestamp
    decreases |history| - i
  {
    if i == |history| {
      assert history[..i] == history;
    } else {
      var before, next := history[..i], history[..i + 1];
      assert next[..i] == before;
      CacheHoldsLatestEver(valid, before);
      AbsorbAllHoldsLatest(valid, CacheAfter(valid, before), AllReports(history[i]));
      CacheMonotone(valid, history, i + 1, f);
    }
  }

  // ---------- the order of responses ----------

  lemma {:induction false} ReportsOfBatch(responses: seq<Response>, r: FeedReport)
    ensures r in AllReports(responses) <==> exists i :: 0 <= i < |responses| && responses[i].Reports? && r in responses[i].reports
    decreases |responses|
  {
    if responses != [] {
      var front := responses[..|responses| - 1];
      ReportsOfBatch(front, r);
      assert forall i :: 0 <= i < |front| ==> front[i] == responses[i];
    }
  }

  /** Same cache before, same set of reports: the same feeds, with the same timestamps. */
  lemma LatestDetermined(valid: Validator, cache: Cache, a: seq<FeedReport>, b: seq<FeedReport>)
    requires KeyedByFeed(cache) && forall r :: r in a <==> r in b
    ensures AbsorbAll(valid, cache, a).Keys == AbsorbAll(valid, cache, b).Keys
    ensures forall f :: f in AbsorbAll(valid, cache, a) && f in AbsorbAll(valid, cache, b) ==>
              AbsorbAll(valid, cache, a)[f].observationTimestamp == AbsorbAll(valid, cache, b)[f].observationTimestamp
  {
    AbsorbAllHoldsLatest(valid, cache, a);
    AbsorbAllHoldsLatest(valid, cache, b);
    hide AbsorbAll;
    assert forall f, r :: IsCandidate(valid, a, f, r) <==> IsCandidate(valid, b, f, r);
    assert forall f :: HasCandidate(valid, a, f) <==> HasCandidate(valid, b, f);
  }

  lemma HeadIn(s: seq<string>)
    requires s != []
    ensures exists x :: x in s
  {
    assert s[0] in s;
  }

  /** A strictly ascending list is determined by its elements. */
  lemma {:induction false} AscendingUnique(a: seq<string>, b: seq<string>)
    requires StrictlyAscending(a) && StrictlyAscending(b) && forall x :: x in a <==> x in b
    ensures a == b
    decreases |a|
  {
    if a == [] {
      if b != [] {
        HeadIn(b);
      }
    } else {
      assert a[0] in b && b != [];
      FirstIsLeast(a, b[0]);
      FirstIsLeast(b, a[0]);
      BeforeTotal(a[0], b[0]);
      assert a == [a[0]] + a[1..] && b == [b[0]] + b[1..];
      forall x
        ensures x in a[1..] <==> x in b[1..]
      {
        TailElements(a, x);
        TailElements(b, x);
      }
      AscendingUnique(a[1..], b[1..]);
    }
  }

  lemma FirstIsLeast(a: seq<string>, x: string)
    requires StrictlyAscending(a) && x in a
    ensures x == a[0] || Before(a[0], x)
  {
  }

  lemma TailElements(a: seq<string>, x: string)
    requires a != [] && StrictlyAscending(a)
    ensures x in a[1..] <==> x in a && x != a[0]
  {
    BeforeTotal(a[0], a[0]);
    assert a == [a[0]] + a[1..];
  }

  /** Permuting the responses of a batch changes neither the returned feeds nor their timestamps. */
  lemma PermutationIrrelevant(valid: Validator, cache: Cache, xs: seq<Response>, ys: seq<Response>,
                              rx: AggregateResult, ry: AggregateResult)
    requires KeyedByFeed(cache) && multiset(xs) == multiset(ys)
    requires IsAnswer(AbsorbAll(valid, cache, AllReports(xs)), FeedsOf(AllReports(xs)), rx)
    requires IsAnswer(AbsorbAll(valid, cache, AllReports(ys)), FeedsOf(AllReports(ys)), ry)
    ensures rx.Aggregated? <==> ry.Aggregated?
    ensures rx.Aggregated? ==>
              && FeedIDs(rx.reportList) == FeedIDs(ry.reportList)
              && forall k :: 0 <= k < |rx.reportList| ==>
                   rx.reportList[k].observationTimestamp == ry.reportList[k].observationTimestamp
  {
    var a, b := AllReports(xs), AllReports(ys);
    forall r
      ensures r in a <==> r in b
    {
      SameReports(xs, ys, r);
    }
    LatestDetermined(valid, cache, a, b);
    hide AbsorbAll, AllReports, IsAnswer;
    assert FeedsOf(a) == FeedsOf(b);
    AnswersAgree(AbsorbAll(valid, cache, a), AbsorbAll(valid, cache, b), FeedsOf(a), rx, ry);
  }

  lemma SameReports(xs: seq<Response>, ys: seq<Response>, r: FeedReport)
    requires multiset(xs) == multiset(ys)
    ensures r in AllReports(xs) <==> r in AllReports(ys)
  {
    ReportsOfBatch(xs, r);
    ReportsOfBatch(ys, r);
    hide AllReports;
    if i :| 0 <= i < |xs| && xs[i].Reports? && r in xs[i].reports {
      assert xs[i] in multiset(xs);
      var j :| 0 <= j < |ys| && ys[j] == xs[i];
    }
    if i :| 0 <= i < |ys| && ys[i].Reports? && r in ys[i].reports {
      assert ys[i] in multiset(ys);
      var j :| 0 <= j < |xs| && xs[j] == ys[i];
    }
  }

  lemma AnswersAgree(cx: Cache, cy: Cache, feeds: set<string>, rx: AggregateResult, ry: AggregateResult)
    requires cx.Keys == cy.Keys && forall f :: f in cx && f in cy ==> cx[f].observationTimestamp == cy[f].observationTimestamp
    requires IsAnswer(cx, feeds, rx) && IsAnswer(cy, feeds, ry)
    ensures rx.Aggregated? <==> ry.Aggregated?
    ensures rx.Aggregated? ==>
              && FeedIDs(rx.reportList) == FeedIDs(ry.reportList)
              && forall k :: 0 <= k < |rx.reportList| ==>
                   rx.reportList[k].observationTimestamp == ry.reportList[k].observationTimestamp
  {
    hide StrictlyAscending;
    assert forall f :: f in cx <==> f in cy;
    NonEmptyAnswer(cx, feeds, rx);
    NonEmptyAnswer(cy, feeds, ry);
    if rx.Aggregated? && ry.Aggregated? {
      AscendingUnique(FeedIDs(rx.reportList), FeedIDs(ry.reportList));
      forall k | 0 <= k < |rx.reportList|
        ensures rx.reportList[k].observationTimestamp == ry.reportList[k].observationTimestamp
      {
        assert FeedIDs(rx.reportList)[k] == rx.reportList[k].feedID;
        assert FeedIDs(ry.reportList)[k] == ry.reportList[k].feedID;
      }
    }
  }

  lemma NonEmptyAnswer(cache: Cache, feeds: set<string>, r: AggregateResult)
    requires IsAnswer(cache, feeds, r)
    ensures r.Aggregated? <==> exists f :: f in cache && f in feeds
  {
    match r
    case NoValidReports =>
    case Aggregated(list) => assert list[0].feedID == FeedIDs(list)[0] && FeedIDs(list)[0] in FeedIDs(list);
  }
}
