/// The orchestration engine: one URL in, one trust report out. The judges'
/// reports are folded into a running total and count, the average is truncated
/// to two decimals and compared with the safety threshold.
module Core {
  import Strings

  /** Which side of the safety threshold the final score falls on. */
  datatype Verdict = SafeToVisit | MayBeMalicious

  /** One line of a report's text. The model keeps which message was written,
      not its wording, nor every argument. The notes of both judges are declared
      here, beside the engine's, because every judge returns the one `Report`
      type and its text nests inside the engine's result and error lines. */
  datatype Note =
      // written by the engine
    | InvalidUrl
    | ConnectionFailed
    | Redirected(from: string, to: string)
    | JudgeResult(lines: seq<Note>)
    | JudgeError(lines: seq<Note>)
    | FinalScore(score: real, verdict: Verdict)
      // written by the domain-reputation judge
    | CreationDateUnknown(host: string)
    | CreatedWithinSixMonths
    | CreatedWithinYear
    | CreatedOverFiveYears
    | CreatedOverYear
    | PageRankUnavailable
    | LowPageRank(rank: int)
    | PageRankIs(rank: int)
    | ManySubdomains
    | HyphenInHost
    | PossibleSubstitution(letter: string)
    | ContainsDigits(host: string)
    | SimilarToTrusted(domain: string)
      // written by the header/script judge
    | UnsafeCall(name: string)
    | MissingHeader(name: string)

  /** Notes written in three steps read the same however the steps are grouped. */
  lemma AppendAssoc(a: seq<Note>, b: seq<Note>, c: seq<Note>)
    ensures (a + b) + c == a + (b + c)
  {
  }

  /** What every checker returns: its notes and its score. */
  datatype Report = Report(text: seq<Note>, metric: real)

  /** A judge: a checker run on the URL it is given. Its network traffic is
      inside the function and invisible to the engine. */
  type Judge = string -> Report

  /** The outcome of url.Parse followed by Hostname(). */
  datatype ParseOutcome = ParseError | Parsed(hostname: string)

  /** The outcome of the initial GET: the URL of the request that produced the
      response, and that URL's host. The client follows no redirect, so in
      the source this is the request sent for the URL checked. */
  datatype FetchOutcome = FetchError | Fetched(finalUrl: string, finalHostname: string)

  const RedirectPenalty: real := 0.4
  const SafeThreshold: real := 0.7

  /** The host used for comparisons: one leading "www." removed. */
  function NormalizeHost(hostname: string): (r: string)
    ensures Strings.HasPrefix(hostname, "www.") ==> hostname == "www." + r
    ensures !Strings.HasPrefix(hostname, "www.") ==> r == hostname
  {
    Strings.TrimPrefix(hostname, "www.")
  }

  /** The fetched URL counts as a redirect when it is non-empty and differs from the input. */
  predicate Redirects(checkURL: string, finalUrl: string) {
    |finalUrl| > 0 && finalUrl != checkURL
  }

  /** The URL every judge is given. */
  function Target(checkURL: string, fetched: FetchOutcome): (url: string)
    requires fetched.Fetched?
    ensures url == checkURL || url == fetched.finalUrl
    ensures url != checkURL ==> Redirects(checkURL, url)
  {
    if Redirects(checkURL, fetched.finalUrl) then fetched.finalUrl else checkURL
  }

  /** The score the aggregation starts from: penalised only by a redirect to
      another host. The fetch follows no redirect, so the host that comes back
      is the one asked for, and then the seed is 1.0. */
  function Seed(checkURL: string, hostname: string, fetched: FetchOutcome): (seed: real)
    requires fetched.Fetched?
    ensures seed == 1.0 || seed == RedirectPenalty
    ensures fetched.finalHostname == hostname ==> seed == 1.0
  {
    if Redirects(checkURL, fetched.finalUrl)
       && NormalizeHost(fetched.finalHostname) != NormalizeHost(hostname)
    then RedirectPenalty
    else 1.0
  }

  /** Go's conversion int(x) of a float: truncation toward zero. */
  function Truncate(x: real): (n: int)
    ensures 0.0 <= x ==> n as real <= x < n as real + 1.0
    ensures x < 0.0 ==> x <= n as real < x + 1.0
  {
    if x >= 0.0 then x.Floor else -((-x).Floor)
  }

  /** `round`: keeps two decimals by truncating, not by rounding to nearest. */
  function Round(v: real): (r: real)
    ensures 0.0 <= v ==> 0.0 <= r <= v < r + 0.01
    ensures v < 0.0 ==> r - 0.01 < v <= r <= 0.0
    ensures (r * 100.0).Floor as real == r * 100.0
  {
    Truncate(v * 100.0) as real / 100.0
  }

  /** The running total and count the engine keeps while judges report. */
  datatype Tally = Tally(total: real, count: nat)

  /** One judge's report: only a strictly positive score is counted. */
  function Add(t: Tally, r: Report): Tally {
    if r.metric > 0.0 then Tally(t.total + r.metric, t.count + 1) else t
  }

  /** The reports folded into the tally in arrival order. */
  function Fold(t: Tally, reports: seq<Report>): (r: Tally)
    ensures r.count >= t.count
  {
    if reports == [] then t else Add(Fold(t, reports[..|reports| - 1]), reports[|reports| - 1])
  }

  /** The final score: the truncated average of the seed and the counted reports. */
  function Aggregate(seed: real, reports: seq<Report>): real {
    var t := Fold(Tally(seed, 1), reports);
    Round(t.total / t.count as real)
  }

  /** The line the engine writes for one judge's report. */
  function JudgeLine(r: Report): Note {
    if r.metric > 0.0 then JudgeResult(r.text) else JudgeError(r.text)
  }

  /** The lines the engine writes for the reports, in the order it folds them. */
  function JudgeLines(reports: seq<Report>): (lines: seq<Note>)
    ensures |lines| == |reports|
  {
    if reports == [] then []
    else JudgeLines(reports[..|reports| - 1]) + [JudgeLine(reports[|reports| - 1])]
  }

  /** Folding one more report is one more step of Add, and one more line. */
  lemma PrefixStep(t: Tally, reports: seq<Report>, i: nat)
    requires i < |reports|
    ensures Fold(t, reports[..i + 1]) == Add(Fold(t, reports[..i]), reports[i])
    ensures JudgeLines(reports[..i + 1]) == JudgeLines(reports[..i]) + [JudgeLine(reports[i])]
  {
    assert reports[..i + 1][..i] == reports[..i];
  }

  /** The i-th line is the line of the i-th report. */
  lemma {:induction false} JudgeLinesAt(reports: seq<Report>, i: nat)
    requires i < |reports|
    ensures JudgeLines(reports)[i] == JudgeLine(reports[i])
  {
    var n := |reports|;
    if i < n - 1 {
      JudgeLinesAt(reports[..n - 1], i);
    }
  }

  /** What each judge returns for the URL. */
  function Results(judges: seq<Judge>, url: string): (reports: seq<Report>)
    ensures |reports| == |judges|
  {
    seq(|judges|, i requires 0 <= i < |judges| => judges[i](url))
  }

  /** MasterChecker.Check. The judges run one after another here, in slice
      order; the fold lemmas below show that the score does not depend on that
      order. `dispatched` records the URL each judge was given. */
  method Check(judges: seq<Judge>, checkURL: string, parsed: ParseOutcome, fetched: FetchOutcome)
    returns (report: Report, ghost dispatched: seq<string>)
    ensures parsed.ParseError? ==> report == Report([InvalidUrl], 0.0) && dispatched == []
    ensures parsed.Parsed? && fetched.FetchError? ==>
              report == Report([ConnectionFailed], 0.0) && dispatched == []
    ensures parsed.Parsed? && fetched.Fetched? ==>
              var url := Target(checkURL, fetched);
              var results := Results(judges, url);
              var redirect := if Redirects(checkURL, fetched.finalUrl)
                              then [Redirected(checkURL, fetched.finalUrl)] else [];
              && |dispatched| == |judges|
              && (forall k :: 0 <= k < |dispatched| ==> dispatched[k] == url)
              && report.metric == Aggregate(Seed(checkURL, parsed.hostname, fetched), results)
              && report.text == redirect + JudgeLines(results)
                                + [FinalScore(report.metric, if report.metric >= SafeThreshold
                                                             then SafeToVisit else MayBeMalicious)]
  {
    // the two fields of the report under construction
    var text: seq<Note> := [];
    var metric: real := 1.0;
    dispatched := [];
    if parsed.ParseError? {
      report := Report([InvalidUrl], 0.0);
      return;
    }
    var hostname := NormalizeHost(parsed.hostname);
    if fetched.FetchError? {
      report := Report([ConnectionFailed], 0.0);
      return;
    }
    var url := checkURL;
    if |fetched.finalUrl| > 0 && fetched.finalUrl != checkURL {
      var newHostname := NormalizeHost(fetched.finalHostname);
      text := text + [Redirected(checkURL, fetched.finalUrl)];
      url := fetched.finalUrl;
      if newHostname != hostname {
        metric := metric * RedirectPenalty;
      }
    }
    assert metric == Seed(checkURL, parsed.hostname, fetched);
    report, dispatched := RunJudges(judges, url, metric, text);
  }

  /** The handling of one judge's report: a positive score is added to the
      total and counted, any other is only written down as an error. */
  method Record(judgeReport: Report, totalMetric: real, validResults: nat, lines: seq<Note>)
    returns (totalMetric': real, validResults': nat, lines': seq<Note>)
    ensures Tally(totalMetric', validResults') == Add(Tally(totalMetric, validResults), judgeReport)
    ensures lines' == lines + [JudgeLine(judgeReport)]
  {
    if judgeReport.metric > 0.0 {
      totalMetric' := totalMetric + judgeReport.metric;
      lines' := lines + [JudgeResult(judgeReport.text)];
      validResults' := validResults + 1;
    } else {
      totalMetric', validResults' := totalMetric, validResults;
      lines' := lines + [JudgeError(judgeReport.text)];
    }
  }

  /** The second half of MasterChecker.Check: every judge is run on `url`, the
      reports are folded into a total and a count seeded with `seed` and 1, and
      the truncated average and the verdict are appended to `text`. */
  method RunJudges(judges: seq<Judge>, url: string, seed: real, text: seq<Note>)
    returns (report: Report, ghost dispatched: seq<string>)
    ensures |dispatched| == |judges|
    ensures forall k :: 0 <= k < |dispatched| ==> dispatched[k] == url
    ensures report.metric == Aggregate(seed, Results(judges, url))
    ensures report.text == text + JudgeLines(Results(judges, url))
                           + [FinalScore(report.metric, if report.metric >= SafeThreshold
                                                        then SafeToVisit else MayBeMalicious)]
  {
    ghost var results := Results(judges, url);
    dispatched := [];
    var lines := text;
    var totalMetric := seed;
    var validResults := 1;
    var i := 0;
    while i < |judges|
      invariant 0 <= i <= |judges|
      invariant Tally(totalMetric, validResults) == Fold(Tally(seed, 1), results[..i])
      invariant lines == text + JudgeLines(results[..i])
      invariant |dispatched| == i
      invariant forall k :: 0 <= k < i ==> dispatched[k] == url
    {
      var judgeReport := judges[i](url);
      assert judgeReport == results[i];
      PrefixStep(Tally(seed, 1), results, i);
      totalMetric, validResults, lines := Record(judgeReport, totalMetric, validResults, lines);
      dispatched := dispatched + [url];
      i := i + 1;
    }
    assert results[..i] == results;
    var metric := Round(totalMetric / validResults as real);
    var verdict := if metric >= SafeThreshold then SafeToVisit else MayBeMalicious;
    report := Report(lines + [FinalScore(metric, verdict)], metric);
  }

  // ---------------------------------------------------------------------------
  // Properties of the aggregation

  /** Two reports folded in either order leave the same tally. */
  lemma AddCommutes(t: Tally, a: Report, b: Report)
    ensures Add(Add(t, a), b) == Add(Add(t, b), a)
  {
  }

  /** A report folded first has the same effect as the same report folded last. */
  lemma {:induction false} FoldAddLater(t: Tally, x: Report, reports: seq<Report>)
    ensures Fold(Add(t, x), reports) == Add(Fold(t, reports), x)
  {
    if reports != [] {
      var n := |reports|;
      FoldAddLater(t, x, reports[..n - 1]);
      AddCommutes(Fold(t, reports[..n - 1]), x, reports[n - 1]);
    }
  }

  /** Folding a concatenation folds the second part into the tally of the first. */
  lemma {:induction false} FoldAppend(t: Tally, a: seq<Report>, b: seq<Report>)
    ensures Fold(t, a + b) == Fold(Fold(t, a), b)
  {
    if b == [] {
      assert a + b == a;
    } else {
      var n := |b|;
      FoldAppend(t, a, b[..n - 1]);
      assert (a + b)[..|a + b| - 1] == a + b[..n - 1];
    }
  }

  /** Any one report can be taken out of the fold and added at the end. */
  lemma FoldRemove(t: Tally, reports: seq<Report>, j: nat)
    requires j < |reports|
    ensures Fold(t, reports) == Add(Fold(t, reports[..j] + reports[j + 1..]), reports[j])
  {
    var before, after := reports[..j], reports[j + 1..];
    assert reports == (before + [reports[j]]) + after;
    FoldAppend(t, before + [reports[j]], after);
    assert (before + [reports[j]])[..|before|] == before;
    FoldAddLater(Fold(t, before), reports[j], after);
    FoldAppend(t, before, after);
  }

  /** The tally does not depend on the order in which the reports arrive:
      any permutation of them gives the same total and the same count. */
  lemma {:induction false} FoldPermutation(t: Tally, a: seq<Report>, b: seq<Report>)
    requires multiset(a) == multiset(b)
    ensures Fold(t, a) == Fold(t, b)
  {
    if a != [] {
      var x := a[|a| - 1];
      assert x in multiset(b);
      var j :| 0 <= j < |b| && b[j] == x;
      var init, rest := a[..|a| - 1], b[..j] + b[j + 1..];
      assert b == b[..j] + [x] + b[j + 1..];
      assert a == init + [x];
      assert multiset(init) == multiset(rest) by {
        assert multiset(init) == multiset(a) - multiset{x};
        assert multiset(rest) == multiset(b) - multiset{x};
      }
      FoldPermutation(t, init, rest);
      FoldRemove(t, b, j);
    }
  }

  /** The final score is the same for every order in which the judges finish. */
  lemma AggregateOrderIndependent(seed: real, a: seq<Report>, b: seq<Report>)
    requires multiset(a) == multiset(b)
    ensures Fold(Tally(seed, 1), a) == Fold(Tally(seed, 1), b)
    ensures Aggregate(seed, a) == Aggregate(seed, b)
  {
    FoldPermutation(Tally(seed, 1), a, b);
  }

  /** Reports with a score of at most 1 keep the total between 0 and the count. */
  lemma {:induction false} FoldBounds(t: Tally, reports: seq<Report>)
    requires 0.0 <= t.total <= t.count as real
    requires forall i :: 0 <= i < |reports| ==> reports[i].metric <= 1.0
    ensures 0.0 <= Fold(t, reports).total <= Fold(t, reports).count as real
  {
    if reports != [] {
      FoldBounds(t, reports[..|reports| - 1]);
    }
  }

  /** With the seed and every judge's score at most 1, the final score lies in [0, 1]. */
  lemma AggregateInUnitInterval(seed: real, reports: seq<Report>)
    requires 0.0 <= seed <= 1.0
    requires forall i :: 0 <= i < |reports| ==> reports[i].metric <= 1.0
    ensures 0.0 <= Aggregate(seed, reports) <= 1.0
  {
    var t := Fold(Tally(seed, 1), reports);
    FoldBounds(Tally(seed, 1), reports);
    var c := t.count as real;
    assert 0.0 <= t.total / c <= 1.0 by {
      assert t.total / c * c == t.total;
    }
  }

  /** Reports that failed (score at most 0) change neither total nor count. */
  lemma {:induction false} FailedReportsIgnored(t: Tally, reports: seq<Report>)
    requires forall i :: 0 <= i < |reports| ==> reports[i].metric <= 0.0
    ensures Fold(t, reports) == t
  {
    if reports != [] {
      FailedReportsIgnored(t, reports[..|reports| - 1]);
    }
  }

  /** When every judge fails, the final score is the seed: 1.0, or 0.4 after a
      redirect to another host. */
  lemma AllJudgesFail(seed: real, reports: seq<Report>)
    requires seed == 1.0 || seed == RedirectPenalty
    requires forall i :: 0 <= i < |reports| ==> reports[i].metric <= 0.0
    ensures Aggregate(seed, reports) == seed
    ensures forall i :: 0 <= i < |reports| ==> JudgeLines(reports)[i] == JudgeError(reports[i].text)
  {
    forall i | 0 <= i < |reports|
      ensures JudgeLines(reports)[i] == JudgeError(reports[i].text)
    {
      JudgeLinesAt(reports, i);
    }
    FailedReportsIgnored(Tally(seed, 1), reports);
    assert (seed * 100.0).Floor == if seed == 1.0 then 100 else 40;
  }

  /** `round` truncates: 0.996 becomes 0.99, not 1.00. */
  lemma RoundTruncates()
    ensures Round(0.996) == 0.99
    ensures Round(0.7) == 0.7
  {
    assert (99.6).Floor == 99;
    assert (70.0).Floor == 70;
  }

  /** A redirect between a host and its "www." form is a redirect to the same
      host: the judges get the new URL, but the seed stays 1.0. */
  lemma WwwRedirectUnpenalised(checkURL: string, host: string, finalUrl: string)
    requires !Strings.HasPrefix(host, "www.")
    ensures Seed(checkURL, "www." + host, Fetched(finalUrl, host)) == 1.0
    ensures Seed(checkURL, host, Fetched(finalUrl, "www." + host)) == 1.0
  {
    Strings.TrimPrefixOfPrefixed("www.", host);
  }

  /** The redirect branch as written: a final URL on "example.com" for
      "www.example.com" keeps the seed at 1.0, and one on another host would
      get the 0.4 penalty (a fetch that follows no redirect never returns
      one). */
  lemma RedirectPenaltyExamples()
    ensures Seed("http://www.example.com", "www.example.com",
                 Fetched("https://example.com/", "example.com")) == 1.0
    ensures Seed("http://example.com", "example.com",
                 Fetched("https://example.org/", "example.org")) == RedirectPenalty
  {
    Strings.TrimPrefixOfPrefixed("www.", "example.com");
    assert !Strings.HasPrefix("example.com", "www.") by {
      assert "example.com"[..4][0] != "www."[0];
    }
    assert !Strings.HasPrefix("example.org", "www.") by {
      assert "example.org"[..4][0] != "www."[0];
    }
    assert "example.org" != "example.com" by {
      assert "example.org"[8] != "example.com"[8];
    }
  }
}
