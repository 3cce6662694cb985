/// The domain-reputation judge (URLchecker). A fixed chain of rules looks at
/// the hostname and at the outcomes of the WHOIS and page-rank lookups; each
/// rule that fires writes its notes and multiplies the score, which starts at
/// 1, by a fixed factor below 1.
module UrlCheck {
  import Strings
  import opened Wrappers
  import opened Core

  // ---------------------------------------------------------------------------
  // Inputs standing for the lookups

  /** The three comparisons analyzeCreationDate makes between the creation date
      moved forward by an interval and the current time. */
  datatype CreationAge = CreationAge(
    sixMonthsAhead: bool,   // creation date + 6 months is after now
    oneYearAhead: bool,     // creation date + 1 year is after now
    fiveYearsBehind: bool)  // creation date + 5 years is before now

  /** The page-rank lookup: the rank the service reported, or a failure of the
      configuration file, the request, the decoding, or an empty answer. */
  datatype RankLookup = RankOk(rank: int) | RankError

  const RankThreshold: int := 4

  /** The integer getPageRank returns beside its error: 0 on every error path. */
  function PageRank(lookup: RankLookup): (r: int)
    ensures lookup.RankError? ==> r == 0
  {
    if lookup.RankOk? then lookup.rank else 0
  }

  // ---------------------------------------------------------------------------
  // Hostname heuristics

  /** getSiteName: the second-to-last label of the hostname, "" when it has no dot. */
  function SiteName(hostname: string): (r: string)
    ensures '.' !in r
    ensures '.' !in hostname ==> r == ""
  {
    var parts := Strings.Split(hostname, '.');
    if |parts| > 1 then parts[|parts| - 2] else ""
  }

  /** For a hostname made of two or more labels, the site name is the
      second-to-last label. */
  lemma SiteNameIsSecondToLastLabel(labels: seq<string>)
    requires |labels| >= 2
    requires forall i :: 0 <= i < |labels| ==> '.' !in labels[i]
    ensures SiteName(Strings.Join(labels, '.')) == labels[|labels| - 2]
  {
    Strings.SplitJoin(labels, '.');
    SiteNameOfLabels(Strings.Join(labels, '.'), labels);
  }

  lemma SiteNameOfLabels(hostname: string, labels: seq<string>)
    requires |labels| >= 2 && Strings.Split(hostname, '.') == labels
    ensures SiteName(hostname) == labels[|labels| - 2]
  {
  }

  /** The confusable-character table of checkAlphabetSubstitution: for each of
      its eight characters (Cyrillic look-alikes and symbol or digit stand-ins),
      the Latin letter it imitates. */
  function Confusable(c: char): Option<string> {
    match c
    case '\U{0435}' => Some("e")  // Cyrillic ie
    case '\U{043E}' => Some("o")  // Cyrillic o
    case '\U{0441}' => Some("c")  // Cyrillic es
    case '\U{0440}' => Some("p")  // Cyrillic er
    case '\U{0430}' => Some("a")  // Cyrillic a
    case '0' => Some("o")
    case '@' => Some("a")
    case '\U{044C}' => Some("b")  // Cyrillic soft sign
    case _ => None
  }

  /** The note written for one character: one line if it is in the table. */
  function SubstitutionNotes(c: char): seq<Note> {
    match Confusable(c)
    case Some(letter) => [PossibleSubstitution(letter)]
    case None => []
  }

  /** The notes checkAlphabetSubstitution collects: one per occurrence of a
      confusable character, in hostname order. */
  function Substitutions(hostname: string): (notes: seq<Note>)
    ensures |notes| <= |hostname|
    ensures forall k :: 0 <= k < |notes| ==> notes[k].PossibleSubstitution?
  {
    if hostname == [] then []
    else Substitutions(hostname[..|hostname| - 1]) + SubstitutionNotes(hostname[|hostname| - 1])
  }

  /** The notes of a concatenation are the notes of its parts, in order: so each
      occurrence gives its own note, where it occurs. */
  lemma {:induction false} SubstitutionsConcat(a: string, b: string)
    ensures Substitutions(a + b) == Substitutions(a) + Substitutions(b)
  {
    if b == [] {
      assert a + b == a;
    } else {
      var init, c := b[..|b| - 1], b[|b| - 1];
      SubstitutionsConcat(a, init);
      assert (a + b)[..|a + b| - 1] == a + init && (a + b)[|a + b| - 1] == c;
      assert Substitutions(a + b) == Substitutions(a + init) + SubstitutionNotes(c);
      assert Substitutions(b) == Substitutions(init) + SubstitutionNotes(c);
      AppendAssoc(Substitutions(a), Substitutions(init), SubstitutionNotes(c));
    }
  }

  /** checkAlphabetSubstitution answers "OK" (no notes) exactly when no character
      of the hostname is in the table. */
  lemma {:induction false} SubstitutionsEmpty(hostname: string)
    ensures Substitutions(hostname) == [] <==> forall i :: 0 <= i < |hostname| ==> Confusable(hostname[i]).None?
  {
    if hostname != [] {
      var n := |hostname|;
      SubstitutionsEmpty(hostname[..n - 1]);
      assert forall i :: 0 <= i < n - 1 ==> hostname[..n - 1][i] == hostname[i];
    }
  }

  /** checkAlphabetSubstitution: the empty result stands for "OK". */
  method CheckAlphabetSubstitution(hostname: string) returns (msg: seq<Note>)
    ensures msg == Substitutions(hostname)
    ensures msg == [] <==> forall i :: 0 <= i < |hostname| ==> Confusable(hostname[i]).None?
  {
    msg := [];
    var i := 0;
    while i < |hostname|
      invariant 0 <= i <= |hostname|
      invariant msg == Substitutions(hostname[..i])
    {
      var c := hostname[i];
      assert hostname[..i + 1][..i] == hostname[..i];
      var sub := Confusable(c);
      if sub.Some? {
        msg := msg + [PossibleSubstitution(sub.value)];
      }
      i := i + 1;
    }
    assert hostname[..i] == hostname;
    SubstitutionsEmpty(hostname);
  }

  predicate IsDigit(c: char) {
    '0' <= c <= '9'
  }

  predicate HasDigit(hostname: string) {
    exists i :: 0 <= i < |hostname| && IsDigit(hostname[i])
  }

  /** checkDigit: the empty result stands for "OK"; otherwise the one note
      naming the hostname. */
  method CheckDigit(hostname: string) returns (msg: seq<Note>)
    ensures msg == [] <==> forall i :: 0 <= i < |hostname| ==> !IsDigit(hostname[i])
    ensures msg != [] ==> msg == [ContainsDigits(hostname)]
  {
    var i := 0;
    while i < |hostname|
      invariant 0 <= i <= |hostname|
      invariant forall j :: 0 <= j < i ==> !IsDigit(hostname[j])
    {
      if '0' <= hostname[i] <= '9' {
        return [ContainsDigits(hostname)];
      }
      i := i + 1;
    }
    return [];
  }

  /** The index of the first trusted entry the site name is similar to. */
  function FirstSimilar(siteName: string, trusted: seq<string>, similar: (string, string) -> bool): (r: Option<nat>)
    ensures r.Some? ==> r.value < |trusted| && similar(siteName, trusted[r.value])
    ensures r.Some? ==> forall j :: 0 <= j < r.value ==> !similar(siteName, trusted[j])
    ensures r.None? ==> forall j :: 0 <= j < |trusted| ==> !similar(siteName, trusted[j])
  {
    if trusted == [] then None
    else if similar(siteName, trusted[0]) then Some(0)
    else match FirstSimilar(siteName, trusted[1..], similar)
      case None => None
      case Some(k) => Some(k + 1)
  }

  // ---------------------------------------------------------------------------
  // The rule chain

  /** One rule of the chain: the notes it writes and the factor it applies. */
  datatype Rule = Rule(notes: seq<Note>, factor: real)

  /** A rule that does not fire. */
  const Pass: Rule := Rule([], 1.0)

  /** analyzeCreationDate: one note, and factor 0.4 only for a site created
      less than six months ago. */
  function AnalyzeCreationDate(age: CreationAge): (r: Rule)
    ensures |r.notes| == 1
    ensures r.factor == 0.4 <==> age.sixMonthsAhead
    ensures !age.sixMonthsAhead ==> r.factor == 1.0
  {
    if age.sixMonthsAhead then Rule([CreatedWithinSixMonths], 0.4)
    else if age.oneYearAhead then Rule([CreatedWithinYear], 1.0)
    else if age.fiveYearsBehind then Rule([CreatedOverFiveYears], 1.0)
    else Rule([CreatedOverYear], 1.0)
  }

  /** The creation-date rule; `None` stands for a failed lookup or a zero date. */
  function DateRule(hostname: string, creation: Option<CreationAge>, rank: RankLookup): Rule {
    match creation
    case None =>
      if PageRank(rank) < RankThreshold then Rule([CreationDateUnknown(hostname)], 0.3) else Pass
    case Some(age) => AnalyzeCreationDate(age)
  }

  function RankRule(rank: RankLookup): Rule {
    match rank
    case RankError => Rule([PageRankUnavailable], 1.0)
    case RankOk(r) => if r < RankThreshold then Rule([LowPageRank(r)], 0.3) else Rule([PageRankIs(r)], 1.0)
  }

  function SubdomainRule(hostname: string): Rule {
    if Strings.Count(hostname, '.') > 2 then Rule([ManySubdomains], 0.5) else Pass
  }

  function HyphenRule(hostname: string): Rule {
    if '-' in hostname then Rule([HyphenInHost], 0.7) else Pass
  }

  function SubstitutionRule(hostname: string): Rule {
    var msg := Substitutions(hostname);
    if msg != [] then Rule(msg, 0.5) else Pass
  }

  function DigitRule(hostname: string): Rule {
    if HasDigit(hostname) then Rule([ContainsDigits(hostname)], 0.7) else Pass
  }

  /** The trusted-domain rule. */
  function TrustedRule(siteName: string, trusted: seq<string>, similar: (string, string) -> bool): Rule {
    match FirstSimilar(siteName, trusted, similar)
    case None => Pass
    case Some(k) => Rule([SimilarToTrusted(trusted[k])], 0.4)
  }

  /** The trusted-domain loop applies 0.4 exactly when some entry is similar,
      and then only once, with the note naming the first similar entry in list
      order; otherwise it does nothing (in particular for an empty list). */
  lemma TrustedAtMostOnce(siteName: string, trusted: seq<string>, similar: (string, string) -> bool)
    ensures var r := TrustedRule(siteName, trusted, similar);
            && (r.factor == 0.4 <==> exists j :: 0 <= j < |trusted| && similar(siteName, trusted[j]))
            && (r.factor != 0.4 ==> r == Pass)
            && (r.factor == 0.4 ==>
                  exists k :: 0 <= k < |trusted| && similar(siteName, trusted[k])
                              && (forall j :: 0 <= j < k ==> !similar(siteName, trusted[j]))
                              && r.notes == [SimilarToTrusted(trusted[k])])
  {
  }

  /** The rules of URLchecker.Check, in the order it applies them. */
  function Rules(hostname: string, creation: Option<CreationAge>, rank: RankLookup,
                 trusted: seq<string>, similar: (string, string) -> bool): (rules: seq<Rule>)
    ensures |rules| == 7
  {
    [ DateRule(hostname, creation, rank),
      RankRule(rank),
      SubdomainRule(hostname),
      HyphenRule(hostname),
      SubstitutionRule(hostname),
      DigitRule(hostname),
      TrustedRule(SiteName(hostname), trusted, similar) ]
  }

  /** One rule applied to the report so far. */
  function Then(report: Report, rule: Rule): Report {
    Report(report.text + rule.notes, report.metric * rule.factor)
  }

  /** The rules applied in order to the report that starts at score 1. */
  function Apply(rules: seq<Rule>): Report {
    if rules == [] then Report([], 1.0) else Then(Apply(rules[..|rules| - 1]), rules[|rules| - 1])
  }

  /** Apply unfolded for the seven rules of the chain. */
  lemma ApplySeven(rules: seq<Rule>)
    requires |rules| == 7
    ensures Apply(rules) == Then(Then(Then(Then(Then(Then(Then(Report([], 1.0),
      rules[0]), rules[1]), rules[2]), rules[3]), rules[4]), rules[5]), rules[6])
  {
    assert rules[..6][..5][..4][..3][..2][..1][..0] == [];
    assert Apply(rules[..1]) == Then(Report([], 1.0), rules[0]);
    assert rules[..6][..5][..4][..3][..2] == rules[..2];
    assert Apply(rules[..2]) == Then(Apply(rules[..1]), rules[1]);
    assert rules[..6][..5][..4][..3] == rules[..3];
    assert Apply(rules[..3]) == Then(Apply(rules[..2]), rules[2]);
    assert rules[..6][..5][..4] == rules[..4];
    assert Apply(rules[..4]) == Then(Apply(rules[..3]), rules[3]);
    assert rules[..6][..5] == rules[..5];
    assert Apply(rules[..5]) == Then(Apply(rules[..4]), rules[4]);
    assert Apply(rules[..6]) == Then(Apply(rules[..5]), rules[5]);
  }

  /** A rule that does not fire leaves the report as it is. */
  lemma ThenPass(report: Report)
    ensures Then(report, Pass) == report
  {
    assert report.text + [] == report.text;
  }

  /** The rule chain written out: the rules applied one after another. */
  lemma RulesApplied(hostname: string, creation: Option<CreationAge>, rank: RankLookup,
                     trusted: seq<string>, similar: (string, string) -> bool)
    ensures Apply(Rules(hostname, creation, rank, trusted, similar))
         == Then(Then(Then(Then(Then(Then(Then(Report([], 1.0),
              DateRule(hostname, creation, rank)), RankRule(rank)), SubdomainRule(hostname)),
              HyphenRule(hostname)), SubstitutionRule(hostname)), DigitRule(hostname)),
              TrustedRule(SiteName(hostname), trusted, similar))
  {
    ApplySeven(Rules(hostname, creation, rank, trusted, similar));
  }

  /** URLchecker.Check, given the hostname and the lookup outcomes. The body
      is split the way the source's comments split it: the lookups, the
      hostname heuristics, the trusted domains. */
  method Check(hostname: string, creation: Option<CreationAge>, rank: RankLookup,
               trusted: seq<string>, similar: (string, string) -> bool)
    returns (report: Report)
    ensures report == Apply(Rules(hostname, creation, rank, trusted, similar))
  {
    report := Report([], 1.0);
    var siteName := SiteName(hostname);
    report := CheckLookups(report, hostname, creation, rank);
    report := CheckHostname(report, hostname);

    // trusted domains
    ghost var before := report;
    var similarEntry := FindSimilarTrusted(siteName, trusted, similar);
    if similarEntry.Some? {
      assert TrustedRule(siteName, trusted, similar) == Rule([SimilarToTrusted(similarEntry.value)], 0.4);
      report := Then(report, Rule([SimilarToTrusted(similarEntry.value)], 0.4));
    } else {
      assert TrustedRule(siteName, trusted, similar) == Pass;
      ThenPass(report);
    }
    assert report == Then(before, TrustedRule(siteName, trusted, similar));
    RulesApplied(hostname, creation, rank, trusted, similar);
  }

  /** The creation-date and page-rank sections of URLchecker.Check. */
  method CheckLookups(report: Report, hostname: string, creation: Option<CreationAge>, rank: RankLookup)
    returns (r: Report)
    ensures r == Then(Then(report, DateRule(hostname, creation, rank)), RankRule(rank))
  {
    r := report;
    var pageRank := PageRank(rank);

    // creation date
    ThenPass(r);
    if creation.None? {
      if pageRank < RankThreshold {
        r := Then(r, Rule([CreationDateUnknown(hostname)], 0.3));
      }
    } else {
      var age := AnalyzeCreationDate(creation.value);
      r := Then(r, age);
    }
    ghost var afterDate := Then(report, DateRule(hostname, creation, rank));
    assert r == afterDate;

    // page rank
    if rank.RankError? {
      r := Then(r, Rule([PageRankUnavailable], 1.0));
    } else if pageRank < RankThreshold {
      r := Then(r, Rule([LowPageRank(pageRank)], 0.3));
    } else {
      r := Then(r, Rule([PageRankIs(pageRank)], 1.0));
    }
  }

  /** The subdomain, hyphen, confusable-character and digit sections of
      URLchecker.Check. */
  method CheckHostname(report: Report, hostname: string) returns (r: Report)
    ensures r == Then(Then(Then(Then(report, SubdomainRule(hostname)), HyphenRule(hostname)),
                           SubstitutionRule(hostname)), DigitRule(hostname))
  {
    r := report;
    ghost var expected := report;

    // subdomains
    ThenPass(r);
    if Strings.Count(hostname, '.') > 2 {
      r := Then(r, Rule([ManySubdomains], 0.5));
    }
    expected := Then(expected, SubdomainRule(hostname));
    assert r == expected;

    // hyphen
    ThenPass(r);
    if '-' in hostname {
      r := Then(r, Rule([HyphenInHost], 0.7));
    }
    expected := Then(expected, HyphenRule(hostname));
    assert r == expected;

    // confusable characters and digits
    ThenPass(r);
    var msg := CheckAlphabetSubstitution(hostname);
    if msg != [] {
      r := Then(r, Rule(msg, 0.5));
    }
    expected := Then(expected, SubstitutionRule(hostname));
    assert r == expected;
    ThenPass(r);
    msg := CheckDigit(hostname);
    assert msg != [] <==> HasDigit(hostname);
    if msg != [] {
      r := Then(r, Rule(msg, 0.7));
    }
  }

  /** The loop over the trusted domains, which breaks at the first entry the
      site name is similar to. */
  method FindSimilarTrusted(siteName: string, trusted: seq<string>, similar: (string, string) -> bool)
    returns (entry: Option<string>)
    ensures entry.Some? <==> exists j :: 0 <= j < |trusted| && similar(siteName, trusted[j])
    ensures entry.Some? ==> entry.value == trusted[FirstSimilar(siteName, trusted, similar).value]
  {
    entry := None;
    var i := 0;
    while i < |trusted|
      invariant 0 <= i <= |trusted|
      invariant forall j :: 0 <= j < i ==> !similar(siteName, trusted[j])
    {
      if similar(siteName, trusted[i]) {
        assert FirstSimilar(siteName, trusted, similar) == Some(i);
        entry := Some(trusted[i]);
        break;
      }
      i := i + 1;
    }
  }

  // ---------------------------------------------------------------------------
  // Properties of the rule chain

  /** Every factor a rule can apply lies in (0, 1]. */
  predicate FactorsInRange(rules: seq<Rule>) {
    forall k :: 0 <= k < |rules| ==> 0.0 < rules[k].factor <= 1.0
  }

  /** Each rule of the chain multiplies by a factor in (0, 1]. */
  lemma RuleFactorsInRange(hostname: string, creation: Option<CreationAge>, rank: RankLookup,
                           trusted: seq<string>, similar: (string, string) -> bool)
    ensures FactorsInRange(Rules(hostname, creation, rank, trusted, similar))
  {
    TrustedAtMostOnce(SiteName(hostname), trusted, similar);
  }

  /** Applying rules whose factors lie in (0, 1] keeps the score in (0, 1]. */
  lemma {:induction false} ApplyBounds(rules: seq<Rule>)
    requires FactorsInRange(rules)
    ensures 0.0 < Apply(rules).metric <= 1.0
  {
    if rules != [] {
      var n := |rules|;
      ApplyBounds(rules[..n - 1]);
      var m, f := Apply(rules[..n - 1]).metric, rules[n - 1].factor;
      assert 0.0 < m * f <= m * 1.0;
    }
  }

  /** With such rules the score stays 1 exactly when no rule applies a factor below 1. */
  lemma {:induction false} ApplyUnpenalised(rules: seq<Rule>)
    requires FactorsInRange(rules)
    ensures Apply(rules).metric == 1.0 <==> forall k :: 0 <= k < |rules| ==> rules[k].factor == 1.0
  {
    if rules != [] {
      var n := |rules|;
      ApplyUnpenalised(rules[..n - 1]);
      ApplyBounds(rules[..n - 1]);
      var m, f := Apply(rules[..n - 1]).metric, rules[n - 1].factor;
      if m < 1.0 {
        assert m * f < 1.0 * f;
      } else if f < 1.0 {
        assert m * f < m * 1.0;
      }
      assert forall k :: 0 <= k < n - 1 ==> rules[..n - 1][k] == rules[k];
    }
  }

  /** The domain-reputation score always lies in (0, 1]: it is never 0, so the
      engine never treats this judge as failed and always counts it. */
  lemma ScoreInRange(hostname: string, creation: Option<CreationAge>, rank: RankLookup,
                     trusted: seq<string>, similar: (string, string) -> bool)
    ensures var r := Apply(Rules(hostname, creation, rank, trusted, similar));
            && 0.0 < r.metric <= 1.0
            && JudgeLine(r) == JudgeResult(r.text)
  {
    RuleFactorsInRange(hostname, creation, rank, trusted, similar);
    ApplyBounds(Rules(hostname, creation, rank, trusted, similar));
  }

  /** Without a creation date and with a page rank below 4, both 0.3 penalties
      apply and compound; when the page-rank lookup failed its rank reads as 0,
      so a missing date always costs 0.3. */
  lemma MissingDatePenalties(hostname: string, rank: RankLookup)
    ensures rank.RankOk? && rank.rank < RankThreshold ==>
              DateRule(hostname, None, rank).factor * RankRule(rank).factor == 0.09
    ensures rank.RankError? ==>
              DateRule(hostname, None, rank).factor == 0.3 && RankRule(rank).factor == 1.0
  {
  }

  /** A '0' in the hostname is both a confusable character and a digit: it
      triggers the 0.5 and the 0.7 penalty. */
  lemma ZeroTriggersBoth(hostname: string)
    requires '0' in hostname
    ensures SubstitutionRule(hostname).factor == 0.5
    ensures DigitRule(hostname).factor == 0.7
  {
    var i :| 0 <= i < |hostname| && hostname[i] == '0';
    SubstitutionsEmpty(hostname);
    assert Confusable(hostname[i]).Some?;
    assert IsDigit(hostname[i]);
  }

  const ExampleHost: string := "exa-mple123.com"

  /** exa-mple123.com with no trusted domains: the hyphen and the digits cost
      0.7 each; it has too few dots for the subdomain rule, no confusable
      character and nothing to be similar to. */
  lemma HyphenAndDigitsExample(creation: Option<CreationAge>, rank: RankLookup,
                               similar: (string, string) -> bool)
    ensures Rules(ExampleHost, creation, rank, [], similar)[2..] ==
              [Pass, Rule([HyphenInHost], 0.7), Pass, Rule([ContainsDigits(ExampleHost)], 0.7), Pass]
  {
    ExampleRulesPass();
    ExampleRulesFire();
  }

  lemma ExampleRulesFire()
    ensures HyphenRule(ExampleHost) == Rule([HyphenInHost], 0.7)
    ensures DigitRule(ExampleHost) == Rule([ContainsDigits(ExampleHost)], 0.7)
  {
    assert ExampleHost[3] == '-';
    assert IsDigit(ExampleHost[8]);
  }

  lemma ExampleRulesPass()
    ensures SubdomainRule(ExampleHost) == Pass
    ensures SubstitutionRule(ExampleHost) == Pass
  {
    ExampleHostDots();
    ExampleHostPlain();
  }

  lemma ExampleHostDots()
    ensures Strings.Count(ExampleHost, '.') == 1
  {
    var name, tld := "exa-mple123", "com";
    assert ExampleHost == name + "." + tld;
    Strings.CountConcat(name + ".", tld, '.');
    Strings.CountConcat(name, ".", '.');
  }

  lemma ExampleHostPlain()
    ensures Substitutions(ExampleHost) == []
  {
    var p, q, r := "exa-m", "ple12", "3.com";
    assert ExampleHost == p + q + r;
    NoConfusableIn(p);
    NoConfusableIn(q);
    NoConfusableIn(r);
    SubstitutionsConcat(p, q);
    SubstitutionsConcat(p + q, r);
  }

  /** Lower-case ASCII letters, digits other than '0', '-' and '.'. */
  predicate PlainChar(c: char) {
    ('a' <= c <= 'z') || ('1' <= c <= '9') || c == '-' || c == '.'
  }

  lemma PlainNotConfusable(c: char)
    requires PlainChar(c)
    ensures Confusable(c).None?
  {}

  /** Hostnames made of plain characters carry no confusable character. */
  lemma NoConfusableIn(hostname: string)
    requires forall i :: 0 <= i < |hostname| ==> PlainChar(hostname[i])
    ensures Substitutions(hostname) == []
  {
    forall i | 0 <= i < |hostname|
      ensures Confusable(hostname[i]).None?
    {
      PlainNotConfusable(hostname[i]);
    }
    SubstitutionsEmpty(hostname);
  }
}
