/// The header/script judge (SecChecker). It looks at the page body for calls
/// of dangerous script functions and at the response for four security
/// headers; every finding multiplies the score, which starts at 1, by a fixed
/// factor below 1.
module SecCheck {
  import opened Core

  // ---------------------------------------------------------------------------
  // The call pattern `\b<name>\s*\(` of RE2

  /** RE2's `\w` (ASCII only). */
  predicate IsWordChar(c: char) {
    ('0' <= c <= '9') || ('A' <= c <= 'Z') || ('a' <= c <= 'z') || c == '_'
  }

  /** RE2's `\s`: tab, newline, form feed, carriage return, space (no vertical tab). */
  predicate IsSpace(c: char) {
    c == '\t' || c == '\n' || c == '\U{000C}' || c == '\r' || c == ' '
  }

  /** Position i of s holds a word character (positions outside s do not). */
  predicate WordAt(s: string, i: int) {
    0 <= i < |s| && IsWordChar(s[i])
  }

  /** RE2's `\b` before position i: a word character on exactly one side. */
  predicate Boundary(s: string, i: int) {
    WordAt(s, i - 1) != WordAt(s, i)
  }

  predicate AllSpaces(t: string) {
    forall m :: 0 <= m < |t| ==> IsSpace(t[m])
  }

  /** `\s*\(` matches at position j. */
  predicate ParenAfterSpaces(s: string, j: nat) {
    exists k :: j <= k < |s| && s[k] == '(' && AllSpaces(s[j..k])
  }

  /** The whole pattern `\b<name>\s*\(` matches at position i. */
  predicate CallAt(s: string, name: string, i: nat) {
    && i + |name| <= |s|
    && Boundary(s, i)
    && s[i..i + |name|] == name
    && ParenAfterSpaces(s, i + |name|)
  }

  /** regex.FindString(html) != "": the pattern matches somewhere. The match is
      never empty, since it ends with '(', so a match and a non-empty result
      are the same thing. */
  predicate HasCall(s: string, name: string) {
    exists i: nat :: i <= |s| && CallAt(s, name, i)
  }

  // ---------------------------------------------------------------------------
  // Script functions

  /** The functions whose calls are penalised, in the order they are searched. */
  const UnsafeFunctions: seq<string> := ["eval", "Function", "setInterval"]
  const UnsafePenalty: real := 0.6

  function Pow(x: real, n: nat): real {
    if n == 0 then 1.0 else Pow(x, n - 1) * x
  }

  /** The notes for the names whose call pattern matches, in the order of names. */
  function UnsafeNotes(html: string, names: seq<string>): (notes: seq<Note>)
    ensures |notes| <= |names|
    ensures forall k :: 0 <= k < |notes| ==> notes[k].UnsafeCall?
  {
    if names == [] then []
    else
      var last := names[|names| - 1];
      UnsafeNotes(html, names[..|names| - 1]) + (if HasCall(html, last) then [UnsafeCall(last)] else [])
  }

  /** The factor the unsafe-call loop multiplies the score by: 0.6 for each
      name that is called, so never below 0.6 to the number of names. */
  function UnsafeFactor(html: string, names: seq<string>): real {
    if names == [] then 1.0
    else
      var last := names[|names| - 1];
      var rest := UnsafeFactor(html, names[..|names| - 1]);
      if HasCall(html, last) then rest * UnsafePenalty else rest
  }

  /** The unsafe-call factor is 0.6 raised to the number of notes written. */
  lemma {:induction false} UnsafeFactorCountsNotes(html: string, names: seq<string>)
    ensures UnsafeFactor(html, names) == Pow(UnsafePenalty, |UnsafeNotes(html, names)|)
  {
    if names != [] {
      UnsafeFactorCountsNotes(html, names[..|names| - 1]);
    }
  }

  /** Each name with a call in the page gets exactly one note, however often
      it is called, and a name without one gets none. */
  lemma {:induction false} UnsafeNotesCount(html: string, names: seq<string>, name: string)
    requires Distinct(names)
    ensures multiset(UnsafeNotes(html, names))[UnsafeCall(name)]
            == if name in names && HasCall(html, name) then 1 else 0
  {
    if names != [] {
      var init, last := names[..|names| - 1], names[|names| - 1];
      assert Distinct(init) by {
        assert forall k :: 0 <= k < |init| ==> init[k] == names[k];
      }
      assert names == init + [last];
      assert last !in init by {
        assert forall k :: 0 <= k < |init| ==> init[k] == names[k] != names[|names| - 1];
      }
      UnsafeNotesCount(html, init, name);
    }
  }

  // ---------------------------------------------------------------------------
  // Response headers

  /** A response's header map: canonical key to its values, as net/http keeps it. */
  type Header = map<string, seq<string>>

  /** The required headers and the factor applied when one is missing. */
  const RequiredHeaders: map<string, real> := map[
    "Content-Security-Policy" := 0.7,
    "X-XSS-Protection" := 0.8,
    "Strict-Transport-Security" := 0.7,
    "X-Frame-Options" := 0.8]

  /** The required headers in the order they are listed. */
  const ListedHeaders: seq<string> :=
    ["Content-Security-Policy", "X-XSS-Protection", "Strict-Transport-Security", "X-Frame-Options"]

  /** A byte allowed in a header field name (an RFC 7230 token character). */
  predicate IsTokenChar(c: char) {
    || ('0' <= c <= '9') || ('A' <= c <= 'Z') || ('a' <= c <= 'z')
    || c == '!' || c == '#' || c == '$' || c == '%' || c == '&' || c == '\'' || c == '*'
    || c == '+' || c == '-' || c == '.' || c == '^' || c == '_' || c == '`' || c == '|' || c == '~'
  }

  function Upper(c: char): char {
    if 'a' <= c <= 'z' then (c as int - 32) as char else c
  }

  function Lower(c: char): char {
    if 'A' <= c <= 'Z' then (c as int + 32) as char else c
  }

  /** A valid header field name: token characters only. */
  predicate ValidKey(key: string) {
    forall i :: 0 <= i < |key| ==> IsTokenChar(key[i])
  }

  /** Position i of key starts a word: it is the first position and upper is
      set, or it follows a hyphen. */
  predicate StartsWord(key: string, upper: bool, i: nat)
    requires i < |key|
  {
    if i == 0 then upper else key[i - 1] == '-'
  }

  /** The case conversion of CanonicalMIMEHeaderKey, where upper says whether
      the first character counts as the start of a word. */
  function Canonicalize(key: string, upper: bool): (r: string)
    ensures |r| == |key|
  {
    if key == [] then []
    else [if upper then Upper(key[0]) else Lower(key[0])] + Canonicalize(key[1..], key[0] == '-')
  }

  /** Each character of the result is the upper-case form of the key's
      character where a word starts and the lower-case form elsewhere. */
  lemma {:induction false} CanonicalizeAt(key: string, upper: bool, i: nat)
    requires i < |key|
    ensures Canonicalize(key, upper)[i] == if StartsWord(key, upper, i) then Upper(key[i]) else Lower(key[i])
  {
    if i > 0 {
      CanonicalizeAt(key[1..], key[0] == '-', i - 1);
      assert StartsWord(key[1..], key[0] == '-', i - 1) == StartsWord(key, upper, i);
    }
  }

  /** textproto.CanonicalMIMEHeaderKey: the first letter and every letter after
      a hyphen upper case, the others lower case; a key holding a byte that may
      not appear in a field name is returned unchanged. */
  function CanonicalKey(key: string): (r: string)
    ensures |r| == |key|
  {
    if ValidKey(key) then Canonicalize(key, true) else key
  }

  /** Header.Get: the first value stored under the canonical key, "" when
      there is none. */
  function Get(header: Header, name: string): (v: string)
    ensures v != "" ==> CanonicalKey(name) in header && header[CanonicalKey(name)] != []
                        && v == header[CanonicalKey(name)][0]
  {
    var key := CanonicalKey(name);
    if key in header && header[key] != [] then header[key][0] else ""
  }

  /** A header counts as missing when Get reads it as empty: absent, present
      with no value, or present with an empty first value. */
  predicate Missing(header: Header, name: string) {
    Get(header, name) == ""
  }

  /** A header is missing exactly when its canonical key is not in the map,
      holds no value, or holds an empty first value; any other value leaves
      it present. */
  lemma MissingCases(header: Header, name: string)
    ensures var key := CanonicalKey(name);
            Missing(header, name) <==> key !in header || header[key] == [] || header[key][0] == ""
  {
  }

  /** The headers of a table that a response lacks, as Get reads them. */
  function Absent(penalties: map<string, real>, header: Header): (absent: set<string>)
    ensures forall name :: name in absent <==> name in penalties && Missing(header, name)
  {
    set name | name in penalties && Missing(header, name)
  }

  /** Names without repetitions. */
  predicate Distinct(names: seq<string>) {
    forall k, l :: 0 <= k < l < |names| ==> names[k] != names[l]
  }

  /** The names list the keys of the table, each once. */
  predicate Table(penalties: map<string, real>, names: seq<string>) {
    && Distinct(names)
    && (forall k :: 0 <= k < |names| ==> names[k] in penalties)
    && (forall name :: name in penalties ==> name in names)
  }

  /** The factor a header contributes once it has been visited: its penalty
      when it is missing, 1 otherwise. */
  function Part(penalties: map<string, real>, absent: set<string>, visited: set<string>, name: string): real
    requires name in penalties
  {
    if name in visited && name in absent then penalties[name] else 1.0
  }

  /** A score m after the visited headers among names have applied their
      factors: m times the factor of each name, so it depends on which
      headers were visited and not on the order of the visits. */
  function Scaled(m: real, penalties: map<string, real>, names: seq<string>, absent: set<string>, visited: set<string>): real
    requires forall k :: 0 <= k < |names| ==> names[k] in penalties
  {
    if names == [] then m
    else Scaled(m, penalties, names[..|names| - 1], absent, visited) * Part(penalties, absent, visited, names[|names| - 1])
  }

  /** The note a header contributes once it has been visited. */
  function PartNote(absent: set<string>, visited: set<string>, name: string): multiset<Note> {
    if name in visited && name in absent then multiset{MissingHeader(name)} else multiset{}
  }

  /** The missing-header notes of the visited headers among names, as a multiset. */
  function HeadersNotes(names: seq<string>, absent: set<string>, visited: set<string>): multiset<Note> {
    if names == [] then multiset{}
    else HeadersNotes(names[..|names| - 1], absent, visited) + PartNote(absent, visited, names[|names| - 1])
  }

  /** Each visited header of a list without repetitions that the response
      lacks gets exactly one note, and every other header gets none. */
  lemma {:induction false} HeadersNotesCount(names: seq<string>, absent: set<string>, visited: set<string>, name: string)
    requires Distinct(names)
    ensures HeadersNotes(names, absent, visited)[MissingHeader(name)]
            == if name in names && name in visited && name in absent then 1 else 0
  {
    if names != [] {
      var init, last := names[..|names| - 1], names[|names| - 1];
      assert Distinct(init) by {
        assert forall k :: 0 <= k < |init| ==> init[k] == names[k];
      }
      assert names == init + [last];
      assert last !in init by {
        assert forall k :: 0 <= k < |init| ==> init[k] == names[k] != names[|names| - 1];
      }
      HeadersNotesCount(init, absent, visited, name);
    }
  }

  /** Visiting a header that is not among names changes neither their factor
      nor their notes. */
  lemma {:induction false} VisitElsewhere(m: real, penalties: map<string, real>, names: seq<string>, absent: set<string>,
                                          visited: set<string>, name: string)
    requires forall k :: 0 <= k < |names| ==> names[k] in penalties
    requires name !in names
    ensures Scaled(m, penalties, names, absent, visited + {name}) == Scaled(m, penalties, names, absent, visited)
  {
    if names != [] {
      VisitElsewhere(m, penalties, names[..|names| - 1], absent, visited, name);
    }
  }

  lemma {:induction false} NotesElsewhere(names: seq<string>, absent: set<string>, visited: set<string>, name: string)
    requires name !in names
    ensures HeadersNotes(names, absent, visited + {name}) == HeadersNotes(names, absent, visited)
  {
    if names != [] {
      NotesElsewhere(names[..|names| - 1], absent, visited, name);
    }
  }

  /** Before any visit the score is m and there are no notes. */
  lemma {:induction false} NothingVisited(m: real, penalties: map<string, real>, names: seq<string>, absent: set<string>)
    requires forall k :: 0 <= k < |names| ==> names[k] in penalties
    ensures Scaled(m, penalties, names, absent, {}) == m
    ensures HeadersNotes(names, absent, {}) == multiset{}
  {
    if names != [] {
      NothingVisited(m, penalties, names[..|names| - 1], absent);
    }
  }

  /** Visiting one more header of the table multiplies the score by that
      header's penalty when it is missing and leaves it alone otherwise. */
  lemma {:induction false} VisitFactor(m: real, penalties: map<string, real>, names: seq<string>, absent: set<string>,
                                       visited: set<string>, name: string)
    requires forall k :: 0 <= k < |names| ==> names[k] in penalties
    requires Distinct(names)
    requires name in names && name !in visited
    ensures name in absent ==>
              Scaled(m, penalties, names, absent, visited + {name}) == Scaled(m, penalties, names, absent, visited) * penalties[name]
    ensures name !in absent ==>
              Scaled(m, penalties, names, absent, visited + {name}) == Scaled(m, penalties, names, absent, visited)
  {
    var after := visited + {name};
    var init, last := names[..|names| - 1], names[|names| - 1];
    var x := if name in absent then penalties[name] else 1.0;
    if last == name {
      assert name !in init;
      VisitElsewhere(m, penalties, init, absent, visited, name);
      assert Part(penalties, absent, after, last) == x;
      assert Part(penalties, absent, visited, last) == 1.0;
    } else {
      assert name in init;
      VisitFactor(m, penalties, init, absent, visited, name);
      var a, p := Scaled(m, penalties, init, absent, visited), Part(penalties, absent, visited, last);
      assert Part(penalties, absent, after, last) == p;
      assert Scaled(m, penalties, names, absent, after) == a * x * p;
      assert a * x * p == a * p * x;
    }
  }

  /** VisitFactor for a score already known to equal the scaled one, with the
      product stated on that score. CheckHeader needs it in this form: there,
      replacing the score by Scaled inside the product is a nonlinear step
      the solver does not find cheaply. */
  lemma ScaleStep(metric: real, m: real, penalties: map<string, real>, names: seq<string>, absent: set<string>,
                  visited: set<string>, name: string)
    requires forall k :: 0 <= k < |names| ==> names[k] in penalties
    requires Distinct(names)
    requires name in names && name !in visited
    requires metric == Scaled(m, penalties, names, absent, visited)
    ensures name in absent ==> metric * penalties[name] == Scaled(m, penalties, names, absent, visited + {name})
    ensures name !in absent ==> metric == Scaled(m, penalties, names, absent, visited + {name})
  {
    VisitFactor(m, penalties, names, absent, visited, name);
  }

  /** Visiting one more header of the table adds its note when it is missing. */
  lemma {:induction false} VisitNotes(names: seq<string>, absent: set<string>, visited: set<string>, name: string)
    requires Distinct(names)
    requires name in names && name !in visited
    ensures HeadersNotes(names, absent, visited + {name})
            == HeadersNotes(names, absent, visited) + PartNote(absent, visited + {name}, name)
  {
    var after := visited + {name};
    var init, last := names[..|names| - 1], names[|names| - 1];
    if last == name {
      assert name !in init;
      NotesElsewhere(init, absent, visited, name);
    } else {
      assert name in init;
      VisitNotes(init, absent, visited, name);
      assert PartNote(absent, after, last) == PartNote(absent, visited, last);
    }
  }

  // ---------------------------------------------------------------------------
  // The judge

  /** The judge's score: the unsafe-call factor, scaled by the penalty of
      every missing required header. */
  function Score(html: string, header: Header): real {
    RequiredTable();
    Scaled(UnsafeFactor(html, UnsafeFunctions), RequiredHeaders, ListedHeaders, Absent(RequiredHeaders, header), RequiredHeaders.Keys)
  }

  /** SecChecker.Check on a response already received: its body and its header
      map. The required headers are visited in the order the map hands them
      out, which Go leaves unspecified; the score does not depend on it, and
      the text holds the unsafe-call notes in their order followed by the
      missing-header notes in some order. */
  method Check(html: string, header: Header) returns (report: Report)
    ensures report.metric == Score(html, header)
    ensures var u := UnsafeNotes(html, UnsafeFunctions);
            && |report.text| >= |u|
            && report.text[..|u|] == u
            && multiset(report.text[|u|..]) == HeadersNotes(ListedHeaders, Absent(RequiredHeaders, header), RequiredHeaders.Keys)
  {
    report := Report([], 1.0);
    for i := 0 to |UnsafeFunctions|
      invariant report.text == UnsafeNotes(html, UnsafeFunctions[..i])
      invariant report.metric == UnsafeFactor(html, UnsafeFunctions[..i])
    {
      var name := UnsafeFunctions[i];
      assert UnsafeFunctions[..i + 1][..i] == UnsafeFunctions[..i];
      if HasCall(html, name) {
        report := Report(report.text + [UnsafeCall(name)], report.metric * UnsafePenalty);
      }
    }
    assert UnsafeFunctions[..|UnsafeFunctions|] == UnsafeFunctions;
    RequiredTable();
    ghost var unsafeText := report.text;
    ghost var added;
    report, added := CheckHeaders(header, RequiredHeaders, ListedHeaders, report);
    assert report.text[|unsafeText|..] == added;
  }

  /** The second loop of the judge, over the entries of a header table in
      whatever order the map hands them out: every missing header writes its
      note and multiplies the score by its factor. */
  method CheckHeaders(header: Header, penalties: map<string, real>, ghost names: seq<string>, report: Report)
    returns (r: Report, ghost added: seq<Note>)
    requires Table(penalties, names)
    ensures r.text == report.text + added
    ensures multiset(added) == HeadersNotes(names, Absent(penalties, header), penalties.Keys)
    ensures r.metric == Scaled(report.metric, penalties, names, Absent(penalties, header), penalties.Keys)
  {
    var text, metric := report.text, report.metric;
    var remaining := penalties.Keys;
    ghost var visited: set<string> := {};
    ghost var absent := Absent(penalties, header);
    added := [];
    NothingVisited(report.metric, penalties, names, absent);
    while remaining != {}
      invariant remaining <= penalties.Keys
      invariant visited == penalties.Keys - remaining
      invariant text == report.text + added
      invariant multiset(added) == HeadersNotes(names, absent, visited)
      invariant metric == Scaled(report.metric, penalties, names, absent, visited)
      decreases |remaining|
    {
      var name :| name in remaining;
      text, metric, added := CheckHeader(header, penalties, names, name, text, metric, report, added, visited);
      remaining := remaining - {name};
      visited := visited + {name};
    }
    assert visited == penalties.Keys;
    r := Report(text, metric);
  }

  /** One turn of the header loop: a missing header writes its note and
      multiplies the score by its factor. The score and the notes so far are
      those of the visited headers, and afterwards those of one more. */
  method CheckHeader(header: Header, penalties: map<string, real>, ghost names: seq<string>, name: string,
                     text: seq<Note>, metric: real, ghost report: Report, ghost added: seq<Note>, ghost visited: set<string>)
    returns (text': seq<Note>, metric': real, ghost added': seq<Note>)
    requires Table(penalties, names)
    requires name in penalties && name !in visited
    requires text == report.text + added
    requires multiset(added) == HeadersNotes(names, Absent(penalties, header), visited)
    requires metric == Scaled(report.metric, penalties, names, Absent(penalties, header), visited)
    ensures text' == report.text + added'
    ensures multiset(added') == HeadersNotes(names, Absent(penalties, header), visited + {name})
    ensures metric' == Scaled(report.metric, penalties, names, Absent(penalties, header), visited + {name})
  {
    ghost var absent := Absent(penalties, header);
    VisitNotes(names, absent, visited, name);
    ScaleStep(metric, report.metric, penalties, names, absent, visited, name);
    if Get(header, name) == "" {
      assert name in absent;
      AppendAssoc(report.text, added, [MissingHeader(name)]);
      text', metric', added' := text + [MissingHeader(name)], metric * penalties[name], added + [MissingHeader(name)];
    } else {
      text', metric', added' := text, metric, added;
    }
  }

  /** The required-header table lists four distinct names, its keys. */
  lemma RequiredTable()
    ensures Table(RequiredHeaders, ListedHeaders)
    ensures forall name :: name in RequiredHeaders <==> name in ListedHeaders
  {
    var a, b, c, d := ListedHeaders[0], ListedHeaders[1], ListedHeaders[2], ListedHeaders[3];
    assert a[0] == 'C' && b[2] == 'X' && c[0] == 'S' && d[2] == 'F';
    assert |b| != |d|;
  }

  // ---------------------------------------------------------------------------
  // Properties of the judge

  /** The score m after every listed header was found missing. */
  function AllMissing(m: real, penalties: map<string, real>, names: seq<string>): real
    requires forall k :: 0 <= k < |names| ==> names[k] in penalties
  {
    if names == [] then m else AllMissing(m, penalties, names[..|names| - 1]) * penalties[names[|names| - 1]]
  }

  /** With penalties in (0, 1], scaling a non-negative score never raises it and
      never lowers it below the score with every header missing. */
  lemma {:induction false} ScaledBounds(m: real, penalties: map<string, real>, names: seq<string>,
                                        absent: set<string>, visited: set<string>)
    requires forall k :: 0 <= k < |names| ==> names[k] in penalties && 0.0 < penalties[names[k]] <= 1.0
    requires 0.0 <= m
    ensures 0.0 <= AllMissing(m, penalties, names) <= Scaled(m, penalties, names, absent, visited)
    ensures Scaled(m, penalties, names, absent, visited) <= m
  {
    if names != [] {
      var init, last := names[..|names| - 1], names[|names| - 1];
      ScaledBounds(m, penalties, init, absent, visited);
      var s, a := Scaled(m, penalties, init, absent, visited), AllMissing(m, penalties, init);
      StepBounds(a, s, m, penalties[last], Part(penalties, absent, visited, last));
    }
  }

  /** Fewer unsafe calls never make the worst case worse. */
  lemma {:induction false} AllMissingMonotonic(m: real, m': real, penalties: map<string, real>, names: seq<string>)
    requires forall k :: 0 <= k < |names| ==> names[k] in penalties && 0.0 < penalties[names[k]]
    requires m <= m'
    ensures AllMissing(m, penalties, names) <= AllMissing(m', penalties, names)
  {
    if names != [] {
      var init := names[..|names| - 1];
      AllMissingMonotonic(m, m', penalties, init);
      MulMono(AllMissing(m, penalties, init), AllMissing(m', penalties, init), penalties[names[|names| - 1]]);
    }
  }

  /** One step of ScaledBounds: a missing header scales both bounds by its
      penalty q, and the actual factor p lies between q and 1. */
  lemma StepBounds(a: real, s: real, m: real, q: real, p: real)
    requires 0.0 <= a <= s <= m && 0.0 < q <= p <= 1.0
    ensures 0.0 <= a * q
    ensures a * q <= s * p
    ensures s * p <= m
  {
    MulMono(0.0, a, q);
    MulMono(a, s, q);
    MulMono(q, p, s);
    MulMono(p, 1.0, s);
    assert s * 1.0 == s;
    assert a * q <= s * q == q * s <= p * s == s * p;
    assert a * q <= s * p;
  }

  lemma MulMono(x: real, y: real, z: real)
    requires x <= y && 0.0 <= z
    ensures z * x <= z * y && x * z <= y * z
  {}

  lemma {:induction false} UnsafeFactorBounds(html: string, names: seq<string>)
    ensures 0.0 < Pow(UnsafePenalty, |names|) <= UnsafeFactor(html, names) <= 1.0
  {
    if names != [] {
      var n := |names|;
      UnsafeFactorBounds(html, names[..n - 1]);
      var f, w := UnsafeFactor(html, names[..n - 1]), Pow(UnsafePenalty, n - 1);
      assert f * UnsafePenalty <= f * 1.0;
      assert w * UnsafePenalty <= f * UnsafePenalty;
    }
  }

  /** The lowest score the judge can give: every unsafe call found and every
      required header missing. */
  const MinScore: real := 0.6 * 0.6 * 0.6 * 0.7 * 0.8 * 0.7 * 0.8

  lemma RequiredPenalties()
    ensures Table(RequiredHeaders, ListedHeaders)
    ensures forall k :: 0 <= k < |ListedHeaders| ==> 0.0 < RequiredHeaders[ListedHeaders[k]] <= 1.0
    ensures AllMissing(0.6 * 0.6 * 0.6, RequiredHeaders, ListedHeaders) == MinScore
  {
    RequiredTable();
    var l, m := ListedHeaders, 0.6 * 0.6 * 0.6;
    assert RequiredHeaders[l[0]] == 0.7 && RequiredHeaders[l[1]] == 0.8;
    assert RequiredHeaders[l[2]] == 0.7 && RequiredHeaders[l[3]] == 0.8;
    assert l[..3][..2][..1][..0] == [];
    assert AllMissing(m, RequiredHeaders, l[..1]) == m * 0.7;
    assert AllMissing(m, RequiredHeaders, l[..2]) == m * 0.7 * 0.8;
    assert l[..3][..2] == l[..2] && l[..3][2] == l[2];
    assert AllMissing(m, RequiredHeaders, l[..3]) == m * 0.7 * 0.8 * 0.7;
    assert l[..4] == l;
  }

  /** The judge's score is positive, at most 1 and at least MinScore: it never
      reads as a failed judge to the engine. */
  lemma ScoreBounds(html: string, header: Header)
    ensures 0.0 < MinScore <= Score(html, header) <= 1.0
  {
    RequiredPenalties();
    UnsafeFactorBounds(html, UnsafeFunctions);
    var u := UnsafeFactor(html, UnsafeFunctions);
    assert Pow(UnsafePenalty, 3) == 0.6 * 0.6 * 0.6;
    ScaledBounds(u, RequiredHeaders, ListedHeaders, Absent(RequiredHeaders, header), RequiredHeaders.Keys);
    AllMissingMonotonic(0.6 * 0.6 * 0.6, u, RequiredHeaders, ListedHeaders);
  }

  /** With every listed header visited and missing, the scaled score is the
      all-missing product. */
  lemma {:induction false} ScaledAllMissing(m: real, penalties: map<string, real>, names: seq<string>,
                                            absent: set<string>, visited: set<string>)
    requires forall k :: 0 <= k < |names| ==> names[k] in penalties && names[k] in absent && names[k] in visited
    ensures Scaled(m, penalties, names, absent, visited) == AllMissing(m, penalties, names)
  {
    if names != [] {
      ScaledAllMissing(m, penalties, names[..|names| - 1], absent, visited);
    }
  }

  /** The bound is reached: a page calling all three functions, with every
      required header missing, scores exactly MinScore. */
  lemma MinScoreReached(html: string, header: Header)
    requires forall k :: 0 <= k < |UnsafeFunctions| ==> HasCall(html, UnsafeFunctions[k])
    requires Absent(RequiredHeaders, header) == RequiredHeaders.Keys
    ensures Score(html, header) == MinScore
  {
    RequiredPenalties();
    var u, l := UnsafeFunctions, ListedHeaders;
    assert u[..3][..2][..1][..0] == [] && u[..3] == u;
    assert u[..3][..2] == u[..2] && u[..2][..1] == u[..1];
    assert UnsafeFactor(html, u) == 0.6 * 0.6 * 0.6 by {
      assert HasCall(html, u[0]) && HasCall(html, u[1]) && HasCall(html, u[2]);
      assert UnsafeFactor(html, u[..1]) == 0.6;
      assert UnsafeFactor(html, u[..2]) == 0.6 * 0.6;
    }
    assert forall k :: 0 <= k < |l| ==> l[k] in RequiredHeaders;
    ScaledAllMissing(0.6 * 0.6 * 0.6, RequiredHeaders, l, RequiredHeaders.Keys, RequiredHeaders.Keys);
  }

  /** A name that starts after a non-word character and is followed by "("
      is called. */
  lemma CallBetween(pre: string, name: string, post: string)
    requires |name| > 0 && IsWordChar(name[0])
    requires pre == [] || !IsWordChar(pre[|pre| - 1])
    ensures HasCall(pre + name + "(" + post, name)
  {
    var s := pre + name + "(" + post;
    var i, j := |pre|, |pre| + |name|;
    assert s[i..j] == name;
    assert s[j] == '(' && s[j..j] == [];
    assert ParenAfterSpaces(s, j);
    assert CallAt(s, name, i);
  }

  /** A response without headers lacks every header of a table. */
  lemma NoHeadersAllAbsent(penalties: map<string, real>)
    ensures Absent(penalties, map[]) == penalties.Keys
  {
  }

  /** A page calling all three functions. */
  const AllCallsBody: string := "eval" + "(" + "Function" + "(" + "setInterval" + "("

  lemma EvalFound()
    ensures HasCall(AllCallsBody, "eval")
  {
    assert AllCallsBody == [] + "eval" + "(" + ("Function" + "(" + "setInterval" + "(");
    CallBetween([], "eval", "Function" + "(" + "setInterval" + "(");
  }

  lemma FunctionFound()
    ensures HasCall(AllCallsBody, "Function")
  {
    assert AllCallsBody == ("eval" + "(") + "Function" + "(" + ("setInterval" + "(");
    CallBetween("eval" + "(", "Function", "setInterval" + "(");
  }

  lemma SetIntervalFound()
    ensures HasCall(AllCallsBody, "setInterval")
  {
    assert AllCallsBody == ("eval" + "(" + "Function" + "(") + "setInterval" + "(" + [];
    CallBetween("eval" + "(" + "Function" + "(", "setInterval", []);
  }

  /** That page, sent with no headers at all, scores the minimum. */
  lemma MinScoreExample()
    ensures Score(AllCallsBody, map[]) == MinScore
  {
    EvalFound();
    FunctionFound();
    SetIntervalFound();
    forall k | 0 <= k < |UnsafeFunctions|
      ensures HasCall(AllCallsBody, UnsafeFunctions[k])
    {
    }
    NoHeadersAllAbsent(RequiredHeaders);
    MinScoreReached(AllCallsBody, map[]);
  }

  // ---------------------------------------------------------------------------
  // Examples

  /** Spaces may separate the name from its parenthesis. */
  lemma CallWithSpaces()
    ensures HasCall("x = eval (y)", "eval")
  {
    var s := "x = eval (y)";
    assert s[4..8] == "eval" && s[8..9] == " ";
    assert CallAt(s, "eval", 4);
  }

  /** A constructor call counts: a space is a boundary before the name. */
  lemma CallAfterNew()
    ensures HasCall("new Function(", "Function")
  {
    var s := "new Function(";
    assert s[4..12] == "Function" && s[12..12] == "";
    assert CallAt(s, "Function", 4);
  }

  /** A name that ends a longer word is not a call of that name. */
  lemma NoCallInsideWord()
    ensures !HasCall("myeval(1)", "eval")
  {
    var s := "myeval(1)";
    forall i: nat | i <= |s|
      ensures !CallAt(s, "eval", i)
    {
      if i == 2 {
        assert WordAt(s, 1) && WordAt(s, 2);
      } else if i + 4 <= |s| {
        assert s[i..i + 4][0] == s[i] != 'e';
      }
    }
  }

  /** A name that starts a longer word is not a call of that name either. */
  lemma NoCallOfPrefix()
    ensures !HasCall("evaluate(1)", "eval")
  {
    var s := "evaluate(1)";
    assert s[1] == 'v' && s[2] == 'a' && s[3] == 'l' && s[4] == 'u' && s[5] == 'a' && s[6] == 't';
    forall i: nat | i <= |s|
      ensures !CallAt(s, "eval", i)
    {
      if i == 0 {
        forall k | 4 <= k < |s| && s[k] == '('
          ensures !AllSpaces(s[4..k])
        {
          assert s[4..k][0] == 'u';
        }
      } else if i == 7 {
        assert s[7..11][1] == s[8] == '(';
      } else if i + 4 <= |s| {
        assert s[i] != 'e';
        assert s[i..i + 4][0] == s[i];
      }
    }
  }

  /** Changing the case of a character keeps it a token character, keeps a
      hyphen a hyphen and makes no new one, and a second change of the same
      kind does nothing. */
  lemma CaseChange(c: char)
    ensures IsTokenChar(c) ==> IsTokenChar(Upper(c)) && IsTokenChar(Lower(c))
    ensures (Upper(c) == '-') == (c == '-') == (Lower(c) == '-')
    ensures Upper(Upper(c)) == Upper(c) && Lower(Lower(c)) == Lower(c)
  {}

  /** Canonicalizing twice changes nothing. */
  lemma CanonicalKeyIdempotent(key: string)
    ensures CanonicalKey(CanonicalKey(key)) == CanonicalKey(key)
  {
    if ValidKey(key) {
      var r := Canonicalize(key, true);
      forall i | 0 <= i < |key|
        ensures IsTokenChar(r[i])
      {
        CaseChange(key[i]);
        CanonicalizeAt(key, true, i);
      }
      var r' := Canonicalize(r, true);
      forall i | 0 <= i < |key|
        ensures r'[i] == r[i]
      {
        CaseChange(key[i]);
        CanonicalizeAt(key, true, i);
        CanonicalizeAt(r, true, i);
        if i > 0 {
          CaseChange(key[i - 1]);
          CanonicalizeAt(key, true, i - 1);
        }
      }
    }
  }

  /** Two valid names that differ only in the case of their letters have the
      same canonical key. */
  lemma CanonicalKeyIgnoresCase(a: string, b: string)
    requires ValidKey(a) && ValidKey(b)
    requires |a| == |b| && forall i :: 0 <= i < |a| ==> Lower(a[i]) == Lower(b[i])
    ensures CanonicalKey(a) == CanonicalKey(b)
  {
    var ra, rb := Canonicalize(a, true), Canonicalize(b, true);
    forall i | 0 <= i < |a|
      ensures ra[i] == rb[i]
    {
      CanonicalizeAt(a, true, i);
      CanonicalizeAt(b, true, i);
      if i > 0 {
        assert (a[i - 1] == '-') == (Lower(a[i - 1]) == '-') == (b[i - 1] == '-');
      }
    }
  }

  /** So Get finds a header whatever the case the program or the server wrote
      its name in. */
  lemma GetIgnoresCase(header: Header, a: string, b: string)
    requires ValidKey(a) && ValidKey(b)
    requires |a| == |b| && forall i :: 0 <= i < |a| ==> Lower(a[i]) == Lower(b[i])
    ensures Get(header, a) == Get(header, b)
  {
    CanonicalKeyIgnoresCase(a, b);
  }

  // ---------------------------------------------------------------------------
  // A worked score: one eval call and no Content-Security-Policy header

  const ExampleBody: string := "eval(x)"

  /** A response with three of the four headers, stored as net/http stores
      them, under their canonical names. */
  const ExampleHeader: Header := map[
    CanonicalKey("X-XSS-Protection") := ["1; mode=block"],
    CanonicalKey("Strict-Transport-Security") := ["max-age=31536000"],
    CanonicalKey("X-Frame-Options") := ["DENY"]]

  lemma ExampleUnsafe()
    ensures UnsafeNotes(ExampleBody, UnsafeFunctions) == [UnsafeCall("eval")]
    ensures UnsafeFactor(ExampleBody, UnsafeFunctions) == 0.6
  {
    var s, names := ExampleBody, UnsafeFunctions;
    assert s[0..4] == "eval" && s[4..4] == [];
    assert CallAt(s, "eval", 0);
    assert !HasCall(s, "Function") && !HasCall(s, "setInterval");
    assert names[..3] == names && names[..2][..1] == names[..1] && names[..1][..0] == [];
    assert names[..3][..2] == names[..2];
    assert UnsafeFactor(s, names[..1]) == 0.6;
    assert UnsafeFactor(s, names[..2]) == 0.6;
  }

  /** The canonical Content-Security-Policy key has 23 characters, and the
      three keys set in the example have 16, 25 and 15: it is not among them. */
  lemma ExampleCspMissing()
    ensures Missing(ExampleHeader, "Content-Security-Policy")
  {
    var csp := CanonicalKey("Content-Security-Policy");
    assert |csp| == 23;
    assert csp !in ExampleHeader;
  }

  lemma ExampleXssPresent()
    ensures !Missing(ExampleHeader, "X-XSS-Protection")
  {
    var xss := CanonicalKey("X-XSS-Protection");
    assert Get(ExampleHeader, "X-XSS-Protection") == ExampleHeader[xss][0] != "";
  }

  lemma ExampleStsPresent()
    ensures !Missing(ExampleHeader, "Strict-Transport-Security")
  {
    var sts := CanonicalKey("Strict-Transport-Security");
    assert Get(ExampleHeader, "Strict-Transport-Security") == ExampleHeader[sts][0] != "";
  }

  lemma ExampleXfoPresent()
    ensures !Missing(ExampleHeader, "X-Frame-Options")
  {
    var xfo := CanonicalKey("X-Frame-Options");
    assert Get(ExampleHeader, "X-Frame-Options") == ExampleHeader[xfo][0] != "";
  }

  /** With the other three canonical keys set, only Content-Security-Policy
      reads as missing. */
  lemma ExampleMissing()
    ensures Missing(ExampleHeader, "Content-Security-Policy")
    ensures !Missing(ExampleHeader, "X-XSS-Protection")
    ensures !Missing(ExampleHeader, "Strict-Transport-Security")
    ensures !Missing(ExampleHeader, "X-Frame-Options")
  {
    ExampleCspMissing();
    ExampleXssPresent();
    ExampleStsPresent();
    ExampleXfoPresent();
  }

  /** A response that has every required header but Content-Security-Policy
      lacks exactly that one. */
  lemma OnlyCspAbsent(header: Header)
    requires Missing(header, "Content-Security-Policy")
    requires !Missing(header, "X-XSS-Protection") && !Missing(header, "Strict-Transport-Security")
    requires !Missing(header, "X-Frame-Options")
    ensures Absent(RequiredHeaders, header) == {"Content-Security-Policy"}
  {
    var absent := Absent(RequiredHeaders, header);
    forall name | name in absent
      ensures name == "Content-Security-Policy"
    {
      RequiredTable();
      assert name in ListedHeaders;
    }
    assert "Content-Security-Policy" in RequiredHeaders;
  }

  lemma ExampleAbsent()
    ensures Absent(RequiredHeaders, ExampleHeader) == {"Content-Security-Policy"}
  {
    ExampleMissing();
    OnlyCspAbsent(ExampleHeader);
  }

  /** Of the four visited headers only Content-Security-Policy is absent. */
  lemma ExampleParts()
    ensures var absent, l := {"Content-Security-Policy"}, ListedHeaders;
            && Part(RequiredHeaders, absent, RequiredHeaders.Keys, l[0]) == 0.7
            && Part(RequiredHeaders, absent, RequiredHeaders.Keys, l[1]) == 1.0
            && Part(RequiredHeaders, absent, RequiredHeaders.Keys, l[2]) == 1.0
            && Part(RequiredHeaders, absent, RequiredHeaders.Keys, l[3]) == 1.0
  {
    RequiredTable();
  }

  /** In a table of four headers of which only the first applies its penalty,
      the score is scaled by that penalty alone. */
  lemma ScaledOnlyFirst(m: real, penalties: map<string, real>, l: seq<string>, absent: set<string>, visited: set<string>)
    requires |l| == 4 && forall k :: 0 <= k < 4 ==> l[k] in penalties
    requires forall k :: 1 <= k < 4 ==> Part(penalties, absent, visited, l[k]) == 1.0
    ensures Scaled(m, penalties, l, absent, visited) == m * Part(penalties, absent, visited, l[0])
  {
    var a, b, c := l[..3], l[..2], l[..1];
    assert l[..4] == l && a[..2] == b && b[..1] == c && c[..0] == [];
    assert a[2] == l[2] && b[1] == l[1] && c[0] == l[0];
    var first := m * Part(penalties, absent, visited, l[0]);
    assert Scaled(m, penalties, c, absent, visited) == first;
    assert Scaled(m, penalties, b, absent, visited) == first * 1.0;
    assert Scaled(m, penalties, a, absent, visited) == first * 1.0 * 1.0;
  }

  /** Whatever the body, a response that lacks only Content-Security-Policy
      scores the unsafe-call factor times 0.7. */
  lemma OnlyCspMissing(html: string, header: Header)
    requires Absent(RequiredHeaders, header) == {"Content-Security-Policy"}
    ensures Score(html, header) == UnsafeFactor(html, UnsafeFunctions) * 0.7
  {
    ExampleParts();
    RequiredTable();
    ScaledOnlyFirst(UnsafeFactor(html, UnsafeFunctions), RequiredHeaders, ListedHeaders,
                    {"Content-Security-Policy"}, RequiredHeaders.Keys);
  }

  /** The score is 0.6 for the call times 0.7 for the missing header. */
  lemma ExampleScore()
    ensures Score(ExampleBody, ExampleHeader) == 0.42
  {
    ExampleUnsafe();
    ExampleAbsent();
    OnlyCspMissing(ExampleBody, ExampleHeader);
  }
}
