/// The few functions of Go's `strings` package that the checkers rely on,
/// specialised to the arguments the checkers pass them, and Join, which the
/// checkers do not call: it is the reference inverse that Split is proved
/// against.
module Strings {

  /** True when `s` starts with `prefix`. */
  predicate HasPrefix(s: string, prefix: string) {
    |prefix| <= |s| && s[..|prefix|] == prefix
  }

  /** strings.TrimPrefix: drops one leading copy of `prefix`, if there is one. */
  function TrimPrefix(s: string, prefix: string): (r: string)
    ensures HasPrefix(s, prefix) ==> s == prefix + r
    ensures !HasPrefix(s, prefix) ==> r == s
  {
    if HasPrefix(s, prefix) then s[|prefix|..] else s
  }

  /** Removing a prefix that was just added gives back the original string, even
      when that string starts with the prefix again: exactly one copy goes. */
  lemma TrimPrefixOfPrefixed(prefix: string, s: string)
    ensures TrimPrefix(prefix + s, prefix) == s
  {
    assert (prefix + s)[..|prefix|] == prefix;
  }

  /** strings.Count with a one-character separator: the number of occurrences of `c`. */
  function Count(s: string, c: char): (n: nat)
    ensures n <= |s|
    ensures n == 0 <==> c !in s
  {
    if s == [] then 0
    else Count(s[..|s| - 1], c) + (if s[|s| - 1] == c then 1 else 0)
  }

  /** Counting distributes over concatenation. */
  lemma {:induction false} CountConcat(a: string, b: string, c: char)
    ensures Count(a + b, c) == Count(a, c) + Count(b, c)
  {
    if b != [] {
      CountConcat(a, b[..|b| - 1], c);
      assert (a + b)[..|a + b| - 1] == a + b[..|b| - 1];
      assert Count(a + b, c) == Count(a + b[..|b| - 1], c) + Count([b[|b| - 1]], c) by {
        assert (a + b)[|a + b| - 1] == b[|b| - 1];
      }
      assert Count(b, c) == Count(b[..|b| - 1], c) + Count([b[|b| - 1]], c);
    } else {
      assert a + b == a;
    }
  }

  /** strings.Split with a one-character separator. The string is read from its
      end, so each step either closes a part or extends the last one. */
  function Split(s: string, sep: char): (parts: seq<string>)
    ensures |parts| == Count(s, sep) + 1
    ensures forall i :: 0 <= i < |parts| ==> sep !in parts[i]
  {
    if s == [] then [""]
    else
      var init := Split(s[..|s| - 1], sep);
      var c := s[|s| - 1];
      if c == sep then init + [""]
      else init[..|init| - 1] + [init[|init| - 1] + [c]]
  }

  /** strings.Join with a one-character separator: the inverse of Split. */
  function Join(parts: seq<string>, sep: char): (s: string)
  {
    if parts == [] then ""
    else if |parts| == 1 then parts[0]
    else Join(parts[..|parts| - 1], sep) + [sep] + parts[|parts| - 1]
  }

  /** Joining the parts of a split gives back the string. */
  lemma {:induction false} JoinSplit(s: string, sep: char)
    ensures Join(Split(s, sep), sep) == s
  {
    if s != [] {
      var init := Split(s[..|s| - 1], sep);
      var c := s[|s| - 1];
      JoinSplit(s[..|s| - 1], sep);
      assert s == s[..|s| - 1] + [c];
      if c == sep {
        JoinSnoc(init, sep, "");
      } else {
        JoinExtendLast(init, sep, c);
      }
    }
  }

  /** Joining one more part adds a separator and that part. */
  lemma JoinSnoc(parts: seq<string>, sep: char, p: string)
    requires |parts| >= 1
    ensures Join(parts + [p], sep) == Join(parts, sep) + [sep] + p
  {
    assert (parts + [p])[..|parts|] == parts;
  }

  /** Extending the last part extends the join by the same character. */
  lemma JoinExtendLast(parts: seq<string>, sep: char, c: char)
    requires |parts| >= 1
    ensures var n := |parts|;
            Join(parts[..n - 1] + [parts[n - 1] + [c]], sep) == Join(parts, sep) + [c]
  {
    var n := |parts|;
    if n > 1 {
      JoinSnoc(parts[..n - 1], sep, parts[n - 1] + [c]);
      JoinSnoc(parts[..n - 1], sep, parts[n - 1]);
      assert parts == parts[..n - 1] + [parts[n - 1]];
    }
  }

  /** A string without the separator splits into itself alone. */
  lemma {:induction false} SplitSingle(p: string, sep: char)
    requires sep !in p
    ensures Split(p, sep) == [p]
  {
    if p != [] {
      SplitSingle(p[..|p| - 1], sep);
      assert p == p[..|p| - 1] + [p[|p| - 1]];
    }
  }

  /** Appending a separator and a separator-free part adds exactly that part. */
  lemma {:induction false} SplitAppend(s: string, sep: char, p: string)
    requires sep !in p
    ensures Split(s + [sep] + p, sep) == Split(s, sep) + [p]
  {
    if p == [] {
      assert s + [sep] + p == s + [sep];
      SplitSeparator(s, sep);
    } else {
      var q, c := p[..|p| - 1], p[|p| - 1];
      SplitAppend(s, sep, q);
      var t := s + [sep] + q;
      SplitExtend(t, c, sep);
      assert p == q + [c];
      AppendLast(s + [sep], q, c);
      var init := Split(t, sep);
      assert init == Split(s, sep) + [q];
      assert init[..|init| - 1] == Split(s, sep) && init[|init| - 1] == q;
    }
  }

  /** Appending the separator opens an empty last part. */
  lemma SplitSeparator(s: string, sep: char)
    ensures Split(s + [sep], sep) == Split(s, sep) + [""]
  {
    assert (s + [sep])[..|s|] == s;
  }

  lemma AppendLast(a: string, q: string, c: char)
    ensures a + (q + [c]) == (a + q) + [c]
  {}

  /** Appending a character other than the separator extends the last part. */
  lemma SplitExtend(s: string, c: char, sep: char)
    requires c != sep
    ensures var init := Split(s, sep);
            Split(s + [c], sep) == init[..|init| - 1] + [init[|init| - 1] + [c]]
  {
    assert (s + [c])[..|s|] == s;
  }

  /** Splitting a join of separator-free parts gives back the parts. */
  lemma {:induction false} SplitJoin(parts: seq<string>, sep: char)
    requires |parts| >= 1
    requires forall i :: 0 <= i < |parts| ==> sep !in parts[i]
    ensures Split(Join(parts, sep), sep) == parts
  {
    if |parts| == 1 {
      SplitSingle(parts[0], sep);
    } else {
      var init, last := parts[..|parts| - 1], parts[|parts| - 1];
      assert parts == init + [last];
      assert forall i :: 0 <= i < |init| ==> sep !in init[i] by {
        assert forall i :: 0 <= i < |init| ==> init[i] == parts[i];
      }
      SplitJoin(init, sep);
      SplitAppend(Join(init, sep), sep, last);
      assert Split(Join(parts, sep), sep) == Split(Join(init, sep), sep) + [last] by {
        assert Join(parts, sep) == Join(init, sep) + [sep] + last;
      }
    }
  }
}
