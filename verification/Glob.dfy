/** Google Test's name filters: wildcard patterns, separated by colons, and a filter with a
    positive and a negative part. */
module Glob {
  import opened Text

  // ---------- The language of a pattern ----------

  /** The words of one pattern character. */
  ghost predicate PieceMatches(c: char, piece: string) {
    match c
    case '?' => |piece| == 1
    case '*' => true
    case _ => piece == [c]
  }

  function Concat(pieces: seq<string>): string {
    if pieces == [] then "" else pieces[0] + Concat(pieces[1..])
  }

  ghost predicate SplitsInto(pattern: string, s: string, pieces: seq<string>) {
    && |pieces| == |pattern| && Concat(pieces) == s
    && forall i :: 0 <= i < |pieces| ==> PieceMatches(pattern[i], pieces[i])
  }

  /** s is a concatenation of words, one for each character of the pattern. */
  ghost predicate InLanguage(pattern: string, s: string) {
    exists pieces :: SplitsInto(pattern, s, pieces)
  }

  /** The text before the first c. */
  function UpTo(s: string, c: char): string { s[..Find(s, c)] }

  lemma UpToStep(s: string, c: char)
    requires s != "" && s[0] != c
    ensures UpTo(s, c) == [s[0]] + UpTo(s[1..], c)
  {}

  function Split(s: string, c: char): seq<string>
    decreases |s|
  {
    var k := Find(s, c);
    if k == |s| then [s] else [s[..k]] + Split(s[k + 1..], c)
  }

  ghost predicate MatchesSome(patterns: seq<string>, name: string) {
    exists i :: 0 <= i < |patterns| && InLanguage(patterns[i], name)
  }

  /** What a whole filter means: before the first dash stand the patterns of the names to
      run, all names if it is the first character; after it those of the names to leave out. */
  ghost predicate Passes(filter: string, name: string) {
    var k := Find(filter, '-');
    if k == |filter| then MatchesSome(Split(filter, ':'), name)
    else
      && (k == 0 || MatchesSome(Split(filter[..k], ':'), name))
      && !MatchesSome(Split(filter[k + 1..], ':'), name)
  }

  // ---------- Matching ----------

  /** The first `:` or the end of the text ends the pattern. */
  predicate PatternMatchesString(pattern: string, str: string)
    decreases |pattern| + |str|
  {
    if pattern == "" || pattern[0] == ':' then str == ""
    else if pattern[0] == '?' then str != "" && PatternMatchesString(pattern[1..], str[1..])
    else if pattern[0] == '*' then
      (str != "" && PatternMatchesString(pattern, str[1..])) || PatternMatchesString(pattern[1..], str)
    else str != "" && pattern[0] == str[0] && PatternMatchesString(pattern[1..], str[1..])
  }

  lemma PrependPiece(pattern: string, c: char, s: string, piece: string)
    requires InLanguage(pattern, s) && PieceMatches(c, piece)
    ensures InLanguage([c] + pattern, piece + s)
  {
    var pieces :| SplitsInto(pattern, s, pieces);
    assert SplitsInto([c] + pattern, piece + s, [piece] + pieces);
  }

  /** A `*` at the head takes one more character. */
  lemma ExtendStar(pattern: string, c: char, s: string)
    requires pattern != "" && pattern[0] == '*' && InLanguage(pattern, s)
    ensures InLanguage(pattern, [c] + s)
  {
    var pieces :| SplitsInto(pattern, s, pieces);
    var longer := [[c] + pieces[0]] + pieces[1..];
    assert SplitsInto(pattern, [c] + s, longer);
  }

  lemma {:induction false} MatchSound(pattern: string, str: string)
    requires PatternMatchesString(pattern, str)
    ensures InLanguage(UpTo(pattern, ':'), str)
    decreases |pattern| + |str|
  {
    if pattern != "" && pattern[0] != ':' {
      UpToStep(pattern, ':');
    }
    if pattern == "" || pattern[0] == ':' {
      assert SplitsInto("", "", []);
    } else if pattern[0] == '*' {
      if str != "" && PatternMatchesString(pattern, str[1..]) {
        MatchSound(pattern, str[1..]);
        ExtendStar(UpTo(pattern, ':'), str[0], str[1..]);
        assert [str[0]] + str[1..] == str;
      } else {
        MatchSound(pattern[1..], str);
        PrependPiece(UpTo(pattern[1..], ':'), '*', str, "");
        assert "" + str == str;
      }
    } else {
      MatchSound(pattern[1..], str[1..]);
      PrependPiece(UpTo(pattern[1..], ':'), pattern[0], str[1..], str[..1]);
      assert str[..1] + str[1..] == str;
    }
  }

  lemma {:induction false} MatchComplete(pattern: string, str: string, pieces: seq<string>)
    requires SplitsInto(UpTo(pattern, ':'), str, pieces)
    ensures PatternMatchesString(pattern, str)
    decreases |pattern| + |str|
  {
    if pattern != "" && pattern[0] != ':' {
      UpToStep(pattern, ':');
      var rest := UpTo(pattern[1..], ':');
      assert UpTo(pattern, ':')[1..] == rest;
      if pattern[0] == '*' && pieces[0] != "" {
        var shorter := [pieces[0][1..]] + pieces[1..];
        assert str[1..] == pieces[0][1..] + Concat(pieces[1..]);
        assert SplitsInto(UpTo(pattern, ':'), str[1..], shorter);
        MatchComplete(pattern, str[1..], shorter);
      } else {
        assert str == pieces[0] + Concat(pieces[1..]);
        assert SplitsInto(rest, str[|pieces[0]|..], pieces[1..]);
        MatchComplete(pattern[1..], str[|pieces[0]|..], pieces[1..]);
      }
    }
  }

  lemma MatchIsLanguage(pattern: string, str: string)
    ensures PatternMatchesString(pattern, str) <==> InLanguage(UpTo(pattern, ':'), str)
  {
    if PatternMatchesString(pattern, str) {
      MatchSound(pattern, str);
    }
    if InLanguage(UpTo(pattern, ':'), str) {
      var pieces :| SplitsInto(UpTo(pattern, ':'), str, pieces);
      MatchComplete(pattern, str, pieces);
    }
  }

  // ---------- Filters ----------

  method MatchesFilter(name: string, filter: string) returns (matched: bool)
    ensures matched <==> MatchesSome(Split(filter, ':'), name)
  {
    var cur := filter;
    while true
      invariant MatchesSome(Split(filter, ':'), name) <==> MatchesSome(Split(cur, ':'), name)
      decreases |cur|
    {
      MatchIsLanguage(cur, name);
      SplitHead(cur, name);
      if PatternMatchesString(cur, name) {
        return true;
      }
      var colon := Find(cur, ':');
      if colon == |cur| {
        return false;
      }
      cur := cur[colon + 1..];
    }
  }

  lemma SplitHead(filter: string, name: string)
    ensures var k := Find(filter, ':');
            MatchesSome(Split(filter, ':'), name) <==>
            InLanguage(UpTo(filter, ':'), name) ||
            (k < |filter| && MatchesSome(Split(filter[k + 1..], ':'), name))
  {
    hide MatchesSome, InLanguage, Find;
    var k := Find(filter, ':');
    if k == |filter| {
      assert UpTo(filter, ':') == filter;
      MatchesOne(filter, name);
    } else {
      MatchesMore(UpTo(filter, ':'), Split(filter[k + 1..], ':'), name);
    }
  }

  lemma MatchesOne(pattern: string, name: string)
    ensures MatchesSome([pattern], name) <==> InLanguage(pattern, name)
  {
    assert [pattern][0] == pattern;
  }

  lemma MatchesMore(head: string, rest: seq<string>, name: string)
    ensures MatchesSome([head] + rest, name) <==> InLanguage(head, name) || MatchesSome(rest, name)
  {
    var parts := [head] + rest;
    assert parts[0] == head;
    assert forall i :: 0 <= i < |rest| ==> parts[i + 1] == rest[i];
    assert forall i :: 0 < i < |parts| ==> parts[i] == rest[i - 1];
  }

  /** The characters that a pattern asks for. */
  function LeastLength(pattern: string): nat {
    if pattern == "" then 0 else (if pattern[0] == '*' then 0 else 1) + LeastLength(pattern[1..])
  }

  lemma {:induction false} WordsAreLong(pattern: string, s: string, pieces: seq<string>)
    requires SplitsInto(pattern, s, pieces)
    ensures |s| >= LeastLength(pattern)
  {
    if pattern != "" {
      assert forall i :: 0 <= i < |pieces[1..]| ==> PieceMatches(pattern[1..][i], pieces[1..][i]);
      WordsAreLong(pattern[1..], Concat(pieces[1..]), pieces[1..]);
      assert PieceMatches(pattern[0], pieces[0]);
    }
  }

  lemma {:induction false} LeastLengthAppend(a: string, b: string)
    ensures LeastLength(a + b) == LeastLength(a) + LeastLength(b)
  {
    if a == "" {
      assert a + b == b;
    } else {
      assert (a + b)[1..] == a[1..] + b;
      LeastLengthAppend(a[1..], b);
    }
  }

  lemma {:induction false} PlainLength(pattern: string)
    requires '*' !in pattern
    ensures LeastLength(pattern) == |pattern|
  {
    if pattern != "" {
      PlainLength(pattern[1..]);
    }
  }

  lemma SplitTwo(a: string, b: string, c: char)
    requires c !in a && c !in b
    ensures Split(a + ([c] + b), c) == [a, b]
  {
    var s := a + ([c] + b);
    FindAfter(a, [c] + b, c);
    assert s[..|a|] == a && s[|a| + 1..] == b;
    FindFirst(b, c);
  }

  /** No name that is shorter than both of two patterns matches one of them. */
  lemma TooShort(a: string, b: string, name: string)
    requires ':' !in a && ':' !in b && |name| < LeastLength(a) && |name| < LeastLength(b)
    ensures !Matching(a + (":" + b))(name)
  {
    SplitTwo(a, b, ':');
    assert ":" == [':'];
    forall pattern | pattern == a || pattern == b ensures !InLanguage(pattern, name) {
      if InLanguage(pattern, name) {
        var pieces :| SplitsInto(pattern, name, pieces);
        WordsAreLong(pattern, name, pieces);
      }
    }
  }

  /** The names that a filter without a negative part lets through. */
  ghost function Matching(filter: string): string -> bool {
    (name: string) => MatchesSome(Split(filter, ':'), name)
  }

  method NameMatches(name: string, filter: string) returns (matched: bool)
    ensures matched <==> Matching(filter)(name)
  {
    matched := MatchesFilter(name, filter);
  }

  /** The name that a filter sees. */
  function FullName(testCaseName: string, testName: string): string { testCaseName + "." + testName }

  method FilterMatchesTest(filter: string, testCaseName: string, testName: string) returns (matched: bool)
    ensures matched <==> Passes(filter, FullName(testCaseName, testName))
  {
    var fullName := testCaseName + "." + testName;
    var dash := Find(filter, '-');
    var positive, negative;
    if dash == |filter| {
      positive := filter;
      negative := "";
    } else {
      positive := filter[..dash];
      negative := filter[dash + 1..];
      if positive == "" {
        positive := "*";
      }
    }
    var wanted := MatchesFilter(fullName, positive);
    var unwanted := MatchesFilter(fullName, negative);
    StarAndEmpty(fullName);
    assert |fullName| > 0;
    matched := wanted && !unwanted;
  }

  lemma StarAndEmpty(name: string)
    ensures MatchesSome(Split("*", ':'), name)
    ensures MatchesSome(Split("", ':'), name) <==> name == ""
  {
    assert Concat([name]) == name + Concat([]);
    assert SplitsInto("*", name, [name]);
    assert Find("*", ':') == 1 + Find("", ':') == 1;
    assert UpTo("*", ':') == "*" && UpTo("", ':') == "";
    SplitHead("*", name);
    SplitHead("", name);
    assert SplitsInto("", "", []);
  }

  // ---------- What a filter is made of ----------

  function Joined(parts: seq<string>, c: char): string
    requires parts != []
  {
    if |parts| == 1 then parts[0] else parts[0] + ([c] + Joined(parts[1..], c))
  }

  /** The parts of a text are free of the separator and make up the text again. */
  lemma {:induction false} SplitExactly(s: string, c: char)
    ensures var parts := Split(s, c);
            parts != [] && Joined(parts, c) == s && forall i :: 0 <= i < |parts| ==> c !in parts[i]
    decreases |s|
  {
    FindFirst(s, c);
    var k := Find(s, c);
    if k == |s| {
      assert s[..|s|] == s;
    } else {
      SplitExactly(s[k + 1..], c);
      var parts := Split(s, c);
      assert parts[1..] == Split(s[k + 1..], c);
      assert s == s[..k] + ([c] + s[k + 1..]);
    }
  }

  /** The first dash parts the patterns of the names to run, all names if there are none, from those
      of the names to leave out. */
  lemma PassesExactly(positive: string, negative: string, name: string)
    requires '-' !in positive
    ensures Passes(positive, name) <==> Matching(positive)(name)
    ensures Passes(positive + ("-" + negative), name) <==>
            (positive == "" || Matching(positive)(name)) && !Matching(negative)(name)
  {
    var filter := positive + ("-" + negative);
    FindFirst(positive, '-');
    FindAfter(positive, "-" + negative, '-');
    assert filter[..|positive|] == positive && filter[|positive| + 1..] == negative;
  }

  /** A list of patterns matches a name if its first pattern does or the others do. */
  lemma MatchingExactly(pattern: string, others: string, name: string)
    requires ':' !in pattern
    ensures Matching(pattern)(name) <==> InLanguage(pattern, name)
    ensures Matching(pattern + (":" + others))(name) <==> InLanguage(pattern, name) || Matching(others)(name)
  {
    hide InLanguage;
    var all := pattern + (":" + others);
    FindFirst(pattern, ':');
    FindAfter(pattern, ":" + others, ':');
    assert all[..|pattern|] == pattern && all[|pattern| + 1..] == others;
    var parts, rest := Split(all, ':'), Split(others, ':');
    assert parts[0] == pattern && parts[1..] == rest;
    assert forall i :: 0 <= i < |rest| ==> parts[i + 1] == rest[i];
    assert Split(pattern, ':')[0] == pattern;
  }
}
