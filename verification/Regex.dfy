/** The simple regular expressions of Google Test: validation, backtracking search, and the
    RE class.  A C string is its characters before the terminating NUL. */
module Regex {
  import opened Text

  // ---------- Characters ----------

  /** The character at a position of a C string, NUL at its end. */
  function At(s: string, i: nat): char {
    if i < |s| then s[i] else '\0'
  }

  ghost predicate CString(s: string) { '\0' !in s }

  predicate IsAsciiDigit(ch: char) { '0' <= ch <= '9' }

  predicate IsAsciiPunct(ch: char) {
    ch in {'^', '-', '!', '"', '#', '$', '%', '&', '\'', '(', ')', '*', '+', ',', '.', '/',
           ':', ';', '<', '=', '>', '?', '@', '[', '\\', ']', '_', '`', '{', '|', '}', '~'}
  }

  predicate IsRepeat(ch: char) { ch in {'?', '*', '+'} }

  predicate IsAsciiWhiteSpace(ch: char) { ch in {' ', '\U{000C}', '\n', '\r', '\t', '\U{000B}'} }

  predicate IsAsciiWordChar(ch: char) {
    'a' <= ch <= 'z' || 'A' <= ch <= 'Z' || '0' <= ch <= '9' || ch == '_'
  }

  /** Brackets and alternation, which simple expressions do not have. */
  predicate IsUnsupported(ch: char) { ch in {'(', ')', '[', ']', '{', '}', '|'} }

  predicate IsAnchorOrRepeat(ch: char) { ch in {'^', '$', '?', '*', '+'} }

  predicate IsValidEscape(c: char) { IsAsciiPunct(c) || c in {'d', 'D', 'f', 'n', 'r', 's', 'S', 't', 'v', 'w', 'W'} }

  predicate AtomMatchesChar(escaped: bool, patternChar: char, ch: char) {
    if escaped then
      match patternChar
      case 'd' => IsAsciiDigit(ch)
      case 'D' => !IsAsciiDigit(ch)
      case 'f' => ch == '\U{000C}'
      case 'n' => ch == '\n'
      case 'r' => ch == '\r'
      case 's' => IsAsciiWhiteSpace(ch)
      case 'S' => !IsAsciiWhiteSpace(ch)
      case 't' => ch == '\t'
      case 'v' => ch == '\U{000B}'
      case 'w' => IsAsciiWordChar(ch)
      case 'W' => !IsAsciiWordChar(ch)
      case _ => IsAsciiPunct(patternChar) && patternChar == ch
    else
      (patternChar == '.' && ch != '\n') || patternChar == ch
  }

  /** The classes by ASCII codes, and their complements. */
  lemma ClassesExactly(ch: char)
    ensures var n := ch as int;
            && (AtomMatchesChar(true, 'd', ch) <==> 48 <= n <= 57)
            && (AtomMatchesChar(true, 's', ch) <==> n == 32 || 9 <= n <= 13)
            && (AtomMatchesChar(true, 'w', ch) <==> 97 <= n <= 122 || 65 <= n <= 90 || 48 <= n <= 57 || n == 95)
    ensures AtomMatchesChar(true, 'D', ch) == !AtomMatchesChar(true, 'd', ch)
    ensures AtomMatchesChar(true, 'S', ch) == !AtomMatchesChar(true, 's', ch)
    ensures AtomMatchesChar(true, 'W', ch) == !AtomMatchesChar(true, 'w', ch)
  {}

  /** The single characters. */
  lemma SinglesExactly(escaped: bool, c: char, ch: char)
    requires escaped ==> IsValidEscape(c) && c !in "dDsSwW"
    ensures AtomMatchesChar(escaped, c, ch) <==>
            if escaped && c in "fnrtv"
            then ch == (if c == 'f' then '\U{000C}' else if c == 'n' then '\U{000A}' else if c == 'r' then '\U{000D}'
                        else if c == 't' then '\U{0009}' else '\U{000B}')
            else ch == c || (!escaped && c == '.' && ch != '\U{000A}')
  {}

  /** Which characters can be escaped, and which stand for themselves without. */
  lemma ItemsExactly(c: char, repeat: Repeat)
    ensures Item(true, c, repeat).WellFormed() <==>
            c in "dDfnrsStvwW" || ('\U{0021}' <= c <= '\U{007E}' && (c == '_' || !AtomMatchesChar(true, 'w', c)))
    ensures Item(false, c, repeat).WellFormed() <==> c !in "\0\\^$?*+()[]{}|"
  {}

  // ---------- Patterns and their language ----------

  datatype Repeat = One | Optional | Star | Plus

  datatype Item = Item(escaped: bool, c: char, repeat: Repeat) {
    ghost predicate WellFormed() {
      if escaped then IsValidEscape(c) else c != '\0' && c != '\\' && !IsAnchorOrRepeat(c) && !IsUnsupported(c)
    }

    predicate Allows(n: nat) {
      match repeat
      case One => n == 1
      case Optional => n <= 1
      case Star => true
      case Plus => n >= 1
    }

    ghost predicate Matches(w: string) {
      Allows(|w|) && forall i :: 0 <= i < |w| ==> AtomMatchesChar(escaped, c, w[i])
    }

    function Print(): string {
      (if escaped then ['\\', c] else [c]) +
      match repeat case One => "" case Optional => "?" case Star => "*" case Plus => "+"
    }
  }

  /** A pattern without its leading `^`. */
  datatype Body = Body(items: seq<Item>, atEnd: bool) {
    ghost predicate WellFormed() { forall i :: 0 <= i < |items| ==> items[i].WellFormed() }

    function Print(): string
      decreases |items|
    {
      if items == [] then if atEnd then "$" else ""
      else items[0].Print() + Body(items[1..], atEnd).Print()
    }
  }

  datatype Pattern = Pattern(atStart: bool, body: Body) {
    ghost predicate WellFormed() { body.WellFormed() }

    function Print(): string { (if atStart then "^" else "") + body.Print() }
  }

  /** w is a concatenation of words of the items. */
  ghost predicate InLanguage(items: seq<Item>, w: string)
    decreases |items|
  {
    if items == [] then w == ""
    else exists k :: 0 <= k <= |w| && items[0].Matches(w[..k]) && InLanguage(items[1..], w[k..])
  }

  /** A prefix of s, all of s if the body ends in `$`, is in the language. */
  ghost predicate MatchesHead(body: Body, s: string) {
    exists k :: 0 <= k <= |s| && InLanguage(body.items, s[..k]) && (body.atEnd ==> k == |s|)
  }

  /** Some substring that respects the anchors is in the language. */
  ghost predicate MatchesSubstring(p: Pattern, s: string) {
    exists i, j :: 0 <= i <= j <= |s| && InLanguage(p.body.items, s[i..j]) &&
                   (p.atStart ==> i == 0) && (p.body.atEnd ==> j == |s|)
  }

  /** `?` is nothing or the atom, `+` the atom and then any number of it, `*` nothing or that. */
  lemma RepeatsExactly(escaped: bool, c: char, w: string)
    ensures var once, optional := Item(escaped, c, One), Item(escaped, c, Optional);
            var star, plus := Item(escaped, c, Star), Item(escaped, c, Plus);
            && (once.Matches(w) <==> |w| == 1 && AtomMatchesChar(escaped, c, w[0]))
            && (optional.Matches(w) <==> w == "" || once.Matches(w))
            && (plus.Matches(w) <==> w != "" && once.Matches(w[..1]) && star.Matches(w[1..]))
            && (star.Matches(w) <==> w == "" || plus.Matches(w))
            && optional.Print() == once.Print() + "?" && star.Print() == once.Print() + "*"
            && plus.Print() == once.Print() + "+"
  {
    hide AtomMatchesChar;
    if w != "" {
      assert w == w[..1] + w[1..];
    }
  }

  // ---------- Parsing ----------

  function RepeatOf(ch: char): Repeat {
    if ch == '?' then Optional else if ch == '*' then Star else if ch == '+' then Plus else One
  }

  /** The first item of a body and its length, if there is one. */
  function ParseItem(r: string): (o: Option<(Item, nat)>)
    ensures o.Some? ==> 0 < o.value.1 <= |r|
  {
    var escaped := At(r, 0) == '\\';
    var n := if escaped then 1 else 0;
    if At(r, n) == '\0' then None
    else if (if escaped then IsValidEscape(r[n]) else !IsAnchorOrRepeat(r[n]) && !IsUnsupported(r[n])) then
      var repeat := RepeatOf(At(r, n + 1));
      Some((Item(escaped, r[n], repeat), if repeat == One then n + 1 else n + 2))
    else None
  }

  function ParseBody(r: string): Option<Body>
    decreases |r|
  {
    if r == "" then Some(Body([], false))
    else if r == "$" then Some(Body([], true))
    else
      match ParseItem(r)
      case None => None
      case Some((item, n)) =>
        match ParseBody(r[n..])
        case None => None
        case Some(body) => Some(Body([item] + body.items, body.atEnd))
  }

  function Parse(regex: string): Option<Pattern> {
    var atStart := At(regex, 0) == '^';
    match ParseBody(if atStart then regex[1..] else regex)
    case None => None
    case Some(body) => Some(Pattern(atStart, body))
  }

  lemma ParseItemSound(r: string)
    requires ParseItem(r).Some?
    ensures var (item, n) := ParseItem(r).value;
            item.WellFormed() && r == item.Print() + r[n..] && (item.repeat == One ==> !IsRepeat(At(r, n)))
  {}

  lemma {:induction false} ParseBodySound(r: string)
    requires ParseBody(r).Some?
    ensures ParseBody(r).value.WellFormed() && ParseBody(r).value.Print() == r
    decreases |r|
  {
    if r != "" && r != "$" {
      ParseItemSound(r);
      var n := ParseItem(r).value.1;
      ParseBodySound(r[n..]);
      assert ParseBody(r).value.items[1..] == ParseBody(r[n..]).value.items;
    }
  }

  lemma ParseItemComplete(item: Item, rest: string)
    requires item.WellFormed() && !IsRepeat(At(rest, 0))
    ensures ParseItem(item.Print() + rest) == Some((item, |item.Print()|))
  {}

  lemma {:induction false} ParseBodyComplete(body: Body)
    requires body.WellFormed()
    ensures ParseBody(body.Print()) == Some(body)
    ensures !IsRepeat(At(body.Print(), 0)) && At(body.Print(), 0) != '^'
    decreases |body.items|
  {
    if body.items != [] {
      var item, rest := body.items[0], Body(body.items[1..], body.atEnd);
      ParseBodyComplete(rest);
      ParseItemComplete(item, rest.Print());
      var r := body.Print();
      assert r[|item.Print()|..] == rest.Print();
      assert body.items == [item] + rest.items;
    }
  }

  lemma ParseIsInverse(regex: string)
    ensures Parse(regex).Some? ==> Parse(regex).value.WellFormed() && Parse(regex).value.Print() == regex
    ensures forall p: Pattern :: p.WellFormed() && p.Print() == regex ==> Parse(regex) == Some(p)
  {
    if Parse(regex).Some? {
      ParseBodySound(if At(regex, 0) == '^' then regex[1..] else regex);
    }
    forall p: Pattern | p.WellFormed() && p.Print() == regex
      ensures Parse(regex) == Some(p)
    {
      ParseBodyComplete(p.body);
      assert p.atStart ==> regex[1..] == p.body.Print();
      assert !p.atStart ==> regex == p.body.Print();
    }
  }

  // ---------- Validation ----------

  /** What the validation loop accepts from position i on. */
  predicate Scan(regex: string, i: nat, prevRepeatable: bool)
    requires i <= |regex|
    decreases |regex| - i
  {
    if i == |regex| then true
    else if regex[i] == '\\' then
      i + 1 < |regex| && IsValidEscape(regex[i + 1]) && Scan(regex, i + 2, true)
    else
      var ch := regex[i];
      && !(ch == '^' && i > 0)
      && !(ch == '$' && i + 1 < |regex|)
      && !IsUnsupported(ch)
      && !(IsRepeat(ch) && !prevRepeatable)
      && Scan(regex, i + 1, !IsAnchorOrRepeat(ch))
  }

  ghost predicate BodyFrom(regex: string, i: nat) {
    i <= |regex| && ParseBody(regex[i..]).Some?
  }

  /** A body from i on, after an optional repetition character. */
  ghost predicate AfterAtom(regex: string, i: nat) {
    BodyFrom(regex, if IsRepeat(At(regex, i)) then i + 1 else i)
  }

  lemma ParseStep(regex: string, i: nat)
    requires CString(regex) && i < |regex|
    ensures var ch := regex[i];
            BodyFrom(regex, i) <==>
            if ch == '\\' then i + 1 < |regex| && IsValidEscape(regex[i + 1]) && AfterAtom(regex, i + 2)
            else if ch == '$' then i + 1 == |regex|
            else !IsAnchorOrRepeat(ch) && !IsUnsupported(ch) && AfterAtom(regex, i + 1)
  {
    var r := regex[i..];
    assert forall k :: 0 <= k <= |r| ==> r[k..] == regex[i + k..];
    assert forall k: nat :: At(r, k) == At(regex, i + k);
  }

  lemma {:induction false} ScanIsParse(regex: string, i: nat, prevRepeatable: bool)
    requires CString(regex) && i <= |regex| && (i == 0 ==> !prevRepeatable && At(regex, 0) != '^')
    ensures Scan(regex, i, prevRepeatable) <==>
            if prevRepeatable then AfterAtom(regex, i) else BodyFrom(regex, i)
    decreases |regex| - i
  {
    if i == |regex| {
      assert regex[i..] == "";
    } else {
      ParseStep(regex, i);
      if regex[i] != '\\' {
        ScanIsParse(regex, i + 1, !IsAnchorOrRepeat(regex[i]));
      } else if i + 1 < |regex| {
        ScanIsParse(regex, i + 2, true);
      }
      assert i + 1 == |regex| ==> regex[i + 1..] == "";
    }
  }

  /** A regular expression is valid when some well-formed pattern prints as it. */
  ghost predicate IsPattern(regex: string) {
    exists p: Pattern :: p.WellFormed() && p.Print() == regex
  }

  lemma ScanDecides(regex: string)
    requires CString(regex)
    ensures Scan(regex, 0, false) <==> Parse(regex).Some?
    ensures Parse(regex).Some? <==> IsPattern(regex)
  {
    if At(regex, 0) == '^' {
      ScanIsParse(regex, 1, false);
    } else {
      ScanIsParse(regex, 0, false);
      assert regex[0..] == regex;
    }
    ParseIsInverse(regex);
  }

  /** Accepts exactly the printed forms of well-formed patterns. */
  method ValidateRegex(regex: string) returns (isValid: bool)
    requires CString(regex)
    ensures isValid <==> IsPattern(regex)
    ensures isValid <==> Parse(regex).Some?
  {
    ghost var expected := Scan(regex, 0, false);
    ScanDecides(regex);
    isValid := true;
    var prevRepeatable := false;
    var i := 0;
    while i < |regex|
      invariant 0 <= i <= |regex|
      invariant expected <==> isValid && Scan(regex, i, prevRepeatable)
    {
      if regex[i] == '\\' {
        i := i + 1;
        if i == |regex| {
          return false;
        }
        if !IsValidEscape(regex[i]) {
          isValid := false;
        }
        prevRepeatable := true;
      } else {
        var ch := regex[i];
        if ch == '^' && i > 0 {
          isValid := false;
        } else if ch == '$' && i + 1 != |regex| {
          isValid := false;
        } else if IsUnsupported(ch) {
          isValid := false;
        } else if IsRepeat(ch) && !prevRepeatable {
          isValid := false;
        }
        prevRepeatable := !IsAnchorOrRepeat(ch);
      }
      i := i + 1;
    }
  }

  // ---------- Matching ----------

  /** `static_cast<size_t>(-1) - 1`, the length of the longest C string. */
  const MAX_LENGTH: nat := 0xFFFF_FFFF_FFFF_FFFE

  /** The first n characters match the atom, n is allowed, and the rest matches the tail. */
  ghost predicate SplitsAt(item: Item, tail: Body, s: string, n: nat) {
    n <= |s| && item.Matches(s[..n]) && MatchesHead(tail, s[n..])
  }

  ghost predicate SplitsSomewhere(item: Item, tail: Body, s: string) {
    exists n :: SplitsAt(item, tail, s, n)
  }

  lemma MatchesHeadSplit(item: Item, tail: Body, s: string)
    ensures MatchesHead(Body([item] + tail.items, tail.atEnd), s) <==> SplitsSomewhere(item, tail, s)
  {
    var body := Body([item] + tail.items, tail.atEnd);
    assert body.items[1..] == tail.items;
    if MatchesHead(body, s) {
      var k :| 0 <= k <= |s| && InLanguage(body.items, s[..k]) && (body.atEnd ==> k == |s|);
      var n :| 0 <= n <= k && item.Matches(s[..k][..n]) && InLanguage(tail.items, s[..k][n..]);
      assert s[..k][..n] == s[..n] && s[..k][n..] == s[n..][..k - n];
      assert SplitsAt(item, tail, s, n);
    }
    if n: nat :| SplitsAt(item, tail, s, n) {
      var m :| 0 <= m <= |s[n..]| && InLanguage(tail.items, s[n..][..m]) && (tail.atEnd ==> m == |s[n..]|);
      var w := s[..n + m];
      assert w[..n] == s[..n] && w[n..] == s[n..][..m];
      assert InLanguage(body.items, w);
    }
  }

  method MatchRepetitionAndRegexAtHead(escaped: bool, c: char, repeat: char, regex: string, str: string)
    returns (matched: bool)
    requires CString(str) && |str| <= MAX_LENGTH && CString(regex)
    requires IsRepeat(repeat) && ParseBody(regex).Some?
    ensures matched <==> SplitsSomewhere(Item(escaped, c, RepeatOf(repeat)), ParseBody(regex).value, str)
    decreases |regex|, 1
  {
    ghost var item, tail := Item(escaped, c, RepeatOf(repeat)), ParseBody(regex).value;
    var minCount := if repeat == '+' then 1 else 0;
    var maxCount := if repeat == '?' then 1 else MAX_LENGTH;
    var i := 0;
    while i <= maxCount
      invariant 0 <= i <= |str|
      invariant forall j :: 0 <= j < i ==> AtomMatchesChar(escaped, c, str[j])
      invariant forall n :: 0 <= n < i ==> !SplitsAt(item, tail, str, n)
      decreases |str| - i
    {
      if i >= minCount {
        var tailMatched := MatchRegexAtHead(regex, str[i..]);
        if tailMatched {
          assert SplitsAt(item, tail, str, i);
          return true;
        }
      }
      assert !SplitsAt(item, tail, str, i);
      if i == |str| || !AtomMatchesChar(escaped, c, str[i]) {
        forall n | n > i
          ensures !SplitsAt(item, tail, str, n)
        {
          assert n <= |str| ==> str[..n][i] == str[i];
        }
        return false;
      }
      i := i + 1;
    }
    return false;
  }

  method MatchRegexAtHead(regex: string, str: string) returns (matched: bool)
    requires CString(str) && |str| <= MAX_LENGTH && CString(regex)
    requires ParseBody(regex).Some?
    ensures matched <==> MatchesHead(ParseBody(regex).value, str)
    decreases |regex|, 0
  {
    if |regex| == 0 {
      assert InLanguage([], str[..0]);
      return true;
    }
    if regex[0] == '$' {
      assert regex == "$";
      assert str == "" ==> InLanguage([], str[..0]);
      return str == "";
    }
    var escaped := regex[0] == '\\';
    var rest := if escaped then regex[1..] else regex;
    ghost var item, n := ParseItem(regex).value.0, ParseItem(regex).value.1;
    ghost var tail := ParseBody(regex[n..]).value;
    MatchesHeadSplit(item, tail, str);
    if IsRepeat(At(rest, 1)) {
      assert rest[2..] == regex[n..];
      matched := MatchRepetitionAndRegexAtHead(escaped, rest[0], rest[1], rest[2..], str);
    } else {
      assert rest[1..] == regex[n..];
      assert item.repeat == One;
      assert forall k :: SplitsAt(item, tail, str, k) ==> k == 1;
      if |str| != 0 && AtomMatchesChar(escaped, rest[0], str[0]) {
        matched := MatchRegexAtHead(rest[1..], str[1..]);
        assert matched ==> SplitsAt(item, tail, str, 1);
      } else {
        assert |str| != 0 ==> str[..1][0] == str[0];
        matched := false;
      }
    }
  }

  method MatchRegexAnywhere(regex: string, str: string) returns (matched: bool)
    requires CString(str) && |str| <= MAX_LENGTH && CString(regex)
    requires Parse(regex).Some?
    ensures matched <==> MatchesSubstring(Parse(regex).value, str)
  {
    ghost var p := Parse(regex).value;
    if At(regex, 0) == '^' {
      matched := MatchRegexAtHead(regex[1..], str);
      HeadIsSubstring(p, str, 0);
      assert str[0..] == str;
      return;
    }
    var i := 0;
    while true
      invariant 0 <= i <= |str|
      invariant forall k :: 0 <= k < i ==> !MatchesHead(p.body, str[k..])
      decreases |str| - i
    {
      matched := MatchRegexAtHead(regex, str[i..]);
      if matched {
        HeadIsSubstring(p, str, i);
        return;
      }
      if i == |str| {
        forall k: nat | k <= |str| ensures !MatchesHead(p.body, str[k..]) {}
        HeadsAreSubstrings(p, str);
        return;
      }
      i := i + 1;
    }
  }

  lemma HeadIsSubstring(p: Pattern, s: string, i: nat)
    requires i <= |s| && (p.atStart ==> i == 0)
    ensures MatchesHead(p.body, s[i..]) ==> MatchesSubstring(p, s)
    ensures p.atStart && MatchesSubstring(p, s) ==> MatchesHead(p.body, s)
  {
    if MatchesHead(p.body, s[i..]) {
      var k :| 0 <= k <= |s[i..]| && InLanguage(p.body.items, s[i..][..k]) && (p.body.atEnd ==> k == |s[i..]|);
      assert s[i..][..k] == s[i..i + k];
    }
    if p.atStart && MatchesSubstring(p, s) {
      HeadsAreSubstrings(p, s);
      assert s[0..] == s;
    }
  }

  lemma HeadsAreSubstrings(p: Pattern, s: string)
    ensures MatchesSubstring(p, s) ==>
            exists i: nat :: i <= |s| && MatchesHead(p.body, s[i..]) && (p.atStart ==> i == 0)
  {
    if MatchesSubstring(p, s) {
      var i, j :| 0 <= i <= j <= |s| && InLanguage(p.body.items, s[i..j]) &&
                  (p.atStart ==> i == 0) && (p.body.atEnd ==> j == |s|);
      assert s[i..][..j - i] == s[i..j];
      assert MatchesHead(p.body, s[i..]);
    }
  }

  // ---------- The RE class ----------

  /** The pattern is not anchored at its end, and its last character is `$` all the same. */
  predicate EndsInEscapedDollar(p: Pattern) {
    var items := p.body.items;
    !p.body.atEnd && items != [] && items[|items| - 1] == Item(true, '$', One)
  }

  /** The pattern that a full match searches for. */
  function FullPattern(p: Pattern): Pattern {
    Pattern(true, Body(p.body.items, p.body.atEnd || !EndsInEscapedDollar(p)))
  }

  class RE {
    var pattern: string
    var fullPattern: string
    var isValid: bool

    ghost predicate Valid()
      reads this
    {
      && CString(pattern) && CString(fullPattern)
      && (isValid <==> Parse(pattern).Some?)
      && (isValid ==> Parse(fullPattern) == Some(FullPattern(Parse(pattern).value)))
    }

    constructor Init(regex: string)
      requires CString(regex)
      ensures Valid() && pattern == regex
    {
      pattern := regex;
      fullPattern := "";
      new;
      isValid := ValidateRegex(regex);
      if !isValid {
        return;
      }
      fullPattern := Anchored(regex);
      FullPatternText(regex);
    }

    /** The pattern with `^` and `$` at its ends, assembled in a buffer. */
    static method Anchored(regex: string) returns (full: string)
      ensures full == (if At(regex, 0) == '^' then "" else "^") + regex +
                      (if EndsInDollar(regex) then "" else "$")
    {
      var buffer := new char[|regex| + 3](i => '\0');
      var n := 0;
      if At(regex, 0) != '^' {
        buffer[n] := '^';
        n := n + 1;
      }
      ghost var head := buffer[..n];
      forall i | 0 <= i < |regex| {
        buffer[n + i] := regex[i];
      }
      n := n + |regex|;
      assert buffer[..n] == head + regex;
      if |regex| == 0 || regex[|regex| - 1] != '$' {
        buffer[n] := '$';
        n := n + 1;
      }
      buffer[n] := '\0';
      full := buffer[..n];
    }

    method FullMatch(str: string) returns (matched: bool)
      requires Valid() && CString(str) && |str| <= MAX_LENGTH
      ensures matched <==> isValid && MatchesSubstring(FullPattern(Parse(pattern).value), str)
    {
      if !isValid {
        return false;
      }
      matched := MatchRegexAnywhere(fullPattern, str);
    }

    method PartialMatch(str: string) returns (matched: bool)
      requires Valid() && CString(str) && |str| <= MAX_LENGTH
      ensures matched <==> isValid && MatchesSubstring(Parse(pattern).value, str)
    {
      if !isValid {
        return false;
      }
      matched := MatchRegexAnywhere(pattern, str);
    }
  }

  predicate EndsInDollar(r: string) { r != "" && r[|r| - 1] == '$' }

  lemma {:induction false} LastCharacter(body: Body)
    requires body.WellFormed()
    ensures EndsInDollar(body.Print()) <==> body.atEnd || EndsInEscapedDollar(Pattern(false, body))
    decreases |body.items|
  {
    if body.items != [] {
      var rest := Body(body.items[1..], body.atEnd);
      LastCharacter(rest);
      assert rest.Print() == "" <==> rest.items == [] && !body.atEnd;
    }
  }

  lemma {:induction false} PrintAtEnd(items: seq<Item>)
    ensures Body(items, true).Print() == Body(items, false).Print() + "$"
    decreases |items|
  {
    if items != [] {
      PrintAtEnd(items[1..]);
    }
  }

  lemma FullPatternPrint(p: Pattern)
    requires p.WellFormed()
    ensures FullPattern(p).Print() == "^" + p.body.Print() + (if EndsInDollar(p.body.Print()) then "" else "$")
  {
    LastCharacter(p.body);
    if EndsInDollar(p.body.Print()) {
      assert FullPattern(p).body == p.body;
    } else {
      PrintAtEnd(p.body.items);
      assert p.body == Body(p.body.items, false);
    }
  }

  lemma FullPatternText(regex: string)
    requires Parse(regex).Some?
    ensures Parse((if At(regex, 0) == '^' then "" else "^") + regex + (if EndsInDollar(regex) then "" else "$")) ==
            Some(FullPattern(Parse(regex).value))
  {
    var p := Parse(regex).value;
    var b := p.body.Print();
    ParseIsInverse(regex);
    FullPatternPrint(p);
    var text := (if At(regex, 0) == '^' then "" else "^") + regex + (if EndsInDollar(regex) then "" else "$");
    assert p.atStart <==> At(regex, 0) == '^';
    assert text == FullPattern(p).Print();
    ParseIsInverse(text);
  }

  // ---------- When a full match is a match of the whole string ----------

  lemma FullMatchIsWholeString(p: Pattern, s: string)
    ensures !EndsInEscapedDollar(p) ==> (MatchesSubstring(FullPattern(p), s) <==> InLanguage(p.body.items, s))
    ensures EndsInEscapedDollar(p) ==> (MatchesSubstring(FullPattern(p), s) <==> MatchesHead(p.body, s))
  {
    HeadIsSubstring(FullPattern(p), s, 0);
    assert s[0..] == s && s[..|s|] == s;
  }

  function AtomExample(item: Item): char {
    if !item.escaped then item.c
    else match item.c
      case 'd' => '0'
      case 'D' => 'a'
      case 'f' => '\U{000C}'
      case 'n' => '\n'
      case 'r' => '\r'
      case 's' => ' '
      case 'S' => 'a'
      case 't' => '\t'
      case 'v' => '\U{000B}'
      case 'w' => 'a'
      case 'W' => ' '
      case c => c
  }

  /** Every well-formed pattern has a word. */
  lemma {:induction false} LanguageNonempty(items: seq<Item>) returns (w: string)
    requires Body(items, false).WellFormed()
    ensures InLanguage(items, w) && CString(w)
    decreases |items|
  {
    if items == [] {
      w := "";
    } else {
      var rest := LanguageNonempty(items[1..]);
      w := [AtomExample(items[0])] + rest;
      assert w[..1] == [AtomExample(items[0])] && w[1..] == rest;
      assert items[0].Matches(w[..1]);
    }
  }

  lemma {:induction false} WordsEndInDollar(items: seq<Item>, w: string)
    requires items != [] && items[|items| - 1] == Item(true, '$', One)
    requires InLanguage(items, w)
    ensures w != "" && w[|w| - 1] == '$'
    decreases |items|
  {
    var k :| 0 <= k <= |w| && items[0].Matches(w[..k]) && InLanguage(items[1..], w[k..]);
    if |items| == 1 {
      assert w[..k][0] == w[0];
    } else {
      WordsEndInDollar(items[1..], w[k..]);
    }
  }

  /** FullMatch decides membership of the whole string exactly for the patterns that do not
      end in an escaped dollar sign. */
  lemma FullMatchExact(p: Pattern)
    requires p.WellFormed()
    ensures (forall s :: CString(s) ==> (MatchesSubstring(FullPattern(p), s) <==> InLanguage(p.body.items, s)))
            <==> !EndsInEscapedDollar(p)
  {
    forall s { FullMatchIsWholeString(p, s); }
    if EndsInEscapedDollar(p) {
      var w := LanguageNonempty(p.body.items);
      var s := w + "x";
      assert s[..|w|] == w;
      assert MatchesHead(p.body, s);
      if InLanguage(p.body.items, s) {
        WordsEndInDollar(p.body.items, s);
      }
      FullMatchIsWholeString(p, s);
    }
  }
}
