/** The command parser, which cuts one buffer into four strings in place. */
module Command {
  import opened Text

  const NUL := '\0'

  // ---------- Strings in a buffer ----------

  /** The string that starts at i. */
  function CString(buffer: seq<char>, i: nat): string
    decreases |buffer| - i
  {
    if i >= |buffer| || buffer[i] == NUL then "" else [buffer[i]] + CString(buffer, i + 1)
  }

  lemma {:induction false} CStringIs(buffer: seq<char>, i: nat, j: nat)
    requires i <= j < |buffer| && buffer[j] == NUL
    requires forall k :: i <= k < j ==> buffer[k] != NUL
    ensures CString(buffer, i) == buffer[i..j]
    decreases j - i
  {
    if i < j {
      CStringIs(buffer, i + 1, j);
    }
  }

  lemma {:induction false} CStringEnds(buffer: seq<char>, i: nat)
    requires i <= |buffer|
    ensures var end := i + |CString(buffer, i)|;
            && end <= |buffer| && (end < |buffer| ==> buffer[end] == NUL)
            && forall k :: i <= k < end ==> buffer[k] != NUL
    decreases |buffer| - i
  {
    if i < |buffer| && buffer[i] != NUL {
      CStringEnds(buffer, i + 1);
    }
  }

  // ---------- Separators ----------

  predicate PairAt(s: string, i: nat) { i + 1 < |s| && s[i] == '=' && s[i + 1] == '(' }

  predicate HasPair(s: string) { exists i :: 0 <= i < |s| && PairAt(s, i) }

  /** The position of the first `=(`, the length of s if there is none. */
  function FindPair(s: string): (k: nat)
    ensures k <= |s| && (k < |s| ==> PairAt(s, k))
  {
    if s == "" || PairAt(s, 0) then 0 else 1 + FindPair(s[1..])
  }

  lemma {:induction false} FindPairFirst(s: string)
    ensures forall i :: 0 <= i < FindPair(s) ==> !PairAt(s, i)
  {
    if s != "" && !PairAt(s, 0) {
      FindPairFirst(s[1..]);
      forall i | 0 <= i < FindPair(s) ensures !PairAt(s, i) {
        assert i > 0 ==> PairAt(s[1..], i - 1) == PairAt(s, i);
      }
    }
  }

  lemma {:induction false} FindPairAtMost(s: string, k: nat)
    requires PairAt(s, k)
    ensures FindPair(s) <= k
  {
    if k > 0 && !PairAt(s, 0) {
      FindPairAtMost(s[1..], k - 1);
    }
  }

  lemma {:induction false} FindAtMost(s: string, c: char, k: nat)
    requires k < |s| && s[k] == c
    ensures Find(s, c) <= k
  {
    if k > 0 && s[0] != c {
      FindAtMost(s[1..], c, k - 1);
    }
  }

  datatype Cuts = Cuts(colon: nat, dot: nat, pair: nat, bracket: nat) {
    predicate At(i: int) { i == colon || i == dot || i == pair || i == pair + 1 || i == bracket }
  }

  function CutsOf(s: string): Cuts {
    Cuts(Find(s, ':'), Find(s, '.'), FindPair(s), Find(s, ')'))
  }

  predicate IsCommand(s: string) {
    var c := CutsOf(s);
    c.colon < |s| && c.dot < |s| && c.pair < |s| && c.bracket < |s|
  }

  /** The buffer after the separators have been overwritten, with the end of the string. */
  function CutText(s: string): seq<char> {
    seq(|s|, i requires 0 <= i < |s| => if CutsOf(s).At(i) then NUL else s[i]) + [NUL]
  }

  datatype Fields = Fields(mod: string, component: string, property: string, value: string)

  function ParsedFields(s: string): Fields {
    var buffer, c := CutText(s), CutsOf(s);
    Fields(CString(buffer, 0), CString(buffer, c.colon + 1), CString(buffer, c.dot + 1), CString(buffer, c.pair + 2))
  }

  lemma {:induction false} CStringPrefix(a: seq<char>, b: seq<char>, i: nat)
    requires |a| <= |b| && a == b[..|a|] && a != [] && a[|a| - 1] == NUL && i < |a|
    ensures CString(b, i) == CString(a, i)
    decreases |a| - i
  {
    if a[i] != NUL {
      CStringPrefix(a, b, i + 1);
    }
  }

  lemma IsCut(s: string, buffer: seq<char>, c: Cuts)
    requires IsCommand(s) && c == CutsOf(s) && |s| < |buffer| && buffer[|s|] == NUL
    requires forall i :: 0 <= i < |s| ==> buffer[i] == if c.At(i) then NUL else s[i]
    ensures buffer[..|s| + 1] == CutText(s)
  {
    hide Find, FindPair;
  }

  /** The strings do not depend on what an earlier command has left in the buffer. */
  lemma ReadsCut(s: string, buffer: seq<char>)
    requires IsCommand(s) && |s| < |buffer| && buffer[..|s| + 1] == CutText(s)
    ensures var f, c := ParsedFields(s), CutsOf(s);
            && CString(buffer, 0) == f.mod && CString(buffer, c.colon + 1) == f.component
            && CString(buffer, c.dot + 1) == f.property && CString(buffer, c.pair + 2) == f.value
  {
    hide CString, Find;
    var cut, c := CutText(s), CutsOf(s);
    CStringPrefix(cut, buffer, 0);
    CStringPrefix(cut, buffer, c.colon + 1);
    CStringPrefix(cut, buffer, c.dot + 1);
    CStringPrefix(cut, buffer, c.pair + 2);
  }

  lemma FindsExactly(s: string, c: char)
    ensures Find(s, c) < |s| <==> c in s
  {
    FindFirst(s, c);
    if c in s {
      var k :| 0 <= k < |s| && s[k] == c;
      FindAtMost(s, c, k);
    } else {
      assert s[..|s|] == s;
    }
  }

  /** A text is accepted if and only if it has a colon, a dot, a closing bracket, and a `=(`. */
  lemma IsCommandExactly(s: string)
    ensures IsCommand(s) <==> ':' in s && '.' in s && ')' in s && HasPair(s)
  {
    hide Find, FindPair;
    FindsExactly(s, ':');
    FindsExactly(s, '.');
    FindsExactly(s, ')');
    if i :| 0 <= i < |s| && PairAt(s, i) {
      FindPairAtMost(s, i);
    }
  }

  /** The first colon, dot and closing bracket, and both characters of the first `=(`. */
  predicate IsSeparator(s: string, k: nat) {
    || k == Find(s, ':') || k == Find(s, '.') || k == Find(s, ')')
    || k == FindPair(s) || (k > 0 && k - 1 == FindPair(s))
  }

  /** A field starts at `from` and ends before the next separator, at the end of the text, or at a
      NUL in it. */
  lemma FieldIs(s: string, from: nat)
    requires IsCommand(s) && from <= |s|
    ensures var field := CString(CutText(s), from);
            var end := from + |field|;
            && end <= |s| && field == s[from..end]
            && (forall k :: from <= k < end ==> !IsSeparator(s, k) && s[k] != NUL)
            && (end == |s| || IsSeparator(s, end) || s[end] == NUL)
  {
    hide CString, Find, FindPair;
    var buffer := CutText(s);
    CStringEnds(buffer, from);
    CStringText(buffer, from);
    var end := from + |CString(buffer, from)|;
    assert buffer[|s|] == NUL;
    assert end < |buffer|;
    forall k | from <= k < end ensures !IsSeparator(s, k) && s[k] != NUL {
      assert buffer[k] == if CutsOf(s).At(k) then NUL else s[k];
    }
    assert forall k :: from <= k < end ==> buffer[k] == s[k];
  }

  lemma {:induction false} CStringText(buffer: seq<char>, i: nat)
    requires i <= |buffer|
    ensures var end := i + |CString(buffer, i)|; end <= |buffer| && CString(buffer, i) == buffer[i..end]
    decreases |buffer| - i
  {
    if i < |buffer| && buffer[i] != NUL {
      CStringText(buffer, i + 1);
    }
  }

  // ---------- The parser ----------

  class Command {
    const workBuf: array<char>
    var Module: Option<nat>
    var Component: Option<nat>
    var Property: Option<nat>
    var Value: Option<nat>

    /** The four pointers, as positions in the buffer. */
    ghost predicate Valid()
      reads this
    {
      workBuf.Length == 256
    }

    constructor ()
      ensures Valid() && fresh(workBuf)
      ensures Module == Component == Property == Value == None
      ensures forall i :: 0 <= i < 256 ==> workBuf[i] == NUL
    {
      workBuf := new char[256];
      Module, Component, Property, Value := None, None, None, None;
      new;
      for i := 0 to 256
        modifies workBuf
        invariant forall k :: 0 <= k < i ==> workBuf[k] == NUL
      {
        workBuf[i] := NUL;
      }
    }

    function Field(pointer: Option<nat>): Option<string>
      reads workBuf
    {
      match pointer case None => None case Some(i) => Some(CString(workBuf[..], i))
    }

    /** The four strings can be read if the text has all separators. */
    method Parse(str: string) returns (parsed: bool)
      requires Valid() && |str| < 256 && NUL !in str
      modifies this, workBuf
      ensures Valid()
      ensures parsed == IsCommand(str)
      ensures if parsed then
                var f := ParsedFields(str);
                && Field(Module) == Some(f.mod) && Field(Component) == Some(f.component)
                && Field(Property) == Some(f.property) && Field(Value) == Some(f.value)
              else Module == Component == Property == Value == None
    {
      hide CString, Find, FindPair, CutText;
      Module, Component, Property, Value := None, None, None, None;
      Copy(str);
      var moduleSeparator := Find(str, ':');
      var componentSeparator := Find(str, '.');
      var commandSeparator := FindPair(str);
      var finalBracket := Find(str, ')');
      if moduleSeparator == |str| || componentSeparator == |str| || commandSeparator == |str| || finalBracket == |str| {
        return false;
      }
      Separate(str, moduleSeparator, componentSeparator, commandSeparator, finalBracket);
      ReadsCut(str, workBuf[..]);
      Module, Component := Some(0), Some(moduleSeparator + 1);
      Property, Value := Some(componentSeparator + 1), Some(commandSeparator + 2);
      parsed := true;
    }

    /** Overwrites the separators. */
    method Separate(str: string, colon: nat, dot: nat, pair: nat, bracket: nat)
      requires Valid() && |str| < 256 && IsCommand(str) && CutsOf(str) == Cuts(colon, dot, pair, bracket)
      requires workBuf[|str|] == NUL && forall i :: 0 <= i < |str| ==> workBuf[i] == str[i]
      modifies workBuf
      ensures workBuf[..|str| + 1] == CutText(str)
    {
      hide Find, CutText;
      ghost var c := CutsOf(str);
      workBuf[colon] := NUL;
      workBuf[dot] := NUL;
      workBuf[pair] := NUL;
      workBuf[pair + 1] := NUL;
      workBuf[bracket] := NUL;
      IsCut(str, workBuf[..], c);
      assert workBuf[..][..|str| + 1] == workBuf[..|str| + 1];
    }

    /** `strcpy` into the buffer. */
    method Copy(str: string)
      requires Valid() && |str| < 256
      modifies workBuf
      ensures workBuf[|str|] == NUL && forall i :: 0 <= i < |str| ==> workBuf[i] == str[i]
    {
      for i := 0 to |str|
        invariant forall k :: 0 <= k < i ==> workBuf[k] == str[k]
      {
        workBuf[i] := str[i];
      }
      workBuf[|str|] := NUL;
    }
  }

  // ---------- Printing and parsing ----------

  function Printed(f: Fields): string {
    f.mod + (":" + (f.component + ("." + (f.property + ("=(" + (f.value + ")\n"))))))
  }

  /** What the fields must not contain. */
  predicate Separable(f: Fields) {
    && ':' !in f.mod
    && '.' !in f.mod && '.' !in f.component
    && !HasPair(f.mod) && !HasPair(f.component) && !HasPair(f.property)
    && ')' !in f.mod && ')' !in f.component && ')' !in f.property && ')' !in f.value
  }

  function PrintedCuts(f: Fields): Cuts {
    var dot := |f.mod| + 1 + |f.component|;
    var pair := dot + 1 + |f.property|;
    Cuts(|f.mod|, dot, pair, pair + 2 + |f.value|)
  }

  lemma FindExactly(s: string, c: char, k: nat)
    requires k < |s| && s[k] == c
    ensures Find(s, c) == k <==> c !in s[..k]
  {
    FindFirst(s, c);
    FindAtMost(s, c, k);
    var j := Find(s, c);
    assert j < k ==> s[..k][j] == c;
  }

  lemma FindPairExactly(s: string, k: nat)
    requires PairAt(s, k)
    ensures FindPair(s) == k <==> forall i :: 0 <= i < k ==> !PairAt(s, i)
  {
    FindPairFirst(s);
    FindPairAtMost(s, k);
  }

  lemma PrintedParts(f: Fields)
    ensures var s, p := Printed(f), PrintedCuts(f);
            && |s| == p.bracket + 2
            && s[..p.colon] == f.mod && s[p.colon] == ':'
            && s[p.colon + 1..p.dot] == f.component && s[p.dot] == '.'
            && s[p.dot + 1..p.pair] == f.property && PairAt(s, p.pair) && s[p.pair] == '='
            && s[p.pair + 2..p.bracket] == f.value && s[p.bracket] == ')'
  {
    hide PairAt, Printed;
    PrintedIs(f);
    var rest := f.property + (['='] + (['('] + (f.value + ")\n")));
    FourParts(Printed(f), f.mod, f.component, rest, f.property, f.value, PrintedCuts(f));
  }

  lemma FourParts(s: string, mod: string, component: string, rest: string, property: string, value: string, p: Cuts)
    requires s == mod + ([':'] + (component + (['.'] + rest)))
    requires rest == property + (['='] + (['('] + (value + ")\n")))
    requires p.colon == |mod| && p.dot == p.colon + 1 + |component|
    requires p.pair == p.dot + 1 + |property| && p.bracket == p.pair + 2 + |value|
    ensures |s| == p.bracket + 2
    ensures s[..p.colon] == mod && s[p.colon] == ':' && s[p.colon + 1..p.dot] == component && s[p.dot] == '.'
    ensures s[p.dot + 1..p.pair] == property && PairAt(s, p.pair) && s[p.pair] == '='
    ensures s[p.pair + 2..p.bracket] == value && s[p.bracket] == ')'
  {
    hide PairAt;
    FirstParts(s, mod, component, rest);
    LastParts(s, p.dot + 1, property, value);
  }

  lemma PrintedIs(f: Fields)
    ensures Printed(f) ==
            f.mod + ([':'] + (f.component + (['.'] + (f.property + (['='] + (['('] + (f.value + ")\n")))))))
  {
    assert "=(" + (f.value + ")\n") == ['='] + (['('] + (f.value + ")\n"));
  }

  lemma FirstParts(s: string, mod: string, component: string, rest: string)
    requires s == mod + ([':'] + (component + (['.'] + rest)))
    ensures var colon := |mod|;
            var dot := colon + 1 + |component|;
            && dot < |s| && s[..colon] == mod && s[colon] == ':' && s[colon + 1..dot] == component && s[dot] == '.'
            && s[dot + 1..] == rest
  {
    assert s[0..] == s;
    PartAt(s, 0, |mod|, mod, ':', component + (['.'] + rest));
    PartAt(s, |mod| + 1, |mod| + 1 + |component|, component, '.', rest);
  }

  lemma LastParts(s: string, i: nat, property: string, value: string)
    requires i <= |s| && s[i..] == property + (['='] + (['('] + (value + ")\n")))
    ensures var pair := i + |property|;
            var bracket := pair + 2 + |value|;
            && |s| == bracket + 2 && s[i..pair] == property && s[pair] == '=' && PairAt(s, pair)
            && s[pair + 2..bracket] == value && s[bracket] == ')'
  {
    hide PairAt;
    var pair := i + |property|;
    assert [] + (['('] + (value + ")\n")) == ['('] + (value + ")\n") && ")\n" == [')'] + "\n";
    PartAt(s, i, pair, property, '=', ['('] + (value + ")\n"));
    PartAt(s, pair + 1, pair + 1, [], '(', value + ")\n");
    PartAt(s, pair + 2, pair + 2 + |value|, value, ')', "\n");
    PairIs(s, pair);
  }

  lemma PairIs(s: string, i: nat)
    requires i + 1 < |s| && s[i] == '=' && s[i + 1] == '('
    ensures PairAt(s, i)
  {}

  lemma PartAt(s: string, i: nat, j: nat, field: string, c: char, rest: string)
    requires i <= |s| && s[i..] == field + ([c] + rest) && j == i + |field|
    ensures |s| == j + 1 + |rest| && s[i..j] == field && s[j] == c && s[j + 1..] == rest
  {
    assert s[i..][..|field|] == field && s[i..][|field|] == c && s[i..][|field| + 1..] == rest;
  }

  /** Whether a character stands before a position, told by the parts before it. */
  lemma InParts(s: string, c: char, i: nat, j: nat)
    requires i < j <= |s|
    ensures c in s[..j] <==> c in s[..i] || c == s[i] || c in s[i + 1..j]
  {
    assert s[..j] == s[..i] + [s[i]] + s[i + 1..j];
  }

  predicate NoPairIn(s: string, from: nat, to: nat) {
    forall i :: from <= i < to ==> !PairAt(s, i)
  }

  /** No `=(` begins in a part that is followed by a character other than `(`. */
  lemma PartHasPair(s: string, from: nat, to: nat)
    requires from <= to < |s| && s[to] != '('
    ensures NoPairIn(s, from, to) <==> !HasPair(s[from..to])
  {
    var part := s[from..to];
    forall i | from <= i < to ensures PairAt(s, i) == PairAt(part, i - from) {
      assert part[i - from] == s[i];
      if i + 1 < to {
        assert part[i + 1 - from] == s[i + 1];
      }
    }
    if !NoPairIn(s, from, to) {
      var i :| from <= i < to && PairAt(s, i);
      assert PairAt(part, i - from);
    }
    if HasPair(part) {
      var k :| 0 <= k < |part| && PairAt(part, k);
      assert PairAt(s, from + k);
    }
  }

  lemma FirstPairExactly(f: Fields)
    ensures FindPair(Printed(f)) == PrintedCuts(f).pair <==>
            !HasPair(f.mod) && !HasPair(f.component) && !HasPair(f.property)
  {
    hide Printed, FindPair, HasPair;
    PrintedParts(f);
    var s, p := Printed(f), PrintedCuts(f);
    FindPairExactly(s, p.pair);
    PartHasPair(s, 0, p.colon);
    PartHasPair(s, p.colon + 1, p.dot);
    PartHasPair(s, p.dot + 1, p.pair);
    assert s[0..p.colon] == s[..p.colon];
    assert NoPairIn(s, 0, p.pair) <==>
           NoPairIn(s, 0, p.colon) && NoPairIn(s, p.colon + 1, p.dot) && NoPairIn(s, p.dot + 1, p.pair);
  }

  lemma BracketParts(f: Fields)
    ensures var s, p := Printed(f), PrintedCuts(f);
            && p.bracket <= |s|
            && (')' in s[..p.bracket] <==> ')' in f.mod || ')' in f.component || ')' in f.property || ')' in f.value)
  {
    hide Printed;
    PrintedParts(f);
    var s, p := Printed(f), PrintedCuts(f);
    InParts(s, ')', p.colon, p.dot);
    InParts(s, ')', p.dot, p.pair);
    InParts(s, ')', p.pair + 1, p.bracket);
    assert s[..p.pair + 1] == s[..p.pair] + ['='];
  }

  /** The first separators are those that were printed exactly when the fields are free of
      them. */
  lemma CutsExactly(f: Fields)
    ensures CutsOf(Printed(f)) == PrintedCuts(f) <==> Separable(f)
  {
    hide Printed, FindPair, HasPair, Find;
    PrintedParts(f);
    var s, p := Printed(f), PrintedCuts(f);
    FindExactly(s, ':', p.colon);
    FindExactly(s, '.', p.dot);
    InParts(s, '.', p.colon, p.dot);
    FirstPairExactly(f);
    FindExactly(s, ')', p.bracket);
    BracketParts(f);
  }

  predicate NulFree(f: Fields) {
    NUL !in f.mod && NUL !in f.component && NUL !in f.property && NUL !in f.value
  }

  lemma PartRead(s: string, i: nat, j: nat)
    requires i <= j < |s| && NUL !in s[i..j]
    requires CutsOf(s).At(j) && forall k :: i <= k < j ==> !CutsOf(s).At(k)
    ensures CString(CutText(s), i) == s[i..j]
  {
    hide Find, FindPair, CString;
    var buffer := CutText(s);
    assert forall k :: i <= k < j ==> s[k] == s[i..j][k - i];
    CStringIs(buffer, i, j);
    assert buffer[i..j] == s[i..j];
  }

  lemma CutsGiveFields(f: Fields)
    requires NulFree(f) && CutsOf(Printed(f)) == PrintedCuts(f)
    ensures ParsedFields(Printed(f)) == f
  {
    hide Printed, Find, FindPair, CString, CutText;
    PrintedParts(f);
    var s, p := Printed(f), PrintedCuts(f);
    PartRead(s, 0, p.colon);
    assert s[0..p.colon] == s[..p.colon];
    PartRead(s, p.colon + 1, p.dot);
    PartRead(s, p.dot + 1, p.pair);
    PartRead(s, p.pair + 2, p.bracket);
  }

  /** A string of the buffer ends at a separator or at the end of the text. */
  lemma PartEnds(s: string, i: nat)
    requires i <= |s| && NUL !in s
    ensures var end := i + |CString(CutText(s), i)|; end >= |s| || CutsOf(s).At(end)
  {
    hide Find, FindPair, CString;
    CStringEnds(CutText(s), i);
  }

  lemma SeparatorAt(s: string, k: nat)
    requires k < |s| && IsCommand(s) && CutsOf(s).At(k)
    ensures var c := CutsOf(s);
            && (s[k] == ':' ==> k == c.colon) && (s[k] == '.' ==> k == c.dot)
            && (s[k] == '=' ==> k == c.pair) && (s[k] == ')' ==> k == c.bracket)
  {
    hide Find;
    FindFirst(s, ':');
    FindFirst(s, '.');
    FindFirst(s, ')');
  }

  /** A string of the right length shows where a separator was found. */
  lemma LengthGivesCut(s: string, i: nat, j: nat)
    requires i <= j < |s| && NUL !in s && IsCommand(s) && |CString(CutText(s), i)| == j - i
    ensures var c := CutsOf(s);
            && (s[j] == ':' ==> j == c.colon) && (s[j] == '.' ==> j == c.dot)
            && (s[j] == '=' ==> j == c.pair) && (s[j] == ')' ==> j == c.bracket)
  {
    hide Find, FindPair, CString, CutText;
    PartEnds(s, i);
    SeparatorAt(s, j);
  }

  lemma PrintedNulFree(f: Fields)
    requires NulFree(f)
    ensures NUL !in Printed(f)
  {
    var fromProperty := f.property + ("=(" + (f.value + ")\n"));
    assert NUL !in fromProperty;
    assert NUL !in f.component + ("." + fromProperty);
  }

  lemma FieldsGiveCuts(f: Fields)
    requires NulFree(f) && IsCommand(Printed(f)) && ParsedFields(Printed(f)) == f
    ensures CutsOf(Printed(f)) == PrintedCuts(f)
  {
    hide Printed, CString, CutText, NulFree, PairAt, IsCommand, CutsOf;
    var s, p := Printed(f), PrintedCuts(f);
    PrintedParts(f);
    PrintedNulFree(f);
    LengthGivesCut(s, 0, p.colon);
    LengthGivesCut(s, p.colon + 1, p.dot);
    LengthGivesCut(s, p.dot + 1, p.pair);
    LengthGivesCut(s, p.pair + 2, p.bracket);
  }

  lemma PrintedIsCommand(f: Fields)
    ensures IsCommand(Printed(f))
  {
    hide Printed, Find, FindPair;
    PrintedParts(f);
    var s, p := Printed(f), PrintedCuts(f);
    FindAtMost(s, ':', p.colon);
    FindAtMost(s, '.', p.dot);
    FindPairAtMost(s, p.pair);
    FindAtMost(s, ')', p.bracket);
  }

  /** Parsing a printed command gives its four fields exactly when no field contains a separator
      that the parser looks for at or after the field's own end. */
  lemma ParsesPrinted(f: Fields)
    requires NulFree(f)
    ensures IsCommand(Printed(f))
    ensures ParsedFields(Printed(f)) == f <==> Separable(f)
  {
    hide Printed, ParsedFields, Separable, CutsOf;
    PrintedIsCommand(f);
    CutsExactly(f);
    if Separable(f) {
      CutsGiveFields(f);
    }
    if ParsedFields(Printed(f)) == f {
      FieldsGiveCuts(f);
    }
  }
}
