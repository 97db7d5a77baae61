/** The indented configuration file: a recursive reader with one line of lookahead. */
module IndentedFile {
  import opened Text
  import opened ConfigurationTree
  import opened Streams

  // ---------- Lines ----------

  /** The end of a line is no space, so that a line that is too short is not indented. */
  predicate Indented(line: string, level: nat) {
    2 * level <= |line| && forall i :: 0 <= i < 2 * level ==> line[i] == ' '
  }

  /** A string is followed by a NUL. */
  function CharAt(s: string, i: nat): char { if i < |s| then s[i] else '\0' }

  function LeadingSpaces(s: string): (n: nat)
    ensures n <= |s| && forall i :: 0 <= i < n ==> s[i] == ' '
    ensures n < |s| ==> s[n] != ' '
  {
    if s == "" || s[0] != ' ' then 0 else 1 + LeadingSpaces(s[1..])
  }

  /** Two spaces a level. */
  function Level(line: string): (level: nat)
    ensures Indented(line, level)
  {
    LeadingSpaces(line) / 2
  }

  method GetLevel(input: string) returns (level: nat)
    ensures level == Level(input)
  {
    level := 0;
    for i := 0 to |input|
      invariant level == i && forall k :: 0 <= k < i ==> input[k] == ' '
    {
      if input[i] == ' ' {
        level := level + 1;
      } else {
        break;
      }
    }
    assert level == LeadingSpaces(input);
    level := level / 2;
  }

  /** What follows the first c, the whole text if there is none. */
  function After(s: string, c: char): string {
    var k := Find(s, c);
    if k == |s| then s else s[k + 1..]
  }

  /** A tag line holds the tag, a colon and white space; without a colon it must be blank. */
  function TagOf(line: string, level: nat): Option<string> {
    if !Indented(line, level) || !AllSpace(After(line, ':')) then None
    else
      FindFirst(line, ':');
      Some(line[2 * level..Find(line, ':')])
  }

  method FormatTag(input: string, level: nat) returns (formatted: bool, tag: string)
    ensures formatted == TagOf(input, level).Some?
    ensures formatted ==> tag == TagOf(input, level).value
  {
    tag := "";
    for i := 0 to 2 * level
      invariant i <= |input| && forall k :: 0 <= k < i ==> input[k] == ' '
    {
      if CharAt(input, i) != ' ' {
        return false, tag;
      }
    }
    FindFirst(input, ':');
    var colonIndex := Find(input, ':');
    tag := input[2 * level..colonIndex];
    formatted := OnlySpacesFrom(input, if colonIndex == |input| then 0 else colonIndex + 1);
  }

  /** The loop with which both formatters end; without a separator the index wraps to 0. */
  method OnlySpacesFrom(input: string, start: nat) returns (only: bool)
    requires start <= |input|
    ensures only == AllSpace(input[start..])
  {
    for i := start to |input|
      invariant forall k :: start <= k < i ==> IsSpace(input[k])
    {
      if !IsSpace(input[i]) {
        assert input[start..][i - start] == input[i];
        return false;
      }
    }
    only := true;
  }

  /** The text between the first colon and the first semicolon. */
  function ValueText(line: string): string {
    FindFirst(line, ':');
    FindFirst(line, ';');
    var colon, end := Find(line, ':'), Find(line, ';');
    if colon == |line| then line[..end]
    else if end < colon then line[colon + 1..]
    else line[colon + 1..end]
  }

  /** A value line holds a key, a colon, a value, a semicolon and white space. */
  function PairOf(line: string, level: nat): Option<(string, string)> {
    if !Indented(line, level) || !AllSpace(After(line, ';')) then None
    else
      FindFirst(line, ':');
      Some((line[2 * level..Find(line, ':')], ValueText(line)))
  }

  method FormatKeyValuePair(input: string, level: nat) returns (formatted: bool, key: string, value: string)
    ensures formatted == PairOf(input, level).Some?
    ensures formatted ==> (key, value) == PairOf(input, level).value
  {
    hide Find;
    key, value := "", "";
    for i := 0 to 2 * level
      invariant i <= |input| && forall k :: 0 <= k < i ==> input[k] == ' '
    {
      if CharAt(input, i) != ' ' {
        return false, key, value;
      }
    }
    FindFirst(input, ':');
    FindFirst(input, ';');
    var colonIndex, endIndex := Find(input, ':'), Find(input, ';');
    key := input[2 * level..colonIndex];
    if colonIndex == |input| {
      value := input[..endIndex];
    } else {
      value := if endIndex < colonIndex then input[colonIndex + 1..] else input[colonIndex + 1..endIndex];
    }
    formatted := OnlySpacesFrom(input, if endIndex == |input| then 0 else endIndex + 1);
  }

  // ---------- Positions as the standard library counts them ----------

  /** What a search gives that finds nothing. */
  const NPOS: int := 0xFFFF_FFFF_FFFF_FFFF

  function Wrapped(x: int): nat { x % (NPOS + 1) }

  function FindFirstOf(s: string, c: char): int { if c in s then Find(s, c) else NPOS }

  function Substr(s: string, pos: nat, count: nat): string
    requires pos <= |s|
  {
    if pos + count <= |s| then s[pos..pos + count] else s[pos..]
  }

  lemma WrappedIs(x: int)
    requires -NPOS - 1 <= x <= NPOS + 1
    ensures Wrapped(x) == if x < 0 then x + NPOS + 1 else if x == NPOS + 1 then 0 else x
  {}

  lemma FindFirstOfIs(s: string, c: char)
    ensures FindFirstOf(s, c) == if Find(s, c) == |s| then NPOS else Find(s, c)
  {
    FindFirst(s, c);
    assert s[..|s|] == s;
  }

  /** The text from the position after the separator on. */
  lemma AfterWraps(s: string, c: char)
    requires |s| < NPOS
    ensures Wrapped(FindFirstOf(s, c) + 1) <= |s| && After(s, c) == s[Wrapped(FindFirstOf(s, c) + 1)..]
  {
    hide Wrapped, FindFirstOf, Find;
    FindFirstOfIs(s, c);
    WrappedIs(FindFirstOf(s, c) + 1);
    FindFirst(s, c);
    assert s[0..] == s;
  }

  lemma FieldBefore(line: string, level: nat, c: char)
    requires |line| < NPOS && Indented(line, level) && c != ' '
    ensures 2 * level <= Find(line, c)
    ensures line[2 * level..Find(line, c)] == Substr(line, 2 * level, Wrapped(FindFirstOf(line, c) - 2 * level))
  {
    hide Wrapped, FindFirstOf, Find;
    FindFirst(line, c);
    FindFirstOfIs(line, c);
    WrappedIs(FindFirstOf(line, c) - 2 * level);
  }

  /** The tag is what stands between unsigned positions, which wrap around without a colon. */
  lemma TagWraps(line: string, level: nat)
    requires |line| < NPOS && Indented(line, level)
    ensures var colonIndex := FindFirstOf(line, ':');
            && Wrapped(colonIndex + 1) <= |line|
            && TagOf(line, level) ==
               if AllSpace(line[Wrapped(colonIndex + 1)..])
               then Some(Substr(line, 2 * level, Wrapped(colonIndex - 2 * level))) else None
  {
    hide Wrapped, FindFirstOf, Find, After, AllSpace, Substr, Indented;
    AfterWraps(line, ':');
    FieldBefore(line, level, ':');
  }

  lemma ValueWraps(line: string)
    requires |line| < NPOS
    ensures var colonIndex, endIndex := FindFirstOf(line, ':'), FindFirstOf(line, ';');
            && Wrapped(colonIndex + 1) <= |line|
            && ValueText(line) == Substr(line, Wrapped(colonIndex + 1), Wrapped(endIndex - colonIndex - 1))
  {
    hide Wrapped, FindFirstOf, Find;
    var colonIndex, endIndex := FindFirstOf(line, ':'), FindFirstOf(line, ';');
    FindFirst(line, ':');
    FindFirst(line, ';');
    FindFirstOfIs(line, ':');
    FindFirstOfIs(line, ';');
    WrappedIs(colonIndex + 1);
    WrappedIs(endIndex - colonIndex - 1);
    assert line[0..] == line;
  }

  /** So are the key and the value, whichever separator is missing or comes too early. */
  lemma PairWraps(line: string, level: nat)
    requires |line| < NPOS && Indented(line, level)
    ensures var colonIndex, endIndex := FindFirstOf(line, ':'), FindFirstOf(line, ';');
            && Wrapped(colonIndex + 1) <= |line| && Wrapped(endIndex + 1) <= |line|
            && PairOf(line, level) ==
               if AllSpace(line[Wrapped(endIndex + 1)..])
               then Some((Substr(line, 2 * level, Wrapped(colonIndex - 2 * level)),
                          Substr(line, Wrapped(colonIndex + 1), Wrapped(endIndex - colonIndex - 1)))) else None
  {
    hide Wrapped, FindFirstOf, Find, After, AllSpace, Substr, Indented;
    AfterWraps(line, ';');
    FieldBefore(line, level, ':');
    ValueWraps(line);
  }

  // ---------- Reading ----------

  datatype Problem = NoTag | ImproperFormatting | UnsupportedLine

  datatype Exception = ParseException(line: string, lineNumber: nat, problem: Problem)

  /** What was read, and the lines from the lookahead on. */
  datatype Outcome = Parsed(tree: Tree, rest: seq<string>) | Failed(exception: Exception)

  /** Reads the lines of a node; the first line is the lookahead.  The number counts only the
      lines that the node itself reads: a child's count is not given back. */
  function ReadLines(level: nat, lineNumber: nat, node: Tree, lines: seq<string>): (o: Outcome)
    ensures o.Parsed? ==> |o.rest| <= |lines| && o.tree.tag == node.tag
    decreases |lines|
  {
    var line := Head(lines);
    var nextLevel := Level(line);
    if nextLevel == level || line == "" || nextLevel < level then Parsed(node, lines)
    else if nextLevel != level + 1 then Failed(ParseException(line, lineNumber, ImproperFormatting))
    else if TagOf(line, nextLevel).Some? then
      var child := Node(TagOf(line, nextLevel).value, [], map[]);
      match ReadLines(level + 1, lineNumber + 1, child, lines[1..])
      case Failed(e) => Failed(e)
      case Parsed(tree, rest) => ReadLines(level, lineNumber, node.AddChild(tree), rest)
    else if PairOf(line, nextLevel).Some? then
      var (key, value) := PairOf(line, nextLevel).value;
      ReadLines(level, lineNumber + 1, node.AddValue(key, value), lines[1..])
    else Failed(ParseException(line, lineNumber, UnsupportedLine))
  }

  function ReadFile(lines: seq<string>): Outcome {
    var tag := TagOf(Head(lines), 0);
    if tag.None? then Failed(ParseException(Head(lines), 1, NoTag))
    else ReadLines(0, 2, Node(tag.value, [], map[]), Tail(lines))
  }

  lemma ReadsTag(level: nat, lineNumber: nat, node: Tree, lines: seq<string>)
    requires lines != [] && lines[0] != "" && Level(lines[0]) == level + 1
    requires TagOf(lines[0], level + 1).Some?
    ensures var child := Node(TagOf(lines[0], level + 1).value, [], map[]);
            ReadLines(level, lineNumber, node, lines) ==
            match ReadLines(level + 1, lineNumber + 1, child, lines[1..])
            case Failed(e) => Failed(e)
            case Parsed(tree, rest) => ReadLines(level, lineNumber, node.AddChild(tree), rest)
  {}

  lemma ReadsPair(level: nat, lineNumber: nat, node: Tree, lines: seq<string>)
    requires lines != [] && lines[0] != "" && Level(lines[0]) == level + 1
    requires TagOf(lines[0], level + 1).None? && PairOf(lines[0], level + 1).Some?
    ensures var (key, value) := PairOf(lines[0], level + 1).value;
            ReadLines(level, lineNumber, node, lines) ==
            ReadLines(level, lineNumber + 1, node.AddValue(key, value), lines[1..])
  {}

  lemma ReadsNone(level: nat, lineNumber: nat, node: Tree, lines: seq<string>)
    ensures var line := Head(lines);
            var nextLevel := Level(line);
            && (nextLevel <= level || line == "" ==>
                  ReadLines(level, lineNumber, node, lines) == Parsed(node, lines))
            && (nextLevel > level + 1 && line != "" ==>
                  ReadLines(level, lineNumber, node, lines) ==
                  Failed(ParseException(line, lineNumber, ImproperFormatting)))
            && ((nextLevel == level + 1 && line != ""
                 && TagOf(line, nextLevel).None? && PairOf(line, nextLevel).None?) ==>
                  ReadLines(level, lineNumber, node, lines) ==
                  Failed(ParseException(line, lineNumber, UnsupportedLine)))
  {}

  datatype Result = Success(configuration: Configuration) | Failure(exception: Exception)

  /** The result of the reader is what reading the lines gives. */
  ghost predicate Realizes(result: Result, o: Outcome, parent: Configuration?)
    reads if result.Success? then {result.configuration} + result.configuration.Repr else {}
  {
    match result
    case Failure(exception) => o == Failed(exception)
    case Success(c) => o.Parsed? && c.Holds(o.tree, parent)
  }

  class IndentedFileConfigurationReader {

    method ReadConfigurationHelper(stream: Stream, level: nat, lineNumber0: nat, tag: string, parent: Configuration?,
                                   nextLine0: string)
      returns (result: Result, nextLine: string)
      requires stream.Valid() && (stream.eof ==> nextLine0 == "")
      modifies stream
      ensures stream.Valid() && (result.Success? && stream.eof ==> nextLine == "")
      ensures var o := ReadLines(level, lineNumber0 + 1, Node(tag, [], map[]), Lines(old(stream.text)));
              && Realizes(result, o, parent)
              && (o.Parsed? ==> nextLine == Head(o.rest) && Lines(stream.text) == Tail(o.rest))
      ensures result.Success? ==> fresh(result.configuration.Repr)
      decreases |Lines(stream.text)|
    {
      hide ReadLines, Level, TagOf, PairOf, Lines, Terminated, Configuration.Valid;
      nextLine := nextLine0;
      var configuration := new Configuration(tag, parent);
      ghost var lines := Lines(stream.text);
      ghost var o := ReadLines(level, lineNumber0 + 1, configuration.tree, lines);
      nextLine := stream.GetLine(nextLine);
      var lineNumber: nat := lineNumber0 + 1;
      var nextLevel := GetLevel(nextLine);
      while nextLevel != level
        invariant configuration.Holds(configuration.tree, parent) && fresh(configuration.Repr)
        invariant stream.Valid() && (stream.eof ==> nextLine == "")
        invariant nextLevel == Level(nextLine)
        invariant nextLine == Head(lines) && Lines(stream.text) == Tail(lines)
        invariant |lines| <= |Lines(old(stream.text))|
        invariant o == ReadLines(level, lineNumber, configuration.tree, lines)
        decreases |lines|
      {
        ReadsNone(level, lineNumber, configuration.tree, lines);
        if |nextLine| == 0 {
          break;
        }
        if nextLevel != level + 1 {
          if nextLevel > level {
            return Failure(ParseException(nextLine, lineNumber, ImproperFormatting)), nextLine;
          }
          return Success(configuration), nextLine;
        }
        var isTag, str1 := FormatTag(nextLine, nextLevel);
        if isTag {
          ReadsTag(level, lineNumber, configuration.tree, lines);
          ghost var inside := ReadLines(level + 1, lineNumber + 1, Node(str1, [], map[]), lines[1..]);
          var child;
          child, nextLine := ReadConfigurationHelper(stream, level + 1, lineNumber, str1, configuration,
                                                     nextLine);
          if child.Failure? {
            return child, nextLine;
          }
          configuration.AddChildConfiguration(child.configuration);
          lines := inside.rest;
        } else {
          var isPair, key, value := FormatKeyValuePair(nextLine, nextLevel);
          if !isPair {
            return Failure(ParseException(nextLine, lineNumber, UnsupportedLine)), nextLine;
          }
          ReadsPair(level, lineNumber, configuration.tree, lines);
          configuration.AddConfigurationData(key, value);
          lines := lines[1..];
          nextLine := stream.GetLine(nextLine);
          lineNumber := lineNumber + 1;
        }
        nextLevel := GetLevel(nextLine);
      }
      ReadsNone(level, lineNumber, configuration.tree, lines);
      result := Success(configuration);
    }

    /** Opening and closing the file are the caller's. */
    method ReadFromFile(inputStream: Stream) returns (result: Result)
      requires inputStream.Valid() && !inputStream.eof
      modifies inputStream
      ensures Realizes(result, ReadFile(Lines(old(inputStream.text))), null)
      ensures result.Success? ==> fresh(result.configuration.Repr)
    {
      hide ReadLines, TagOf, Lines, Terminated;
      var nextLine := inputStream.GetLine("");
      var isTag, tag := FormatTag(nextLine, 0);
      if !isTag {
        return Failure(ParseException(nextLine, 1, NoTag));
      }
      result, nextLine := ReadConfigurationHelper(inputStream, 0, 1, tag, null, nextLine);
    }
  }
}
