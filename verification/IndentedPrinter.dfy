/** Printing a configuration at two spaces a level, and reading it back. */
module IndentedPrinter {
  import opened Text
  import opened ConfigurationTree
  import opened IndentedFile
  import opened Streams

  // ---------- Documents ----------

  /** Values and children of a node in any order. */
  datatype Entries =
    | End
    | Value(key: string, value: string, tail: Entries)
    | Child(tag: string, body: Entries, tail: Entries)

  /** A single space in front does not change the level of a line. */
  predicate GoodName(name: string) { LeadingSpaces(name) <= 1 && ':' !in name }

  predicate GoodPair(key: string, value: string) { GoodName(key) && ';' !in key && ';' !in value }

  predicate WellFormed(e: Entries) {
    match e
    case End => true
    case Value(key, value, tail) => GoodPair(key, value) && WellFormed(tail)
    case Child(tag, body, tail) => GoodName(tag) && WellFormed(body) && WellFormed(tail)
  }

  function Spaces(n: nat): (s: string)
    ensures |s| == n && forall i :: 0 <= i < n ==> s[i] == ' '
  {
    if n == 0 then "" else " " + Spaces(n - 1)
  }

  function TagLine(tag: string, level: nat): string { Spaces(2 * level) + (tag + ":") }

  function ValueLine(key: string, value: string, level: nat): string {
    Spaces(2 * level) + (key + ":" + (value + ";"))
  }

  function Print(e: Entries, level: nat): seq<string> {
    match e
    case End => []
    case Value(key, value, tail) => [ValueLine(key, value, level)] + Print(tail, level)
    case Child(tag, body, tail) => [TagLine(tag, level)] + (Print(body, level + 1) + Print(tail, level))
  }

  // ---------- The tree that a document stands for ----------

  function ChildTrees(e: Entries): seq<Tree>
    decreases e, 0
  {
    match e
    case End => []
    case Value(_, _, tail) => ChildTrees(tail)
    case Child(tag, body, tail) => [TreeOf(tag, body)] + ChildTrees(tail)
  }

  /** A later value for the same key replaces an earlier one. */
  function ValueMap(e: Entries): map<string, string> {
    match e
    case End => map[]
    case Value(key, value, tail) => map[key := value] + ValueMap(tail)
    case Child(_, _, tail) => ValueMap(tail)
  }

  function TreeOf(tag: string, e: Entries): Tree
    decreases e, 1
  {
    Node(tag, ChildTrees(e), ValueMap(e))
  }

  /** The node with the entries added after what it holds. */
  function Extend(node: Tree, e: Entries): Tree {
    Node(node.tag, node.children + ChildTrees(e), node.values + ValueMap(e))
  }

  lemma ExtendEmpty(tag: string, e: Entries)
    ensures Extend(Node(tag, [], map[]), e) == TreeOf(tag, e)
  {
    assert [] + ChildTrees(e) == ChildTrees(e);
    assert map[] + ValueMap(e) == ValueMap(e);
  }

  lemma ExtendEnd(node: Tree)
    ensures Extend(node, End) == node
  {
    assert node.children + [] == node.children;
    assert node.values + map[] == node.values;
  }

  lemma ExtendValue(node: Tree, key: string, value: string, tail: Entries)
    ensures Extend(node, Value(key, value, tail)) == Extend(node.AddValue(key, value), tail)
  {
    MergeOne(node.values, key, value, ValueMap(tail));
  }

  lemma MergeOne<K, V>(m: map<K, V>, key: K, value: V, n: map<K, V>)
    ensures m + (map[key := value] + n) == m[key := value] + n
  {}

  lemma ExtendChild(node: Tree, tag: string, body: Entries, tail: Entries)
    ensures Extend(node, Child(tag, body, tail)) == Extend(node.AddChild(TreeOf(tag, body)), tail)
  {
    assert node.children + ([TreeOf(tag, body)] + ChildTrees(tail)) ==
           (node.children + [TreeOf(tag, body)]) + ChildTrees(tail);
  }

  // ---------- One line ----------

  lemma {:induction false} LeadingAfter(n: nat, s: string)
    ensures LeadingSpaces(Spaces(n) + s) == n + LeadingSpaces(s)
  {
    if n == 0 {
      assert Spaces(0) + s == s;
    } else {
      assert (Spaces(n) + s)[1..] == Spaces(n - 1) + s;
      LeadingAfter(n - 1, s);
    }
  }

  lemma {:induction false} LeadingBefore(name: string, rest: string)
    requires rest != "" && rest[0] != ' '
    ensures LeadingSpaces(name + rest) == LeadingSpaces(name)
  {
    if name == "" {
      assert name + rest == rest;
    } else {
      assert (name + rest)[1..] == name[1..] + rest;
      LeadingBefore(name[1..], rest);
    }
  }

  lemma LevelOfLine(level: nat, name: string, rest: string)
    requires LeadingSpaces(name) <= 1 && rest != "" && rest[0] != ' '
    ensures Level(Spaces(2 * level) + (name + rest)) == level
  {
    LeadingAfter(2 * level, name + rest);
    LeadingBefore(name, rest);
  }

  /** Around a separator that stands neither in the indentation nor in the field. */
  lemma AroundSeparator(level: nat, field: string, c: char, rest: string)
    requires c != ' ' && c !in field
    ensures var line := Spaces(2 * level) + (field + [c] + rest);
            var k := Find(line, c);
            && k == 2 * level + |field| && k < |line|
            && line[2 * level..k] == field && line[k + 1..] == rest && After(line, c) == rest
  {
    var before := Spaces(2 * level) + field;
    var line := Spaces(2 * level) + (field + [c] + rest);
    assert c !in before;
    assert line == before + ([c] + rest);
    FindAfter(before, [c] + rest, c);
    assert before == line[..|before|];
  }

  lemma TagOfTagLine(tag: string, level: nat)
    requires ':' !in tag
    ensures TagLine(tag, level) != "" && TagOf(TagLine(tag, level), level) == Some(tag)
  {
    assert tag + ":" == tag + ":" + "";
    AroundSeparator(level, tag, ':', "");
  }

  lemma TagLineReads(tag: string, level: nat)
    requires GoodName(tag)
    ensures var line := TagLine(tag, level);
            line != "" && Level(line) == level && TagOf(line, level) == Some(tag)
  {
    TagOfTagLine(tag, level);
    LevelOfLine(level, tag, ":");
  }

  lemma ValueLineIsNoTag(key: string, value: string, level: nat)
    requires ':' !in key
    ensures TagOf(ValueLine(key, value, level), level).None?
  {
    AroundSeparator(level, key, ':', value + ";");
    assert (value + ";")[|value|] == ';';
  }

  lemma ValueLineIsPair(key: string, value: string, level: nat)
    requires GoodPair(key, value)
    ensures PairOf(ValueLine(key, value, level), level) == Some((key, value))
  {
    hide Find, Spaces;
    var line := ValueLine(key, value, level);
    AroundSeparator(level, key, ':', value + ";");
    var field := key + ":" + value;
    assert key + ":" + (value + ";") == field + ";" + "";
    AroundSeparator(level, field, ';', "");
    var colon, end := Find(line, ':'), Find(line, ';');
    Inside(line, colon + 1, value, ";");
    assert line[2 * level..colon] == key && line[colon + 1..end] == value;
  }

  lemma Inside(line: string, start: nat, value: string, rest: string)
    requires start <= |line| && line[start..] == value + rest
    ensures start + |value| <= |line| && line[start..start + |value|] == value
  {
    assert line[start..start + |value|] == line[start..][..|value|];
  }

  lemma LevelOfValue(key: string, value: string, level: nat)
    requires GoodName(key)
    ensures Level(ValueLine(key, value, level)) == level
  {
    var rest := ":" + (value + ";");
    assert key + ":" + (value + ";") == key + rest;
    LevelOfLine(level, key, rest);
  }

  lemma ValueLineReads(key: string, value: string, level: nat)
    requires GoodPair(key, value)
    ensures var line := ValueLine(key, value, level);
            && line != "" && Level(line) == level
            && TagOf(line, level).None? && PairOf(line, level) == Some((key, value))
  {
    hide TagOf, PairOf, Level;
    LevelOfValue(key, value, level);
    ValueLineIsNoTag(key, value, level);
    ValueLineIsPair(key, value, level);
  }

  // ---------- The whole file ----------

  /** A node at this level ends before these lines. */
  predicate Stops(lines: seq<string>, level: nat) {
    Head(lines) == "" || Level(Head(lines)) <= level
  }

  lemma StopsBefore(e: Entries, level: nat, following: seq<string>)
    requires WellFormed(e) && Stops(following, level)
    ensures Stops(Print(e, level) + following, level)
  {
    match e
    case End => assert [] + following == following;
    case Value(key, value, _) => ValueLineReads(key, value, level);
    case Child(tag, _, _) => TagLineReads(tag, level);
  }

  /** Reading the entries of a node and what follows them gives the entries and leaves what follows. */
  lemma {:induction false} ReadsEntries(e: Entries, level: nat, lineNumber: nat, node: Tree, following: seq<string>)
    requires WellFormed(e) && Stops(following, level)
    ensures ReadLines(level, lineNumber, node, Print(e, level + 1) + following) == Parsed(Extend(node, e), following)
    decreases e
  {
    hide Level, TagOf, PairOf, TagLine, ValueLine, Extend, GoodName, GoodPair, ReadLines, TreeOf;
    hide Tree.AddChild, Tree.AddValue;
    var lines := Print(e, level + 1) + following;
    match e
    case End =>
      assert lines == following;
      ExtendEnd(node);
      ReadsNone(level, lineNumber, node, lines);
    case Value(key, value, tail) =>
      ValueLineReads(key, value, level + 1);
      assert lines[1..] == Print(tail, level + 1) + following;
      ReadsPair(level, lineNumber, node, lines);
      ExtendValue(node, key, value, tail);
      ReadsEntries(tail, level, lineNumber + 1, node.AddValue(key, value), following);
    case Child(tag, body, tail) =>
      TagLineReads(tag, level + 1);
      var after := Print(tail, level + 1) + following;
      assert lines[1..] == Print(body, level + 2) + after;
      ReadsTag(level, lineNumber, node, lines);
      StopsBeforeTail(tail, level, following);
      ReadsEntries(body, level + 1, lineNumber + 1, Node(tag, [], map[]), after);
      ExtendEmpty(tag, body);
      ExtendChild(node, tag, body, tail);
      ReadsEntries(tail, level, lineNumber, node.AddChild(TreeOf(tag, body)), following);
  }

  lemma StopsBeforeTail(tail: Entries, level: nat, following: seq<string>)
    requires WellFormed(tail) && Stops(following, level)
    ensures Stops(Print(tail, level + 1) + following, level + 1)
  {
    StopsBefore(tail, level + 1, following);
  }

  function File(tag: string, e: Entries): seq<string> { [TagLine(tag, 0)] + Print(e, 1) }

  lemma ReadsFile(line: string, tag: string, lines: seq<string>)
    requires TagOf(line, 0) == Some(tag)
    ensures ReadFile([line] + lines) == ReadLines(0, 2, Node(tag, [], map[]), lines)
  {
    hide TagOf, ReadLines;
    assert Tail([line] + lines) == lines;
  }

  /** Reading back a printed configuration gives the tree; an empty line or a second line
      without indentation ends it. */
  lemma ReadsBack(tag: string, e: Entries, following: seq<string>)
    requires ':' !in tag && WellFormed(e) && Stops(following, 0)
    ensures ReadFile(File(tag, e) + following) == Parsed(TreeOf(tag, e), following)
  {
    hide TagOf, Level, ReadLines, ReadFile, TreeOf, Extend, TagLine, Print, WellFormed, Stops;
    TagOfTagLine(tag, 0);
    ReadsFile(TagLine(tag, 0), tag, Print(e, 1) + following);
    assert File(tag, e) + following == [TagLine(tag, 0)] + (Print(e, 1) + following);
    ReadsEntries(e, 0, 2, Node(tag, [], map[]), following);
    ExtendEmpty(tag, e);
  }

  // ---------- What can be read ----------

  predicate Readable(line: string) { TagOf(line, Level(line)).Some? || PairOf(line, Level(line)).Some? }

  /** The keys and, below the node, the tags that lines can give. */
  ghost predicate GoodNode(t: Tree) {
    && (forall key :: key in t.values ==> GoodName(key))
    && (forall i :: 0 <= i < |t.children| ==> GoodName(t.children[i].tag) && GoodNode(t.children[i]))
  }

  lemma {:induction false} LeadingOfRest(line: string, n: nat)
    requires n <= LeadingSpaces(line)
    ensures LeadingSpaces(line[n..]) == LeadingSpaces(line) - n
  {
    if n == 0 {
      assert line[0..] == line;
    } else {
      assert line[n..] == line[1..][n - 1..];
      LeadingOfRest(line[1..], n - 1);
    }
  }

  lemma {:induction false} LeadingOfPrefix(s: string, n: nat)
    requires n <= |s|
    ensures LeadingSpaces(s[..n]) <= LeadingSpaces(s)
  {
    if n > 0 {
      assert s[..n][1..] == s[1..][..n - 1];
      LeadingOfPrefix(s[1..], n - 1);
    }
  }

  /** The name in front of the colon of a line. */
  lemma NameOfLine(line: string)
    requires 2 * Level(line) <= Find(line, ':')
    ensures GoodName(line[2 * Level(line)..Find(line, ':')])
  {
    hide LeadingSpaces, Find;
    var level, colon := Level(line), Find(line, ':');
    FindFirst(line, ':');
    LeadingOfRest(line, 2 * level);
    LeadingOfPrefix(line[2 * level..], colon - 2 * level);
    var name := line[2 * level..colon];
    assert name == line[2 * level..][..colon - 2 * level];
    assert forall i :: 0 <= i < |name| ==> name[i] == line[..colon][2 * level + i];
  }

  lemma NamesAreGood(line: string)
    ensures TagOf(line, Level(line)).Some? ==> GoodName(TagOf(line, Level(line)).value)
    ensures PairOf(line, Level(line)).Some? ==> GoodName(PairOf(line, Level(line)).value.0)
  {
    hide GoodName, LeadingSpaces;
    FindFirst(line, ':');
    assert Indented(line, Level(line));
    NameOfLine(line);
  }

  predicate EndsIn(lines: seq<string>, rest: seq<string>) {
    |rest| <= |lines| && rest == lines[|lines| - |rest|..]
  }

  /** The lines before the rest are tag and value lines. */
  ghost predicate Takes(lines: seq<string>, rest: seq<string>) {
    EndsIn(lines, rest) && forall i :: 0 <= i < |lines| - |rest| ==> Readable(lines[i])
  }

  lemma TakesOne(lines: seq<string>, rest: seq<string>)
    requires lines != [] && Readable(lines[0]) && Takes(lines[1..], rest)
    ensures Takes(lines, rest)
  {
    hide Readable;
    assert forall i :: 1 <= i < |lines| - |rest| ==> lines[i] == lines[1..][i - 1];
  }

  lemma TakesBoth(lines: seq<string>, middle: seq<string>, rest: seq<string>)
    requires Takes(lines, middle) && Takes(middle, rest)
    ensures Takes(lines, rest)
  {
    hide Readable;
    var n := |lines| - |middle|;
    assert forall i :: n <= i < |lines| - |rest| ==> lines[i] == middle[i - n];
  }

  lemma GoodChild(node: Tree, child: Tree)
    requires GoodNode(node) && GoodName(child.tag) && GoodNode(child)
    ensures GoodNode(node.AddChild(child))
  {
    hide GoodName;
    var t := node.AddChild(child);
    forall i | 0 <= i < |t.children| ensures GoodName(t.children[i].tag) && GoodNode(t.children[i]) {
      if i < |node.children| {
        assert t.children[i] == node.children[i];
      }
    }
  }

  lemma GoodValue(node: Tree, key: string, value: string)
    requires GoodNode(node) && GoodName(key)
    ensures GoodNode(node.AddValue(key, value))
  {
    hide GoodName;
  }

  /** Every line that is taken is a tag or a value line, and gives a name that lines can give. */
  lemma {:induction false} ReadsReadable(level: nat, lineNumber: nat, node: Tree, lines: seq<string>)
    requires GoodNode(node)
    ensures var o := ReadLines(level, lineNumber, node, lines);
            o.Parsed? ==> GoodNode(o.tree) && Stops(o.rest, level) && Takes(lines, o.rest)
    decreases |lines|
  {
    hide Level, TagOf, PairOf, GoodNode, GoodName, ReadLines, Takes, Tree.AddChild, Tree.AddValue;
    var line := Head(lines);
    var nextLevel := Level(line);
    ReadsNone(level, lineNumber, node, lines);
    if nextLevel <= level || line == "" {
      TakesNothing(lines);
    } else if nextLevel == level + 1 {
      NamesAreGood(line);
      if TagOf(line, nextLevel).Some? {
        ReadsTag(level, lineNumber, node, lines);
        var child := Node(TagOf(line, nextLevel).value, [], map[]);
        GoodLeaf(child.tag);
        ReadsReadable(level + 1, lineNumber + 1, child, lines[1..]);
        var inside := ReadLines(level + 1, lineNumber + 1, child, lines[1..]);
        if inside.Parsed? {
          GoodChild(node, inside.tree);
          TakesOne(lines, inside.rest);
          ReadsReadable(level, lineNumber, node.AddChild(inside.tree), inside.rest);
          var o := ReadLines(level, lineNumber, node, lines);
          if o.Parsed? {
            TakesBoth(lines, inside.rest, o.rest);
          }
        }
      } else if PairOf(line, nextLevel).Some? {
        ReadsPair(level, lineNumber, node, lines);
        var (key, value) := PairOf(line, nextLevel).value;
        GoodValue(node, key, value);
        ReadsReadable(level, lineNumber + 1, node.AddValue(key, value), lines[1..]);
        var o := ReadLines(level, lineNumber, node, lines);
        if o.Parsed? {
          TakesOne(lines, o.rest);
        }
      }
    }
  }

  /** The level that the lines below a line have at least. */
  function LevelBelow(line: string): nat { Level(line) + if TagOf(line, Level(line)).Some? then 1 else 0 }

  /** Line 0 still belongs to an unfinished node at line k. */
  predicate IsOpen(lines: seq<string>, k: nat)
    requires k < |lines|
  {
    forall m :: 1 <= m <= k ==> Level(lines[m]) >= LevelBelow(lines[0])
  }

  /** The lines before line k that still do. */
  function OpenLines(lines: seq<string>, k: nat): nat
    requires k < |lines|
  {
    if k == 0 then 0 else (if IsOpen(lines, k) then 1 else 0) + OpenLines(lines[1..], k - 1)
  }

  /** What an exception tells of the lines: they were taken up to the one it names, which is either
      no tag or value line, or indented by more than one level.  Its number counts only those lines
      that belong to unfinished nodes; those of children that were complete are lost. */
  ghost predicate Explains(lines: seq<string>, level: nat, lineNumber: nat, e: Exception, k: nat) {
    && k < |lines| && e.line == lines[k] != ""
    && (forall i :: 0 <= i < k ==> Readable(lines[i]))
    && (forall i :: 0 <= i <= k ==> Level(lines[i]) > level)
    && (e.problem == UnsupportedLine || e.problem == ImproperFormatting)
    && (e.problem == UnsupportedLine ==> !Readable(lines[k]))
    && (e.problem == ImproperFormatting ==>
          Level(lines[k]) > if k == 0 then level + 1 else LevelBelow(lines[k - 1]))
    && e.lineNumber == lineNumber + OpenLines(lines, k)
  }

  lemma ExplainsAfter(lines: seq<string>, level: nat, lineNumber: nat, e: Exception, k: nat)
    requires lines != [] && Readable(lines[0]) && Level(lines[0]) == level + 1
    requires Explains(lines[1..], LevelBelow(lines[0]) - 1, lineNumber + 1, e, k)
    ensures Explains(lines, level, lineNumber, e, k + 1)
  {
    hide Readable, Level, LevelBelow;
    assert forall i :: 0 < i <= k + 1 ==> lines[i] == lines[1..][i - 1];
    assert LevelBelow(lines[0]) >= level + 1 by {
      LevelBelowIs(lines[0]);
    }
    assert IsOpen(lines, k + 1);
  }

  lemma LevelBelowIs(line: string)
    ensures Level(line) <= LevelBelow(line) <= Level(line) + 1
  {
    hide Level;
  }

  /** Lines after which a lower one has come do not count. */
  lemma {:induction false} ClosedLines(lines: seq<string>, n: nat, k: nat)
    requires n + k < |lines| && forall i :: 0 <= i < n ==> LevelBelow(lines[i]) > Level(lines[n])
    ensures OpenLines(lines, n + k) == OpenLines(lines[n..], k)
    decreases n
  {
    hide Level, LevelBelow;
    if n > 0 {
      assert LevelBelow(lines[0]) > Level(lines[n]);
      assert !IsOpen(lines, n + k);
      assert lines[1..][n - 1..] == lines[n..];
      ClosedLines(lines[1..], n - 1, k);
    } else {
      assert lines[0..] == lines;
    }
  }

  lemma ExplainsAfterChild(lines: seq<string>, middle: seq<string>, level: nat, lineNumber: nat, e: Exception, k: nat)
    requires Takes(lines, middle) && |middle| < |lines| && LevelBelow(lines[0]) == level + 2
    requires forall i :: 0 < i < |lines| - |middle| ==> Level(lines[i]) > level + 1
    requires Level(lines[0]) > level && Stops(middle, level + 1) && Explains(middle, level, lineNumber, e, k)
    ensures Explains(lines, level, lineNumber, e, |lines| - |middle| + k)
  {
    hide Readable, Level, LevelBelow;
    var n := |lines| - |middle|;
    assert forall i :: n <= i <= n + k ==> lines[i] == middle[i - n];
    assert Level(lines[n]) <= level + 1;
    forall i | 0 <= i < n ensures LevelBelow(lines[i]) > Level(lines[n]) {
      LevelBelowIs(lines[i]);
    }
    ClosedLines(lines, n, k);
  }

  /** The lines of a node are below its level. */
  lemma {:induction false} ReadsBelow(level: nat, lineNumber: nat, node: Tree, lines: seq<string>)
    ensures var o := ReadLines(level, lineNumber, node, lines);
            o.Parsed? ==> EndsIn(lines, o.rest) && Below(lines, o.rest, level)
    decreases |lines|
  {
    hide Level, TagOf, PairOf, ReadLines, Tree.AddChild, Tree.AddValue;
    var line := Head(lines);
    var nextLevel := Level(line);
    var o := ReadLines(level, lineNumber, node, lines);
    ReadsNone(level, lineNumber, node, lines);
    if nextLevel == level + 1 && line != "" && o.Parsed? {
      if TagOf(line, nextLevel).Some? {
        ReadsTag(level, lineNumber, node, lines);
        var child := Node(TagOf(line, nextLevel).value, [], map[]);
        var inside := ReadLines(level + 1, lineNumber + 1, child, lines[1..]);
        ReadsBelow(level + 1, lineNumber + 1, child, lines[1..]);
        ReadsBelow(level, lineNumber, node.AddChild(inside.tree), inside.rest);
        BelowFirst(lines, inside.rest, level);
        BelowBoth(lines, inside.rest, o.rest, level);
      } else {
        ReadsPair(level, lineNumber, node, lines);
        var (key, value) := PairOf(line, nextLevel).value;
        ReadsBelow(level, lineNumber + 1, node.AddValue(key, value), lines[1..]);
        BelowFirst(lines, o.rest, level);
      }
    }
  }

  predicate Below(lines: seq<string>, rest: seq<string>, level: nat)
    requires |rest| <= |lines|
  {
    forall i :: 0 <= i < |lines| - |rest| ==> Level(lines[i]) > level
  }

  lemma BelowFirst(lines: seq<string>, rest: seq<string>, level: nat)
    requires lines != [] && Level(lines[0]) > level
    requires EndsIn(lines[1..], rest) && (Below(lines[1..], rest, level) || Below(lines[1..], rest, level + 1))
    ensures EndsIn(lines, rest) && Below(lines, rest, level)
  {
    hide Level;
    assert forall i :: 0 < i < |lines| ==> lines[i] == lines[1..][i - 1];
  }

  lemma BelowBoth(lines: seq<string>, middle: seq<string>, rest: seq<string>, level: nat)
    requires EndsIn(lines, middle) && EndsIn(middle, rest) && Below(lines, middle, level) && Below(middle, rest, level)
    ensures EndsIn(lines, rest) && Below(lines, rest, level)
  {
    hide Level;
    var n := |lines| - |middle|;
    assert forall i :: n <= i < |lines| ==> lines[i] == middle[i - n];
  }

  /** Every failure is explained by a line. */
  lemma {:induction false} FailureExplained(level: nat, lineNumber: nat, node: Tree, lines: seq<string>)
    returns (k: nat)
    requires ReadLines(level, lineNumber, node, lines).Failed?
    ensures Explains(lines, level, lineNumber, ReadLines(level, lineNumber, node, lines).exception, k)
    decreases |lines|
  {
    hide Level, TagOf, PairOf, ReadLines, Takes, Tree.AddChild, Tree.AddValue, Stops, Below;
    var line := Head(lines);
    var nextLevel := Level(line);
    var e := ReadLines(level, lineNumber, node, lines).exception;
    ReadsNone(level, lineNumber, node, lines);
    if nextLevel != level + 1 || (TagOf(line, nextLevel).None? && PairOf(line, nextLevel).None?) {
      k := 0;
    } else if TagOf(line, nextLevel).Some? {
      ReadsTag(level, lineNumber, node, lines);
      var child := Node(TagOf(line, nextLevel).value, [], map[]);
      var inside := ReadLines(level + 1, lineNumber + 1, child, lines[1..]);
      if inside.Failed? {
        k := FailureExplained(level + 1, lineNumber + 1, child, lines[1..]);
        ExplainsAfter(lines, level, lineNumber, e, k);
        k := k + 1;
      } else {
        GoodLeaf(child.tag);
        ReadsReadable(level + 1, lineNumber + 1, child, lines[1..]);
        ReadsBelow(level + 1, lineNumber + 1, child, lines[1..]);
        InsideBelow(lines, inside.rest, level + 1);
        TakesOne(lines, inside.rest);
        k := FailureExplained(level, lineNumber, node.AddChild(inside.tree), inside.rest);
        ExplainsAfterChild(lines, inside.rest, level, lineNumber, e, k);
        k := |lines| - |inside.rest| + k;
      }
    } else {
      ReadsPair(level, lineNumber, node, lines);
      var (key, value) := PairOf(line, nextLevel).value;
      k := FailureExplained(level, lineNumber + 1, node.AddValue(key, value), lines[1..]);
      ExplainsAfter(lines, level, lineNumber, e, k);
      k := k + 1;
    }
  }

  /** A file fails at a first line that is no tag line, or at a line that is counted from there. */
  lemma FileFailureExplained(lines: seq<string>) returns (k: nat)
    requires ReadFile(lines).Failed?
    ensures var e := ReadFile(lines).exception;
            if AllSpace(After(Head(lines), ':')) then Explains(Tail(lines), 0, 2, e, k)
            else e == ParseException(Head(lines), 1, NoTag)
  {
    hide ReadLines, Explains;
    k := 0;
    var tag := TagOf(Head(lines), 0);
    if tag.Some? {
      k := FailureExplained(0, 2, Node(tag.value, [], map[]), Tail(lines));
    }
  }

  lemma InsideBelow(lines: seq<string>, rest: seq<string>, level: nat)
    requires lines != [] && EndsIn(lines[1..], rest) && Below(lines[1..], rest, level)
    ensures forall i :: 0 < i < |lines| - |rest| ==> Level(lines[i]) > level
  {
    hide Level;
    assert forall i :: 0 < i < |lines| ==> lines[i] == lines[1..][i - 1];
  }

  lemma TakesNothing(lines: seq<string>)
    ensures Takes(lines, lines)
  {}

  lemma GoodLeaf(tag: string)
    ensures GoodNode(Node(tag, [], map[]))
  {}

  // ---------- The exact condition ----------

  lemma {:induction false} FindWithin(field: string, c: char)
    requires c in field
    ensures Find(field + [c], c) < |field|
  {
    assert (field + [c])[1..] == field[1..] + [c];
    if field[0] != c {
      FindWithin(field[1..], c);
    }
  }

  /** A character before the last one shows that it is found too early. */
  lemma NotAtEnd(field: string, c: char)
    requires c in field && !IsSpace(c)
    ensures !AllSpace(After(field + [c], c))
  {
    FindWithin(field, c);
    var line, k := field + [c], Find(field + [c], c);
    assert line[k + 1..][|field| - k - 1] == c;
  }

  lemma InFields(before: string, key: string, value: string, c: char)
    requires c in key || c in value
    ensures c in before + (key + ":" + value)
  {
    var field := before + (key + ":" + value);
    if c in key {
      var i :| 0 <= i < |key| && key[i] == c;
      assert field[|before| + i] == c;
    } else {
      var i :| 0 <= i < |value| && value[i] == c;
      assert field[|before| + |key| + 1 + i] == c;
    }
  }

  /** A value line that is read has its only semicolon at its end. */
  lemma ReadableValue(key: string, value: string, level: nat)
    requires GoodName(key) && Readable(ValueLine(key, value, level))
    ensures GoodPair(key, value)
  {
    hide Find, Spaces, Level, Indented, LeadingSpaces, After, AllSpace;
    LevelOfValue(key, value, level);
    ValueLineIsNoTag(key, value, level);
    if ';' in key || ';' in value {
      InFields(Spaces(2 * level), key, value, ';');
      NotAtEnd(Spaces(2 * level) + (key + ":" + value), ';');
      ValueLineEnds(key, value, level);
    }
  }

  lemma ValueLineEnds(key: string, value: string, level: nat)
    ensures ValueLine(key, value, level) == Spaces(2 * level) + (key + ":" + value) + ";"
  {}

  /** If the tree has only names that lines can give, and the lines are read, the fields are
      free of separators. */
  lemma {:induction false} GoodFields(tag: string, e: Entries, level: nat)
    requires GoodNode(TreeOf(tag, e))
    requires forall line :: line in Print(e, level) ==> Readable(line)
    ensures WellFormed(e)
    decreases e
  {
    hide Readable, GoodName;
    match e
    case End =>
    case Value(key, value, tail) =>
      var t := TreeOf(tag, e);
      assert key in t.values;
      assert ValueLine(key, value, level) in Print(e, level);
      ReadableValue(key, value, level);
      assert GoodNode(TreeOf(tag, tail));
      GoodFields(tag, tail, level);
    case Child(childTag, body, tail) =>
      var t := TreeOf(tag, e);
      assert t.children[0] == TreeOf(childTag, body);
      assert forall i :: 0 <= i < |t.children| - 1 ==> t.children[i + 1] == TreeOf(tag, tail).children[i];
      GoodFields(childTag, body, level + 1);
      GoodFields(tag, tail, level);
  }

  lemma RootTag(tag: string, found: string)
    requires TagOf(TagLine(tag, 0), 0) == Some(found)
    ensures ':' !in found
  {
    FindFirst(TagLine(tag, 0), ':');
  }

  /** Reading back a printed configuration gives its tree and leaves what follows if and only if
      no name contains a colon and, below the first line, none starts with two spaces, no key or
      value contains a semicolon, and what follows is empty or not indented. */
  lemma RoundTrip(tag: string, e: Entries, following: seq<string>)
    ensures ReadFile(File(tag, e) + following) == Parsed(TreeOf(tag, e), following) <==>
            ':' !in tag && WellFormed(e) && Stops(following, 0)
  {
    hide TagOf, ReadLines, Readable, GoodNode, WellFormed, Stops, ReadFile;
    if ReadFile(File(tag, e) + following) == Parsed(TreeOf(tag, e), following) {
      NothingElse(tag, e, following);
    } else if ':' !in tag && WellFormed(e) && Stops(following, 0) {
      ReadsBack(tag, e, following);
    }
  }

  lemma NothingElse(tag: string, e: Entries, following: seq<string>)
    requires ReadFile(File(tag, e) + following) == Parsed(TreeOf(tag, e), following)
    ensures ':' !in tag && WellFormed(e) && Stops(following, 0)
  {
    hide TagOf, ReadLines, Readable, GoodNode, WellFormed, Stops, TagLine;
    var lines := Print(e, 1) + following;
    assert File(tag, e) + following == [TagLine(tag, 0)] + lines;
    assert Tail([TagLine(tag, 0)] + lines) == lines;
    var found := TagOf(TagLine(tag, 0), 0).value;
    RootTag(tag, found);
    GoodLeaf(found);
    ReadsReadable(0, 2, Node(found, [], map[]), lines);
    forall line | line in Print(e, 1) ensures Readable(line) {
      var i :| 0 <= i < |Print(e, 1)| && Print(e, 1)[i] == line;
      assert lines[i] == line;
    }
    GoodFields(tag, e, 1);
  }

  // ---------- Text ----------

  /** The round trip for the characters of a file. */
  lemma TextRoundTrip(tag: string, e: Entries)
    requires NoNewlines(File(tag, e))
    ensures ReadFile(Lines(Unlines(File(tag, e)))) == Parsed(TreeOf(tag, e), []) <==> ':' !in tag && WellFormed(e)
  {
    hide ReadFile, TreeOf, WellFormed;
    LinesOfUnlines(File(tag, e));
    RoundTrip(tag, e, []);
    assert File(tag, e) + [] == File(tag, e);
  }

  // ---------- Finding a tag ----------

  /** The tags of those lines that are tag lines, in their order. */
  function TagLines(lines: seq<string>): seq<string> {
    if lines == [] then []
    else
      (match TagOf(lines[0], Level(lines[0])) case None => [] case Some(tag) => [tag]) + TagLines(lines[1..])
  }

  /** The first line of a file is read at level 0, however it starts. */
  function FileTags(lines: seq<string>): seq<string> {
    (match TagOf(Head(lines), 0) case None => [] case Some(tag) => [tag]) + TagLines(Tail(lines))
  }

  function Tags(nodes: seq<Tree>): seq<string> {
    if nodes == [] then [] else [nodes[0].tag] + Tags(nodes[1..])
  }

  lemma {:induction false} TagsOfTwo(first: seq<Tree>, second: seq<Tree>)
    ensures Tags(first + second) == Tags(first) + Tags(second)
  {
    if first == [] {
      assert first + second == second;
    } else {
      assert (first + second)[1..] == first[1..] + second;
      TagsOfTwo(first[1..], second);
    }
  }

  lemma {:induction false} TagLinesOfTwo(first: seq<string>, second: seq<string>)
    ensures TagLines(first + second) == TagLines(first) + TagLines(second)
  {
    if first == [] {
      assert first + second == second;
    } else {
      assert (first + second)[1..] == first[1..] + second;
      TagLinesOfTwo(first[1..], second);
    }
  }

  lemma FirstTagLine(line: string, lines: seq<string>)
    ensures TagLines([line] + lines) ==
            (match TagOf(line, Level(line)) case None => [] case Some(tag) => [tag]) + TagLines(lines)
  {
    assert ([line] + lines)[1..] == lines;
  }

  function TagsBelow(t: Tree): seq<string> { Tags(NodesOf(t.children)) }

  /** The lines that have been read. */
  function Read(lines: seq<string>, rest: seq<string>): seq<string>
    requires |rest| <= |lines|
  {
    lines[..|lines| - |rest|]
  }

  lemma TagsOfChild(node: Tree, child: Tree)
    ensures TagsBelow(node.AddChild(child)) == TagsBelow(node) + ([child.tag] + TagsBelow(child))
  {
    NodesOfLast(node.children, child);
    TagsOfTwo(NodesOf(node.children), child.Nodes());
    assert child.Nodes()[1..] == NodesOf(child.children);
  }

  lemma ReadFirst(lines: seq<string>, rest: seq<string>)
    requires lines != [] && EndsIn(lines[1..], rest)
    ensures EndsIn(lines, rest) && Read(lines, rest) == [lines[0]] + Read(lines[1..], rest)
  {}

  lemma ReadBoth(lines: seq<string>, middle: seq<string>, rest: seq<string>)
    requires EndsIn(lines, middle) && EndsIn(middle, rest)
    ensures EndsIn(lines, rest) && Read(lines, rest) == Read(lines, middle) + Read(middle, rest)
  {}

  lemma NothingRead(node: Tree, lines: seq<string>)
    ensures EndsIn(lines, lines) && TagsBelow(node) + TagLines(Read(lines, lines)) == TagsBelow(node)
  {}

  lemma TagsOfLeaf(tag: string)
    ensures TagsBelow(Node(tag, [], map[])) == []
  {}

  lemma SameChildren(node: Tree, key: string, value: string)
    ensures TagsBelow(node.AddValue(key, value)) == TagsBelow(node)
  {}

  /** The lines of a child, its own first, and those after it. */
  lemma TagLinesOfChild(line: string, tag: string, inside: seq<string>, after: seq<string>)
    requires TagOf(line, Level(line)) == Some(tag)
    ensures TagLines([line] + (inside + after)) == ([tag] + TagLines(inside)) + TagLines(after)
  {
    hide TagOf, Level, TagLines;
    FirstTagLine(line, inside + after);
    TagLinesOfTwo(inside, after);
  }

  /** Below a node the tags stand in the order of the lines that were read. */
  lemma {:induction false} ReadsTags(level: nat, lineNumber: nat, node: Tree, lines: seq<string>)
    ensures var o := ReadLines(level, lineNumber, node, lines);
            o.Parsed? ==>
              && EndsIn(lines, o.rest)
              && TagsBelow(o.tree) == TagsBelow(node) + TagLines(Read(lines, o.rest))
    decreases |lines|
  {
    hide Level, TagOf, PairOf, ReadLines, EndsIn, TagsBelow, TagLines, Read, Tree.AddChild, Tree.AddValue;
    var line := Head(lines);
    var nextLevel := Level(line);
    var o := ReadLines(level, lineNumber, node, lines);
    ReadsNone(level, lineNumber, node, lines);
    if nextLevel <= level || line == "" {
      NothingRead(node, lines);
    } else if nextLevel == level + 1 && o.Parsed? {
      if TagOf(line, nextLevel).Some? {
        ReadsTag(level, lineNumber, node, lines);
        var child := Node(TagOf(line, nextLevel).value, [], map[]);
        var inside := ReadLines(level + 1, lineNumber + 1, child, lines[1..]);
        var extended := node.AddChild(inside.tree);
        ReadsTags(level + 1, lineNumber + 1, child, lines[1..]);
        ReadsTags(level, lineNumber, extended, inside.rest);
        TagsOfLeaf(child.tag);
        TagsOfChild(node, inside.tree);
        ReadBoth(lines[1..], inside.rest, o.rest);
        ReadFirst(lines, o.rest);
        TagLinesOfChild(line, child.tag, Read(lines[1..], inside.rest), Read(inside.rest, o.rest));
      } else {
        ReadsPair(level, lineNumber, node, lines);
        var (key, value) := PairOf(line, nextLevel).value;
        ReadsTags(level, lineNumber + 1, node.AddValue(key, value), lines[1..]);
        SameChildren(node, key, value);
        ReadFirst(lines, o.rest);
        FirstTagLine(line, Read(lines[1..], o.rest));
      }
    }
  }

  /** The nodes of a tree that is read stand in the order of the tag lines that were read, so that
      the first node with a tag is the node of the first such line. */
  lemma NodesInFileOrder(lines: seq<string>)
    ensures var o := ReadFile(lines);
            o.Parsed? ==> Tags(o.tree.Nodes()) == FileTags(Read(lines, o.rest))
  {
    hide TagOf, ReadLines, TagLines;
    var o := ReadFile(lines);
    if o.Parsed? {
      var tag := TagOf(Head(lines), 0).value;
      ReadsTags(0, 2, Node(tag, [], map[]), Tail(lines));
      assert o.tree.Nodes()[1..] == NodesOf(o.tree.children);
      TagsOfLeaf(tag);
      if lines != [] {
        ReadFirst(lines, o.rest);
      }
    }
  }

  lemma {:induction false} FirstWithTagIsFirst(nodes: seq<Tree>, tag: string)
    ensures match FirstWithTag(nodes, tag)
            case None => tag !in Tags(nodes)
            case Some(node) => exists i: nat :: i < |nodes| && nodes[i] == node && FirstAt(Tags(nodes), tag, i)
  {
    if nodes != [] {
      FirstWithTagIsFirst(nodes[1..], tag);
      if nodes[0].tag == tag {
        assert FirstAt(Tags(nodes), tag, 0);
      } else if FirstWithTag(nodes, tag).Some? {
        var node := FirstWithTag(nodes, tag).value;
        var i: nat :| i < |nodes[1..]| && nodes[1..][i] == node && FirstAt(Tags(nodes[1..]), tag, i);
        assert nodes[i + 1] == node;
        FirstAtNext(nodes[0].tag, Tags(nodes[1..]), tag, i);
      }
    }
  }

  lemma FirstAtNext(head: string, tags: seq<string>, tag: string, i: nat)
    requires FirstAt(tags, tag, i) && head != tag
    ensures FirstAt([head] + tags, tag, i + 1)
  {}

  ghost predicate FirstAt(tags: seq<string>, tag: string, i: nat) {
    i < |tags| && tags[i] == tag && forall k :: 0 <= k < i ==> tags[k] != tag
  }

  /** Looking up a tag in a configuration that was read finds the node of the first such line. */
  lemma FindsFirstTagLine(lines: seq<string>, tag: string)
    ensures var o := ReadFile(lines);
            o.Parsed? ==>
              var nodes, tags := o.tree.Nodes(), FileTags(Read(lines, o.rest));
              match FirstWithTag(nodes, tag)
              case None => tag !in tags
              case Some(node) => exists i: nat :: i < |nodes| && nodes[i] == node && FirstAt(tags, tag, i)
  {
    hide ReadFile, Tree.Nodes, FileTags, Read, FirstWithTag, FirstAt, Tags;
    var o := ReadFile(lines);
    if o.Parsed? {
      FirstWithTagIsFirst(o.tree.Nodes(), tag);
      NodesInFileOrder(lines);
    }
  }
}
