/** The sparse map and its file: corners, obstacles, a dash, and the points of the path.
    Coordinates are integers. */
module SparseMap {
  import opened Text
  import opened Numbers
  import opened Streams

  // ---------- Points ----------

  /** What `>>` leaves in a number that holds `previous`: a blank text does not change it, and
      one that does not start with a number makes it 0. */
  function Extracted(token: string, previous: int): int {
    if SkipSpaces(token) == "" then previous
    else match Integer(token) case None => 0 case Some(value) => value
  }

  /** White space leaves the number as it was; otherwise the digits after white space and a sign are
      taken, and their absence gives 0. */
  lemma ExtractedExactly(spaces: string, sign: string, digits: string, rest: string, previous: int)
    requires Among(spaces, SPACES) && (sign == "" || sign == "-" || sign == "+")
    requires Among(digits, DIGITS) && !StartsWith(rest, DIGITS)
    requires sign == digits == "" ==> !StartsWith(rest, "+-" + SPACES)
    ensures AllDigits(digits)
    ensures Extracted(spaces + (sign + (digits + rest)), previous) ==
            if sign == digits == rest == "" then previous
            else if digits == "" then 0
            else if sign == "-" then -(Numbers.Value(digits) as int)
            else Numbers.Value(digits)
  {
    hide Integer, SkipSpaces, Among, StartsWith;
    IntegerExactly(spaces, sign, digits, rest);
    SkipsSpaces(spaces, sign + (digits + rest));
    SignReads(sign, digits, rest);
  }

  type Point = seq<int>

  function PointLine(point: Point): string {
    if point == [] then ""
    else if |point| == 1 then Print(point[0])
    else Print(point[0]) + ("," + PointLine(point[1..]))
  }

  function PointLines(points: seq<Point>): seq<string> {
    if points == [] then [] else [PointLine(points[0])] + PointLines(points[1..])
  }

  /** The coordinates are separated by commas. */
  lemma {:induction false} PointLineExactly(a: Point, b: Point, x: int)
    requires a != [] && b != []
    ensures PointLine(a + b) == PointLine(a) + ("," + PointLine(b)) && PointLine([x]) == Print(x)
  {
    hide Print;
    assert (a + b)[1..] == a[1..] + b;
    if |a| > 1 {
      PointLineExactly(a[1..], b, x);
      assert (Print(a[0]) + ("," + PointLine(a[1..]))) + ("," + PointLine(b)) ==
             Print(a[0]) + ("," + (PointLine(a[1..]) + ("," + PointLine(b))));
    } else {
      assert a[1..] + b == b;
    }
  }

  /** The values between the commas; an empty last token is none. */
  function Values(line: string, value: int): Point
    decreases |line|
  {
    if line == "" then []
    else
      var k := Find(line, ',');
      var v := Extracted(line[..k], value);
      [v] + if k == |line| then [] else Values(line[k + 1..], v)
  }

  lemma ValuesLast(token: string, value: int)
    requires token != "" && ',' !in token
    ensures Values(token, value) == [Extracted(token, value)]
  {
    FindFirst(token, ',');
    assert token[..|token|] == token;
  }

  lemma ValuesFirst(token: string, rest: string, value: int)
    requires ',' !in token
    ensures Values(token + ("," + rest), value) ==
            [Extracted(token, value)] + Values(rest, Extracted(token, value))
  {
    hide Find, Extracted;
    var line := token + ("," + rest);
    FindAfter(token, "," + rest, ',');
    CommaFirst(rest);
    assert line[..|token|] == token && line[|token| + 1..] == rest;
  }

  lemma CommaFirst(rest: string)
    ensures Find("," + rest, ',') == 0
  {}

  lemma {:induction false} PointReads(point: Point, value: int)
    ensures Values(PointLine(point), value) == point
  {
    hide Values, Print, Extracted;
    if point == [] {
      EmptyReads(value);
    } else {
      NumberToken(point[0], value);
      if |point| == 1 {
        ValuesLast(Print(point[0]), value);
      } else {
        ValuesFirst(Print(point[0]), PointLine(point[1..]), value);
        PointReads(point[1..], point[0]);
      }
    }
  }

  lemma EmptyReads(value: int)
    ensures Values("", value) == []
  {}

  lemma NumberToken(x: int, value: int)
    ensures Print(x) != "" && ',' !in Print(x) && '\n' !in Print(x) && Extracted(Print(x), value) == x
  {
    PrintReads(x);
  }

  method SerializePoint(stream0: string, point: Point) returns (stream: string)
    ensures stream == stream0 + (PointLine(point) + "\n")
  {
    stream := stream0;
    var dimensionality := |point|;
    for i := 0 to dimensionality
      invariant stream + PointLine(point[i..]) == stream0 + PointLine(point)
    {
      stream := stream + Print(point[i]);
      if i != dimensionality - 1 {
        stream := stream + ",";
      }
      assert point[i..][1..] == point[i + 1..];
    }
    assert stream + "" == stream;
    stream := stream + "\n";
  }

  /** The number that the tokens are read into starts with an arbitrary value. */
  method DeserializePoint(stream: Stream, uninitialized: int) returns (point: Point)
    requires stream.Valid()
    modifies stream
    ensures stream.Valid() && stream.eof == (Lines(old(stream.text)) == [])
    ensures point == Values(Head(Lines(old(stream.text))), uninitialized)
    ensures Lines(stream.text) == Tail(Lines(old(stream.text)))
  {
    hide Lines;
    point := [];
    var line := stream.GetLine("");
    assert line == Head(Lines(old(stream.text))) by {
      assert old(stream.eof) ==> Lines(old(stream.text)) == [];
    }
    var stringStream := line;
    var tokenValue := uninitialized;
    while stringStream != ""
      invariant point + Values(stringStream, tokenValue) == Values(line, uninitialized)
      decreases |stringStream|
    {
      var comma := Find(stringStream, ',');
      var token := stringStream[..comma];
      stringStream := if comma == |stringStream| then "" else stringStream[comma + 1..];
      tokenValue := Extracted(token, tokenValue);
      point := point + [tokenValue];
    }
  }

  // ---------- Obstacles ----------

  datatype Obstacle = Obstacle(corners: seq<Point>, severity: int)

  function ObstacleLines(o: Obstacle): seq<string> {
    [Print(|o.corners|)] + (PointLines(o.corners) + [Print(o.severity)])
  }

  function Skip(n: nat, lines: seq<string>): seq<string> {
    if n == 0 then lines else Skip(n - 1, Tail(lines))
  }

  /** n points; after the end of the file they are empty. */
  function Corners(n: nat, lines: seq<string>, uninitialized: int): seq<Point> {
    if n == 0 then []
    else [Values(Head(lines), uninitialized)] + Corners(n - 1, Tail(lines), uninitialized)
  }

  /** If the file ends among the corners, the severity is read from the line with their number. */
  function ReadObstacle(lines: seq<string>, uninitialized: int): Option<(Obstacle, seq<string>)>
    requires lines != []
  {
    var number := Integer(lines[0]);
    if number.None? then None
    else
      var n := if number.value < 0 then 0 else number.value;
      var after := Skip(n, lines[1..]);
      var severity := Integer(if n > |lines| - 1 then lines[0] else Head(after));
      if severity.None? then None
      else Some((Obstacle(Corners(n, lines[1..], uninitialized), severity.value), Tail(after)))
  }

  /** Reading an obstacle has met the end of the file. */
  predicate HitsEnd(lines: seq<string>)
    requires lines != []
  {
    |lines| == 1 || (Integer(lines[0]).Some? && Integer(lines[0]).value >= |lines| - 1)
  }

  /** An obstacle takes the line with the number of its corners, a line for each corner, and the line
      of its severity.  If only the last is missing there is no obstacle; if more are, the missing
      corners are empty and the severity is their number. */
  lemma ReadsObstacleExactly(lines: seq<string>, number: int, uninitialized: int)
    requires lines != [] && Integer(lines[0]) == Some(number)
    ensures var n := if number > 0 then number else 0;
            var o := ReadObstacle(lines, uninitialized);
            && (HitsEnd(lines) <==> |lines| < n + 2)
            && (|lines| == n + 1 ==> o.None?)
            && (|lines| <= n ==>
                  o.Some? && o.value.1 == [] && o.value.0.severity == number && |o.value.0.corners| == n &&
                  forall i :: 0 <= i < n ==>
                    o.value.0.corners[i] == if i + 1 < |lines| then Values(lines[i + 1], uninitialized) else [])
            && (|lines| >= n + 2 ==>
                  match Integer(lines[n + 1])
                  case None => o.None?
                  case Some(severity) =>
                    o.Some? && o.value.1 == lines[n + 2..] && o.value.0.severity == severity &&
                    |o.value.0.corners| == n &&
                    forall i :: 0 <= i < n ==> o.value.0.corners[i] == Values(lines[i + 1], uninitialized))
  {
    hide Values, Integer;
    var n := if number > 0 then number else 0;
    CornersAre(n, lines[1..], uninitialized);
    SkipIs(n, lines[1..]);
    NoInteger();
    EmptyReads(uninitialized);
  }

  lemma NoInteger()
    ensures Integer("").None?
  {}

  lemma {:induction false} SkipIs(n: nat, lines: seq<string>)
    ensures Skip(n, lines) == if n <= |lines| then lines[n..] else []
  {
    if n > 0 {
      SkipIs(n - 1, Tail(lines));
    }
  }

  lemma {:induction false} CornersAre(n: nat, lines: seq<string>, uninitialized: int)
    ensures var corners := Corners(n, lines, uninitialized);
            |corners| == n && forall i :: 0 <= i < n ==>
              corners[i] == Values(if i < |lines| then lines[i] else "", uninitialized)
  {
    hide Values;
    if n > 0 {
      CornersAre(n - 1, Tail(lines), uninitialized);
    }
  }

  method SerializeObstacle(stream0: string, obstacle: Obstacle) returns (stream: string)
    ensures stream == stream0 + Unlines(ObstacleLines(obstacle))
  {
    hide Print, PointLine;
    var points := obstacle.corners;
    ghost var severity := [Print(obstacle.severity)];
    var number := Print(|points|);
    stream := stream0 + (number + "\n");
    UnlinesFirst(stream0, number, PointLines(points) + severity);
    for i := 0 to |points|
      invariant stream + Unlines(PointLines(points[i..]) + severity) == stream0 + Unlines(ObstacleLines(obstacle))
    {
      PointLinesFirst(points, i, severity);
      UnlinesFirst(stream, PointLine(points[i]), PointLines(points[i + 1..]) + severity);
      stream := SerializePoint(stream, points[i]);
    }
    assert PointLines(points[|points|..]) + severity == severity;
    UnlinesOne(Print(obstacle.severity));
    stream := stream + (Print(obstacle.severity) + "\n");
  }

  lemma UnlinesFirst(stream: string, line: string, lines: seq<string>)
    ensures stream + Unlines([line] + lines) == stream + (line + "\n") + Unlines(lines)
  {
    assert ([line] + lines)[1..] == lines;
  }

  lemma UnlinesOne(line: string)
    ensures Unlines([line]) == line + "\n"
  {
    assert [line][1..] == [];
  }

  lemma PointLinesFirst(points: seq<Point>, i: nat, lines: seq<string>)
    requires i < |points|
    ensures PointLines(points[i..]) + lines == [PointLine(points[i])] + (PointLines(points[i + 1..]) + lines)
  {
    assert points[i..][1..] == points[i + 1..];
  }

  lemma CornersStep(before: seq<Point>, n: nat, lines: seq<string>, uninitialized: int)
    requires n > 0
    ensures before + Corners(n, lines, uninitialized) ==
            before + [Values(Head(lines), uninitialized)] + Corners(n - 1, Tail(lines), uninitialized)
    ensures Skip(n, lines) == Skip(n - 1, Tail(lines))
  {}

  lemma NoCorners(before: seq<Point>, lines: seq<string>, uninitialized: int)
    ensures before + Corners(0, lines, uninitialized) == before && Skip(0, lines) == lines
  {}

  method DeserializeObstacle(stream: Stream, uninitialized: int) returns (obstacle: Option<Obstacle>)
    requires stream.Valid() && !stream.eof && Lines(stream.text) != []
    modifies stream
    ensures stream.Valid()
    ensures match ReadObstacle(Lines(old(stream.text)), uninitialized)
            case None => obstacle == None
            case Some((o, rest)) => obstacle == Some(o) && Lines(stream.text) == rest
    ensures obstacle.Some? ==> stream.eof == HitsEnd(Lines(old(stream.text)))
  {
    hide Lines, Integer, Values, Terminated, Corners, Skip;
    ghost var lines := Lines(stream.text);
    var line := stream.GetLine("");
    var numberOfCorners := Integer(line);
    if numberOfCorners.None? {
      return None;
    }
    var corners := [];
    var n: nat := if numberOfCorners.value < 0 then 0 else numberOfCorners.value;
    ghost var left := lines[1..];
    for i := 0 to n
      invariant stream.Valid() && stream.eof == (i > |lines| - 1)
      invariant Lines(stream.text) == left && |left| == if i > |lines| - 1 then 0 else |lines| - 1 - i
      invariant corners + Corners(n - i, left, uninitialized) == Corners(n, lines[1..], uninitialized)
      invariant Skip(n - i, left) == Skip(n, lines[1..])
    {
      CornersStep(corners, n - i, left, uninitialized);
      var corner := DeserializePoint(stream, uninitialized);
      corners := corners + [corner];
      left := Tail(left);
    }
    NoCorners(corners, left, uninitialized);
    line := stream.GetLine(line);
    var severity := Integer(line);
    if severity.None? {
      return None;
    }
    obstacle := Some(Obstacle(corners, severity.value));
  }

  // ---------- The map ----------

  datatype Contents = Contents(corner1: Point, corner2: Point, obstacles: seq<Obstacle>, path: seq<Point>)

  function ObstacleFile(obstacles: seq<Obstacle>): seq<string> {
    if obstacles == [] then [] else ObstacleLines(obstacles[0]) + ObstacleFile(obstacles[1..])
  }

  function PathLines(path: seq<Point>): seq<string> { ["-"] + PointLines(path) }

  function FileLines(m: Contents): seq<string> {
    [PointLine(m.corner1), PointLine(m.corner2), ""] + (ObstacleFile(m.obstacles) + PathLines(m.path))
  }

  /** Between the corners and the obstacles stands an empty line, before the path a dash. */
  lemma SeparatorsStand(m: Contents)
    ensures var lines := FileLines(m);
            && |lines| == 4 + |ObstacleFile(m.obstacles)| + |m.path|
            && lines[2] == "" && lines[|lines| - |m.path| - 1] == "-"
  {
    PathHasLines(m.path);
  }

  lemma {:induction false} PathHasLines(path: seq<Point>)
    ensures |PointLines(path)| == |path|
  {
    if path != [] {
      PathHasLines(path[1..]);
    }
  }

  /** How a reading ends: at the end of the file, with an exception of `stoi`, or never. */
  datatype End = Loaded | StoiFailed | NeverEnds

  predicate IsPrint(c: char) { ' ' <= c <= '~' }

  /** The lines after the corners.  A line that starts with a dash begins the path; a line that
      starts with no printable character is looked at forever. */
  function ReadRest(lines: seq<string>, readingWaypoints: bool, m: Contents, uninitialized: int): (End, Contents)
    decreases |lines|
  {
    if lines == [] then (Loaded, m)
    else if lines[0] == "" || (lines[0][0] != '-' && !IsPrint(lines[0][0])) then (NeverEnds, m)
    else if lines[0][0] == '-' then ReadRest(lines[1..], true, m, uninitialized)
    else if readingWaypoints then
      ReadRest(lines[1..], true, m.(path := m.path + [Values(lines[0], uninitialized)]), uninitialized)
    else
      match ReadObstacle(lines, uninitialized)
      case None => (StoiFailed, m)
      case Some((o, rest)) =>
        ObstacleConsumes(lines, uninitialized);
        ReadRest(rest, false, m.(obstacles := m.obstacles + [o]), uninitialized)
  }

  lemma {:induction false} SkipShortens(n: nat, lines: seq<string>)
    ensures |Skip(n, lines)| == if n <= |lines| then |lines| - n else 0
  {
    if n > 0 {
      SkipShortens(n - 1, Tail(lines));
    }
  }

  lemma ObstacleConsumes(lines: seq<string>, uninitialized: int)
    requires lines != []
    ensures var o := ReadObstacle(lines, uninitialized); o.Some? ==> |o.value.1| < |lines|
  {
    var number := Integer(lines[0]);
    if number.Some? {
      SkipShortens(if number.value < 0 then 0 else number.value, lines[1..]);
    }
  }

  /** The whole file, read into a map. */
  function ReadFile(lines: seq<string>, m: Contents, uninitialized: int): (End, Contents) {
    var corner1, corner2 := Values(Head(lines), uninitialized), Values(Head(Tail(lines)), uninitialized);
    ReadRest(Tail(Tail(Tail(lines))), false, m.(corner1 := corner1, corner2 := corner2), uninitialized)
  }

  lemma PeekedCharacter(text: string)
    requires text != "" && Terminated(text)
    ensures Lines(text) != [] && text[0] == if Lines(text)[0] == "" then '\n' else Lines(text)[0][0]
  {
    FindFirst(text, '\n');
  }

  // ---------- The loop ----------

  /** What the loop of the reader works on. */
  datatype LoopState = LoopState(lines: seq<string>, eof: bool, readingWaypoints: bool, loaded: Contents)

  /** The body of the loop, nothing if it ends in an exception.  It looks at the first character
      of the stream, a newline on an empty line. */
  function LoopBody(s: LoopState, uninitialized: int): Option<LoopState> {
    if s.lines == [] then Some(s.(eof := true))
    else
      var nextChar := if s.lines[0] == "" then '\n' else s.lines[0][0];
      if nextChar == '-' then Some(s.(readingWaypoints := true, lines := s.lines[1..]))
      else if !IsPrint(nextChar) then Some(s)
      else if s.readingWaypoints then
        var point := Values(s.lines[0], uninitialized);
        Some(s.(lines := s.lines[1..], loaded := s.loaded.(path := s.loaded.path + [point])))
      else
        match ReadObstacle(s.lines, uninitialized)
        case None => None
        case Some((o, rest)) =>
          Some(s.(lines := rest, eof := HitsEnd(s.lines), loaded := s.loaded.(obstacles := s.loaded.obstacles + [o])))
  }

  /** The state after at most k iterations, fewer at the end of the file. */
  function Loop(s: LoopState, k: nat, uninitialized: int): Option<LoopState>
    decreases k
  {
    if k == 0 || s.eof then Some(s)
    else match LoopBody(s, uninitialized) case None => None case Some(t) => Loop(t, k - 1, uninitialized)
  }

  /** After any number of iterations the loop goes on. */
  ghost predicate LoopsForever(s: LoopState, uninitialized: int) {
    forall k: nat :: Loop(s, k, uninitialized).Some? && !Loop(s, k, uninitialized).value.eof
  }

  /** How the loop ends, and with which map: at the end of the file, in an exception of the body,
      or never, at a state that the body does not change. */
  ghost predicate EndsAs(s: LoopState, end: End, m: Contents, uninitialized: int) {
    match end
    case Loaded => exists k: nat :: AtEnd(Loop(s, k, uninitialized), m)
    case StoiFailed => exists k: nat :: AtException(Loop(s, k, uninitialized), m, uninitialized)
    case NeverEnds =>
      LoopsForever(s, uninitialized) && exists k: nat :: AtFixedPoint(Loop(s, k, uninitialized), m, uninitialized)
  }

  predicate AtEnd(o: Option<LoopState>, m: Contents) { o.Some? && o.value.eof && o.value.loaded == m }

  predicate AtException(o: Option<LoopState>, m: Contents, uninitialized: int) {
    o.Some? && !o.value.eof && o.value.loaded == m && LoopBody(o.value, uninitialized) == None
  }

  predicate AtFixedPoint(o: Option<LoopState>, m: Contents, uninitialized: int) {
    o.Some? && !o.value.eof && o.value.loaded == m && LoopBody(o.value, uninitialized) == Some(o.value)
  }

  lemma {:induction false} FixedPointStays(s: LoopState, k: nat, uninitialized: int)
    requires LoopBody(s, uninitialized) == Some(s)
    ensures Loop(s, k, uninitialized) == Some(s)
  {
    hide LoopBody;
    if k > 0 {
      FixedPointStays(s, k - 1, uninitialized);
    }
  }

  lemma EndsHere(s: LoopState, uninitialized: int)
    ensures s.eof ==> EndsAs(s, Loaded, s.loaded, uninitialized)
    ensures !s.eof && LoopBody(s, uninitialized) == None ==> EndsAs(s, StoiFailed, s.loaded, uninitialized)
    ensures !s.eof && LoopBody(s, uninitialized) == Some(s) ==> EndsAs(s, NeverEnds, s.loaded, uninitialized)
  {
    hide LoopBody;
    assert Loop(s, 0, uninitialized) == Some(s);
    if s.eof {
      assert AtEnd(Loop(s, 0, uninitialized), s.loaded);
    } else if LoopBody(s, uninitialized) == None {
      assert AtException(Loop(s, 0, uninitialized), s.loaded, uninitialized);
    } else if LoopBody(s, uninitialized) == Some(s) {
      assert AtFixedPoint(Loop(s, 0, uninitialized), s.loaded, uninitialized);
      forall k: nat ensures Loop(s, k, uninitialized) == Some(s) {
        FixedPointStays(s, k, uninitialized);
      }
    }
  }

  /** The loop ends as it does after one iteration. */
  lemma EndsLater(s: LoopState, t: LoopState, end: End, m: Contents, uninitialized: int)
    requires !s.eof && LoopBody(s, uninitialized) == Some(t) && EndsAs(t, end, m, uninitialized)
    ensures EndsAs(s, end, m, uninitialized)
  {
    hide LoopBody, AtEnd, AtException, AtFixedPoint;
    forall k: nat ensures Loop(s, k + 1, uninitialized) == Loop(t, k, uninitialized) {}
    match end
    case Loaded =>
      var k: nat :| AtEnd(Loop(t, k, uninitialized), m);
      assert AtEnd(Loop(s, k + 1, uninitialized), m);
    case StoiFailed =>
      var k: nat :| AtException(Loop(t, k, uninitialized), m, uninitialized);
      assert AtException(Loop(s, k + 1, uninitialized), m, uninitialized);
    case NeverEnds =>
      var k: nat :| AtFixedPoint(Loop(t, k, uninitialized), m, uninitialized);
      assert AtFixedPoint(Loop(s, k + 1, uninitialized), m, uninitialized);
      forall k: nat ensures Loop(s, k, uninitialized).Some? && !Loop(s, k, uninitialized).value.eof {
        assert k > 0 ==> Loop(s, k, uninitialized) == Loop(t, k - 1, uninitialized);
      }
  }

  /** A line that starts with no printable ASCII character is looked at forever: there, and only
      there, the body leaves the stream, the mode and the map as they are. */
  lemma UnprintableStays(s: LoopState, uninitialized: int)
    requires !s.eof && s.lines != []
    ensures var stays := s.lines[0] == "" || s.lines[0][0] < '\U{0020}' || s.lines[0][0] > '\U{007E}';
            (LoopBody(s, uninitialized) == Some(s) <==> stays) && (LoopsForever(s, uninitialized) <== stays)
  {
    hide Values, ReadObstacle, LoopsForever;
    ObstacleConsumes(s.lines, uninitialized);
    if LoopBody(s, uninitialized) == Some(s) {
      EndsHere(s, uninitialized);
    }
  }

  /** What reading the lines gives is how the loop ends. */
  lemma {:induction false} RestIsLoop(lines: seq<string>, readingWaypoints: bool, m: Contents, uninitialized: int)
    ensures var (end, read) := ReadRest(lines, readingWaypoints, m, uninitialized);
            EndsAs(LoopState(lines, false, readingWaypoints, m), end, read, uninitialized)
    decreases |lines|
  {
    hide Loop, EndsAs, ReadObstacle, Values, HitsEnd;
    var s := LoopState(lines, false, readingWaypoints, m);
    EndsHere(s, uninitialized);
    if lines == [] {
      EndsHere(s.(eof := true), uninitialized);
      EndsLater(s, s.(eof := true), Loaded, m, uninitialized);
    } else if lines[0] != "" && (lines[0][0] == '-' || IsPrint(lines[0][0])) && LoopBody(s, uninitialized).Some? {
      var t := LoopBody(s, uninitialized).value;
      var (end, read) := ReadRest(lines, readingWaypoints, m, uninitialized);
      ObstacleConsumes(lines, uninitialized);
      RestStep(s, uninitialized);
      if t.eof {
        NothingAfterEnd(lines, uninitialized);
        AtEndOfFile(t.readingWaypoints, t.loaded, uninitialized);
        EndsHere(t, uninitialized);
      } else {
        RestIsLoop(t.lines, t.readingWaypoints, t.loaded, uninitialized);
      }
      EndsLater(s, t, end, read, uninitialized);
    }
  }

  lemma NothingAfterEnd(lines: seq<string>, uninitialized: int)
    requires lines != [] && HitsEnd(lines) && ReadObstacle(lines, uninitialized).Some?
    ensures ReadObstacle(lines, uninitialized).value.1 == []
  {
    var n := if Integer(lines[0]).value < 0 then 0 else Integer(lines[0]).value;
    SkipShortens(n, lines[1..]);
  }

  class SparseMap {
    var Corner1: Point
    var Corner2: Point
    var Obstacles: seq<Obstacle>
    var LastComputedPath: seq<Point>

    constructor (corner1: Point, corner2: Point)
      ensures Value() == Contents(corner1, corner2, [], [])
    {
      Corner1, Corner2 := corner1, corner2;
      Obstacles, LastComputedPath := [], [];
    }

    function Value(): Contents
      reads this
    {
      Contents(Corner1, Corner2, Obstacles, LastComputedPath)
    }

    method Serialize() returns (outputStream: string)
      ensures outputStream == Unlines(FileLines(Value()))
    {
      hide PointLine, ObstacleLines;
      ghost var path := PathLines(LastComputedPath);
      ghost var body := ObstacleFile(Obstacles) + path;
      ghost var whole := Unlines(FileLines(Value()));
      ThreeLines(PointLine(Corner1), PointLine(Corner2), "", body);
      outputStream := SerializePoint("", Corner1);
      outputStream := SerializePoint(outputStream, Corner2);
      outputStream := outputStream + "\n";
      for i := 0 to |Obstacles|
        invariant outputStream + Unlines(ObstacleFile(Obstacles[i..]) + path) == whole
      {
        ObstaclesFirst(outputStream, Obstacles, i, path);
        outputStream := SerializeObstacle(outputStream, Obstacles[i]);
      }
      assert ObstacleFile(Obstacles[|Obstacles|..]) + path == path;
      UnlinesFirst(outputStream, "-", PointLines(LastComputedPath));
      outputStream := outputStream + ("-" + "\n");
      for i := 0 to |LastComputedPath|
        invariant outputStream + Unlines(PointLines(LastComputedPath[i..])) == whole
      {
        PointLinesFirst(LastComputedPath, i, []);
        NoMore(PointLines(LastComputedPath[i..]));
        NoMore(PointLines(LastComputedPath[i + 1..]));
        UnlinesFirst(outputStream, PointLine(LastComputedPath[i]), PointLines(LastComputedPath[i + 1..]));
        outputStream := SerializePoint(outputStream, LastComputedPath[i]);
      }
      assert outputStream + "" == outputStream;
    }

    /** The state in the loop of the reader. */
    ghost function InLoop(inputStream: Stream, readingWaypoints: bool): LoopState
      reads this, inputStream
    {
      LoopState(Lines(inputStream.text), inputStream.eof, readingWaypoints, Value())
    }

    /** The body of the loop; it tells whether it has ended in an exception, and whether it has
        done nothing. */
    method ReadNext(inputStream: Stream, readingWaypoints0: bool, uninitialized: int)
      returns (readingWaypoints: bool, failed: bool, idle: bool)
      requires inputStream.Valid() && !inputStream.eof
      modifies this, inputStream
      ensures inputStream.Valid()
      ensures match LoopBody(old(InLoop(inputStream, readingWaypoints0)), uninitialized)
              case None => failed && !idle && Value() == old(Value())
              case Some(t) =>
                && !failed && InLoop(inputStream, readingWaypoints) == t
                && idle == (t == old(InLoop(inputStream, readingWaypoints0)))
      ensures !failed && !idle ==> inputStream.eof || |Lines(inputStream.text)| < |Lines(old(inputStream.text))|
    {
      hide Lines, Values, Terminated, ReadObstacle, HitsEnd;
      readingWaypoints, failed, idle := readingWaypoints0, false, false;
      var nextChar := inputStream.Peek();
      if nextChar.None? {
        NoLines();
        return;
      }
      PeekedCharacter(inputStream.text);
      if nextChar.value == '-' {
        readingWaypoints := true;
        var line := inputStream.GetLine("");
      } else if IsPrint(nextChar.value) {
        if !readingWaypoints {
          ObstacleConsumes(Lines(inputStream.text), uninitialized);
          var obstacle := DeserializeObstacle(inputStream, uninitialized);
          if obstacle.None? {
            failed := true;
            return;
          }
          Obstacles := Obstacles + [obstacle.value];
        } else {
          var point := DeserializePoint(inputStream, uninitialized);
          LastComputedPath := LastComputedPath + [point];
        }
      } else {
        idle := true;
      }
    }

    /** Where the source would iterate forever, `NeverEnds` is returned instead. */
    method Deserialize(inputStream: Stream, uninitialized: int) returns (end: End)
      requires inputStream.Valid()
      modifies this, inputStream
      ensures (end, Value()) == ReadFile(Lines(old(inputStream.text)), old(Value()), uninitialized)
      ensures EndsAs(AfterCorners(Lines(old(inputStream.text)), old(Value()), uninitialized), end, Value(),
                     uninitialized)
    {
      hide Lines, Values, Terminated, LoopBody, EndsAs;
      ghost var start := AfterCorners(Lines(inputStream.text), Value(), uninitialized);
      FileIsLoop(Lines(inputStream.text), Value(), uninitialized);
      Corner1 := DeserializePoint(inputStream, uninitialized);
      Corner2 := DeserializePoint(inputStream, uninitialized);
      var line := inputStream.GetLine("");
      var readingWaypoints := false;
      ghost var outcome := ReadRest(start.lines, false, start.loaded, uninitialized);
      while !inputStream.eof
        invariant inputStream.Valid()
        invariant outcome == ReadRest(Lines(inputStream.text), readingWaypoints, Value(), uninitialized)
        decreases !inputStream.eof, |Lines(inputStream.text)|
      {
        ghost var s := InLoop(inputStream, readingWaypoints);
        RestStep(s, uninitialized);
        var failed, idle;
        readingWaypoints, failed, idle := ReadNext(inputStream, readingWaypoints, uninitialized);
        if failed {
          return StoiFailed;
        }
        if idle {
          return NeverEnds;
        }
      }
      AtEndOfFile(readingWaypoints, Value(), uninitialized);
      end := Loaded;
    }
  }

  /** The loop begins after the corners and a line, perhaps at the end of the file. */
  function AfterCorners(lines: seq<string>, m: Contents, uninitialized: int): LoopState {
    var corner1, corner2 := Values(Head(lines), uninitialized), Values(Head(Tail(lines)), uninitialized);
    LoopState(Tail(Tail(Tail(lines))), |lines| < 3, false, m.(corner1 := corner1, corner2 := corner2))
  }

  lemma FileIsLoop(lines: seq<string>, m: Contents, uninitialized: int)
    ensures var (end, read) := ReadFile(lines, m, uninitialized);
            EndsAs(AfterCorners(lines, m, uninitialized), end, read, uninitialized)
  {
    hide Values, LoopBody, EndsAs;
    var s := AfterCorners(lines, m, uninitialized);
    if s.eof {
      EndsHere(s, uninitialized);
    } else {
      RestIsLoop(s.lines, false, s.loaded, uninitialized);
    }
  }

  lemma AtEndOfFile(readingWaypoints: bool, m: Contents, uninitialized: int)
    ensures ReadRest([], readingWaypoints, m, uninitialized) == (Loaded, m)
  {}

  lemma RestStep(s: LoopState, uninitialized: int)
    requires !s.eof
    ensures var rest := ReadRest(s.lines, s.readingWaypoints, s.loaded, uninitialized);
            match LoopBody(s, uninitialized)
            case None => rest == (StoiFailed, s.loaded)
            case Some(t) =>
              if t == s then rest == (NeverEnds, s.loaded)
              else rest == ReadRest(t.lines, t.readingWaypoints, t.loaded, uninitialized)
  {
    hide Values;
    if s.lines != [] {
      ObstacleConsumes(s.lines, uninitialized);
      hide ReadObstacle;
    }
  }

  lemma NoLines()
    ensures Lines("") == []
  {}

  lemma NoMore(lines: seq<string>)
    ensures lines + [] == lines
  {}

  lemma ThreeLines(a: string, b: string, c: string, lines: seq<string>)
    ensures Unlines([a, b, c] + lines) == "" + (a + "\n") + (b + "\n") + (c + "\n") + Unlines(lines)
  {
    assert [a, b, c] + lines == [a] + ([b] + ([c] + lines));
    UnlinesFirst("", a, [b] + ([c] + lines));
    UnlinesFirst("" + (a + "\n"), b, [c] + lines);
    UnlinesFirst("" + (a + "\n") + (b + "\n"), c, lines);
  }

  lemma {:induction false} UnlinesOfTwo(first: seq<string>, second: seq<string>)
    ensures Unlines(first + second) == Unlines(first) + Unlines(second)
  {
    if first == [] {
      assert first + second == second;
    } else {
      assert (first + second)[1..] == first[1..] + second;
      UnlinesOfTwo(first[1..], second);
    }
  }

  lemma ObstaclesFirst(stream: string, obstacles: seq<Obstacle>, i: nat, lines: seq<string>)
    requires i < |obstacles|
    ensures stream + Unlines(ObstacleFile(obstacles[i..]) + lines) ==
            stream + Unlines(ObstacleLines(obstacles[i])) + Unlines(ObstacleFile(obstacles[i + 1..]) + lines)
  {
    hide ObstacleLines;
    assert obstacles[i..][1..] == obstacles[i + 1..];
    var first, rest := ObstacleLines(obstacles[i]), ObstacleFile(obstacles[i + 1..]);
    assert first + rest + lines == first + (rest + lines);
    UnlinesOfTwo(first, rest + lines);
  }

  // ---------- Reading back ----------

  lemma PrintStarts(x: int)
    ensures Print(x) != "" && (Print(x)[0] == '-') == (x < 0) && IsPrint(Print(x)[0])
  {
    PrintReads(x);
  }

  lemma PointStarts(point: Point)
    requires point != []
    ensures var line := PointLine(point);
            line != "" && (line[0] == '-') == (point[0] < 0) && IsPrint(line[0])
  {
    PrintStarts(point[0]);
  }

  /** No point is empty. */
  predicate Proper(path: seq<Point>) { forall i :: 0 <= i < |path| ==> path[i] != [] }

  /** The points whose first coordinate is not printed with a dash. */
  function Kept(path: seq<Point>): seq<Point>
    requires Proper(path)
  {
    if path == [] then []
    else if path[0][0] < 0 then Kept(path[1..])
    else [path[0]] + Kept(path[1..])
  }

  lemma OneWaypoint(point: Point, lines: seq<string>, m: Contents, uninitialized: int)
    requires point != []
    ensures ReadRest([PointLine(point)] + lines, true, m, uninitialized) ==
            ReadRest(lines, true, if point[0] < 0 then m else m.(path := m.path + [point]), uninitialized)
  {
    hide PointLine, Values, ReadObstacle;
    PointStarts(point);
    PointReads(point, uninitialized);
    assert ([PointLine(point)] + lines)[1..] == lines;
  }

  lemma KeptFirst(path: seq<Point>, before: seq<Point>)
    requires path != [] && Proper(path)
    ensures before + Kept(path) ==
            (if path[0][0] < 0 then before else before + [path[0]]) + Kept(path[1..])
  {
    Associate(before, [path[0]], Kept(path[1..]));
  }

  lemma {:induction false} PathReads(path: seq<Point>, m: Contents, uninitialized: int)
    requires Proper(path)
    ensures ReadRest(PointLines(path), true, m, uninitialized) == (Loaded, m.(path := m.path + Kept(path)))
  {
    if path == [] {
      assert m.path + [] == m.path;
    } else {
      hide ReadRest, PointLine, Kept;
      OneWaypoint(path[0], PointLines(path[1..]), m, uninitialized);
      var n := if path[0][0] < 0 then m else m.(path := m.path + [path[0]]);
      PathReads(path[1..], n, uninitialized);
      KeptFirst(path, m.path);
    }
  }

  lemma {:induction false} EmptyPointStops(path: seq<Point>, k: nat, m: Contents, uninitialized: int)
    requires k < |path| && path[k] == []
    ensures ReadRest(PointLines(path), true, m, uninitialized).0 == NeverEnds
    decreases |path|
  {
    if path[0] != [] {
      hide ReadRest, PointLine;
      OneWaypoint(path[0], PointLines(path[1..]), m, uninitialized);
      var n := if path[0][0] < 0 then m else m.(path := m.path + [path[0]]);
      EmptyPointStops(path[1..], k - 1, n, uninitialized);
    }
  }

  /** A point without coordinates is an empty line, at which the loop stays forever. */
  lemma EmptyPointNeverEnds(m: Contents, k: nat, into: Contents, uninitialized: int)
    requires k < |m.path| && m.path[k] == []
    ensures ReadFile(FileLines(m), into, uninitialized).0 == NeverEnds
    ensures LoopsForever(AfterCorners(FileLines(m), into, uninitialized), uninitialized)
  {
    hide ReadRest, LoopBody, LoopsForever, ReadFile, FileLines, AfterCorners;
    FileReads(m, into, uninitialized);
    EmptyPointStops(m.path, k, WithoutPath(m, into), uninitialized);
    FileIsLoop(FileLines(m), into, uninitialized);
  }

  lemma {:induction false} CornersRead(corners: seq<Point>, lines: seq<string>, uninitialized: int)
    ensures Corners(|corners|, PointLines(corners) + lines, uninitialized) == corners
    ensures Skip(|corners|, PointLines(corners) + lines) == lines
    ensures |PointLines(corners)| == |corners|
  {
    var all := PointLines(corners) + lines;
    if corners == [] {
      assert all == lines;
    } else {
      hide PointLine, Values;
      assert all[1..] == PointLines(corners[1..]) + lines;
      PointReads(corners[0], uninitialized);
      CornersRead(corners[1..], lines, uninitialized);
    }
  }

  lemma ObstacleReads(o: Obstacle, lines: seq<string>, uninitialized: int)
    ensures ReadObstacle(ObstacleLines(o) + lines, uninitialized) == Some((o, lines))
  {
    hide Print, Integer, PointLine, PointLines, Skip, Corners;
    var all := ObstacleLines(o) + lines;
    var after := [Print(o.severity)] + lines;
    PrintReads(|o.corners|);
    PrintReads(o.severity);
    CornersRead(o.corners, after, uninitialized);
    assert all[1..] == PointLines(o.corners) + after;
    assert after[1..] == lines;
  }

  lemma OneObstacle(o: Obstacle, lines: seq<string>, m: Contents, uninitialized: int)
    ensures ReadRest(ObstacleLines(o) + lines, false, m, uninitialized) ==
            ReadRest(lines, false, m.(obstacles := m.obstacles + [o]), uninitialized)
  {
    ObstacleReads(o, lines, uninitialized);
    PrintStarts(|o.corners|);
    var all := ObstacleLines(o) + lines;
    assert all[0] == Print(|o.corners|);
    hide Print, ReadObstacle, ObstacleLines;
  }

  lemma {:induction false} ObstaclesRead(obstacles: seq<Obstacle>, lines: seq<string>, m: Contents, uninitialized: int)
    ensures ReadRest(ObstacleFile(obstacles) + lines, false, m, uninitialized) ==
            ReadRest(lines, false, m.(obstacles := m.obstacles + obstacles), uninitialized)
  {
    hide ReadRest, ObstacleLines;
    if obstacles == [] {
      assert ObstacleFile(obstacles) + lines == lines;
      assert m.obstacles + [] == m.obstacles;
    } else {
      var first, rest := ObstacleLines(obstacles[0]), ObstacleFile(obstacles[1..]);
      assert first + rest + lines == first + (rest + lines);
      OneObstacle(obstacles[0], rest + lines, m, uninitialized);
      var n := m.(obstacles := m.obstacles + [obstacles[0]]);
      ObstaclesRead(obstacles[1..], lines, n, uninitialized);
      assert n.obstacles + obstacles[1..] == m.obstacles + obstacles;
    }
  }

  /** A map after reading the file of another one up to its path. */
  function WithoutPath(m: Contents, into: Contents): Contents {
    m.(obstacles := into.obstacles + m.obstacles, path := into.path)
  }

  /** What a file that was written is read as, up to its path. */
  lemma FileReads(m: Contents, into: Contents, uninitialized: int)
    ensures ReadFile(FileLines(m), into, uninitialized) ==
            ReadRest(PointLines(m.path), true, WithoutPath(m, into), uninitialized)
  {
    hide PointLine, Values, ReadObstacle, PointLines;
    var body := ObstacleFile(m.obstacles) + PathLines(m.path);
    var lines := FileLines(m);
    assert lines[1..][1..][1..] == body;
    PointReads(m.corner1, uninitialized);
    PointReads(m.corner2, uninitialized);
    var start := into.(corner1 := m.corner1, corner2 := m.corner2);
    ObstaclesRead(m.obstacles, PathLines(m.path), start, uninitialized);
    DashBeginsPath(PointLines(m.path), WithoutPath(m, into), uninitialized);
  }

  lemma DashBeginsPath(lines: seq<string>, m: Contents, uninitialized: int)
    ensures ReadRest(["-"] + lines, false, m, uninitialized) == ReadRest(lines, true, m, uninitialized)
  {
    assert (["-"] + lines)[1..] == lines;
  }

  /** The corners are replaced; the obstacles, and the points of the path that do not start
      negative, are added to those that the map holds. */
  lemma RoundTrip(m: Contents, into: Contents, uninitialized: int)
    requires Proper(m.path)
    ensures ReadFile(FileLines(m), into, uninitialized) ==
            (Loaded, m.(obstacles := into.obstacles + m.obstacles, path := into.path + Kept(m.path)))
  {
    FileReads(m, into, uninitialized);
    PathReads(m.path, WithoutPath(m, into), uninitialized);
  }

  predicate NoneNegative(path: seq<Point>)
    requires Proper(path)
  {
    forall i :: 0 <= i < |path| ==> path[i][0] >= 0
  }

  predicate AllNegative(path: seq<Point>)
    requires Proper(path)
  {
    forall i :: 0 <= i < |path| ==> path[i][0] < 0
  }

  /** Exactly the first n points start negative. */
  predicate NegativeUpTo(path: seq<Point>, n: nat)
    requires Proper(path)
  {
    forall i :: 0 <= i < |path| ==> (path[i][0] < 0 <==> i < n)
  }

  lemma {:induction false} KeptNegative(path: seq<Point>)
    requires Proper(path)
    ensures Kept(path) == [] <==> AllNegative(path)
  {
    if path != [] {
      KeptNegative(path[1..]);
      assert path == [path[0]] + path[1..];
    }
  }

  lemma {:induction false} KeptIsProper(path: seq<Point>)
    requires Proper(path)
    ensures Proper(Kept(path)) && NoneNegative(Kept(path))
  {
    if path != [] {
      KeptIsProper(path[1..]);
    }
  }

  lemma {:induction false} KeptWhole(path: seq<Point>)
    requires Proper(path) && NoneNegative(path)
    ensures Kept(path) == path
  {
    if path != [] {
      KeptWhole(path[1..]);
    }
  }

  lemma {:induction false} KeptOfTwo(first: seq<Point>, second: seq<Point>)
    requires Proper(first) && Proper(second)
    ensures Kept(first + second) == Kept(first) + Kept(second)
  {
    if first == [] {
      assert first + second == second;
    } else {
      assert (first + second)[1..] == first[1..] + second;
      KeptOfTwo(first[1..], second);
    }
  }

  lemma NegativeInTwo(held: seq<Point>, added: seq<Point>)
    requires Proper(held) && Proper(added)
    ensures NegativeUpTo(held + added, |held|) <==> AllNegative(held) && NoneNegative(added)
  {
    var path := held + added;
    assert forall i :: 0 <= i < |held| ==> path[i] == held[i];
    assert forall i :: 0 <= i < |added| ==> path[|held| + i] == added[i];
  }

  lemma KeptAfterHeld(held: seq<Point>, added: seq<Point>)
    requires Proper(held) && Proper(added)
    ensures Kept(held + added) == added <==> NegativeUpTo(held + added, |held|)
  {
    hide Kept, Proper, NoneNegative, AllNegative, NegativeUpTo;
    KeptOfTwo(held, added);
    NegativeInTwo(held, added);
    KeptNegative(held);
    ProperOfTwo(held, added);
    if Kept(held + added) == added {
      KeptIsProper(held + added);
      KeptWhole(added);
    } else if NoneNegative(added) {
      KeptWhole(added);
    }
  }

  lemma ProperOfTwo(first: seq<Point>, second: seq<Point>)
    ensures Proper(first + second) <==> Proper(first) && Proper(second)
  {
    var path := first + second;
    assert forall i :: 0 <= i < |first| ==> path[i] == first[i];
    assert forall i :: 0 <= i < |second| ==> path[|first| + i] == second[i];
  }

  lemma KeptAfter(held: seq<Point>, path: seq<Point>)
    requires Proper(path)
    ensures held + Kept(path) == path <==> held <= path && NegativeUpTo(path, |held|)
  {
    hide Kept, Proper, NegativeUpTo;
    if held <= path {
      var added := path[|held|..];
      assert path == held + added;
      ProperOfTwo(held, added);
      KeptAfterHeld(held, added);
      assert (held + Kept(path))[|held|..] == Kept(path);
    }
  }

  /** A map is read back as it was if and only if the map that it is read into has no obstacles,
      every point of the path has a coordinate, and the path begins with the points that the other
      map holds, which are exactly its points that start negative.  For an empty map to read into:
      every point has a coordinate and none starts negative. */
  lemma IdentityExactly(m: Contents, into: Contents, uninitialized: int)
    ensures ReadFile(FileLines(m), into, uninitialized) == (Loaded, m) <==>
            && Proper(m.path) && into.obstacles == [] && into.path <= m.path && NegativeUpTo(m.path, |into.path|)
  {
    hide ReadFile, ReadRest, FileLines, Kept, NegativeUpTo;
    if k :| 0 <= k < |m.path| && m.path[k] == [] {
      EmptyPointNeverEnds(m, k, into, uninitialized);
    } else {
      RoundTrip(m, into, uninitialized);
      KeptAfter(into.path, m.path);
      assert |into.obstacles + m.obstacles| == |into.obstacles| + |m.obstacles|;
      assert [] + m.obstacles == m.obstacles;
    }
  }

  /** What the map held before is not replaced: a file that is read back as it was into an empty
      map is not if that map has an obstacle. */
  lemma HeldStays(o: Obstacle, uninitialized: int)
    ensures var m := Contents([0], [9], [], []);
            && ReadFile(FileLines(m), Contents([], [], [], []), uninitialized) == (Loaded, m)
            && ReadFile(FileLines(m), Contents([], [], [o], []), uninitialized) == (Loaded, m.(obstacles := [o]))
  {
    hide ReadFile, FileLines;
    var m := Contents([0], [9], [], []);
    var empty, held := Contents([], [], [], []), Contents([], [], [o], []);
    RoundTrip(m, empty, uninitialized);
    RoundTrip(m, held, uninitialized);
    assert Kept(m.path) == [];
    assert empty.obstacles + m.obstacles == [] && held.obstacles + m.obstacles == [o];
    assert empty.path + [] == [] && held.path + [] == [];
  }

  // ---------- The text of the file ----------

  lemma {:induction false} PointLineNoNewline(point: Point)
    ensures '\n' !in PointLine(point)
  {
    if point != [] {
      NumberToken(point[0], 0);
      PointLineNoNewline(point[1..]);
    }
  }

  lemma {:induction false} PointLinesNoNewlines(points: seq<Point>)
    ensures NoNewlines(PointLines(points))
  {
    if points != [] {
      PointLineNoNewline(points[0]);
      PointLinesNoNewlines(points[1..]);
    }
  }

  lemma {:induction false} ObstacleFileNoNewlines(obstacles: seq<Obstacle>)
    ensures NoNewlines(ObstacleFile(obstacles))
  {
    if obstacles != [] {
      hide Print;
      NumberToken(|obstacles[0].corners|, 0);
      NumberToken(obstacles[0].severity, 0);
      PointLinesNoNewlines(obstacles[0].corners);
      ObstacleFileNoNewlines(obstacles[1..]);
    }
  }

  /** The lines of the text that `Serialize` writes are the lines of the map. */
  lemma TextHasLines(m: Contents)
    ensures Terminated(Unlines(FileLines(m))) && Lines(Unlines(FileLines(m))) == FileLines(m)
  {
    hide PointLine, ObstacleFile, PointLines;
    PointLineNoNewline(m.corner1);
    PointLineNoNewline(m.corner2);
    ObstacleFileNoNewlines(m.obstacles);
    PointLinesNoNewlines(m.path);
    LinesOfUnlines(FileLines(m));
  }
}
