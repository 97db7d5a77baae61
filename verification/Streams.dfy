/** Files read line by line: a text in which every line is ended by a newline. */
module Streams {
  import opened Text

  function Lines(text: string): seq<string>
    decreases |text|
  {
    if text == "" then []
    else
      var k := Find(text, '\n');
      if k == |text| then [text] else [text[..k]] + Lines(text[k + 1..])
  }

  predicate Terminated(text: string) { text == "" || text[|text| - 1] == '\n' }

  function Head(lines: seq<string>): string { if lines == [] then "" else lines[0] }

  function Tail(lines: seq<string>): seq<string> { if lines == [] then [] else lines[1..] }

  class Stream {
    var text: string
    var eof: bool

    ghost predicate Valid()
      reads this
    {
      Terminated(text) && (eof ==> Lines(text) == [])
    }

    constructor (text: string)
      requires Terminated(text)
      ensures Valid() && this.text == text && !eof
    {
      this.text := text;
      eof := false;
    }

    /** Reads a line into a string that holds `previous`.  The first attempt at the end of the
        file empties the string and is remembered; the later ones leave the string alone. */
    method GetLine(previous: string) returns (line: string)
      requires Valid()
      modifies this
      ensures Valid() && Lines(text) == Tail(Lines(old(text)))
      ensures eof == (Lines(old(text)) == [])
      ensures line == if old(eof) then previous else Head(Lines(old(text)))
    {
      if eof {
        return previous;
      }
      if text == "" {
        eof := true;
        return "";
      }
      FindFirst(text, '\n');
      var k := Find(text, '\n');
      line, text := text[..k], text[k + 1..];
    }

    /** The next character, nothing at the end of the file. */
    method Peek() returns (c: Option<char>)
      requires Valid()
      modifies this`eof
      ensures Valid() && eof == (text == "")
      ensures c == if text == "" then None else Some(text[0])
    {
      if text == "" {
        eof := true;
        return None;
      }
      c := Some(text[0]);
    }
  }

  // ---------- Writing lines ----------

  function Unlines(lines: seq<string>): string {
    if lines == [] then "" else lines[0] + ("\n" + Unlines(lines[1..]))
  }

  predicate NoNewlines(lines: seq<string>) {
    forall i :: 0 <= i < |lines| ==> '\n' !in lines[i]
  }

  lemma FirstLine(line: string, rest: string)
    requires '\n' !in line
    ensures Lines(line + ("\n" + rest)) == [line] + Lines(rest)
  {
    var text := line + ("\n" + rest);
    FindAfter(line, "\n" + rest, '\n');
    assert text[..|line|] == line && text[|line| + 1..] == rest;
  }

  lemma {:induction false} LinesOfUnlines(lines: seq<string>)
    requires NoNewlines(lines)
    ensures Lines(Unlines(lines)) == lines && Terminated(Unlines(lines))
  {
    if lines != [] {
      LinesOfUnlines(lines[1..]);
      FirstLine(lines[0], Unlines(lines[1..]));
    }
  }
}
