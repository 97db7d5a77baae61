/** The XML that Google Test writes: escaped text and CDATA sections, with the decoders of an
    XML processor (sections 2.7, 2.11, 3.3.3 and 4.6 of XML 1.0).  Text is 7-bit. */
module Xml {
  import opened Text

  // ---------- Characters ----------

  predicate IsNormalizableWhitespace(c: char) { c == '\t' || c == '\n' || c == '\r' }

  /** For 7-bit characters; a byte with the high bit set is negative as a signed char. */
  predicate IsValidXmlCharacter(c: char) {
    IsNormalizableWhitespace(c) || '\U{0020}' <= c < '\U{0080}'
  }

  function ValidPart(s: string): string {
    if s == "" then ""
    else
      (if IsValidXmlCharacter(s[0]) then [s[0]] else "") + ValidPart(s[1..])
  }

  lemma {:induction false} ValidPartAppend(s: string, c: char)
    ensures ValidPart(s + [c]) == ValidPart(s) + if IsValidXmlCharacter(c) then [c] else ""
  {
    if s == "" {
      assert s + [c] == [c];
    } else {
      ValidPartAppend(s[1..], c);
      assert (s + [c])[1..] == s[1..] + [c];
    }
  }

  method RemoveInvalidXmlCharacters(str: string) returns (output: string)
    ensures output == ValidPart(str)
  {
    output := "";
    for i := 0 to |str|
      invariant output == ValidPart(str[..i])
    {
      ValidPartAppend(str[..i], str[i]);
      assert str[..i + 1] == str[..i] + [str[i]];
      if IsValidXmlCharacter(str[i]) {
        output := output + [str[i]];
      }
    }
    assert str[..|str|] == str;
  }

  function HexDigit(d: nat): char
    requires d < 16
  {
    if d < 10 then '0' + d as char else 'A' + (d - 10) as char
  }

  /** Two upper-case hexadecimal digits. */
  function FormatByte(c: char): string
    requires c < '\U{0100}'
  {
    [HexDigit(c as nat / 16), HexDigit(c as nat % 16)]
  }

  // ---------- Escaping ----------

  function EscapeChar(c: char, isAttribute: bool): string {
    match c
    case '<' => "&lt;"
    case '>' => "&gt;"
    case '&' => "&amp;"
    case '\'' => if isAttribute then "&apos;" else "'"
    case '"' => if isAttribute then "&quot;" else "\""
    case _ =>
      if !IsValidXmlCharacter(c) then ""
      else if isAttribute && IsNormalizableWhitespace(c) then "&#x" + FormatByte(c) + ";"
      else [c]
  }

  function Escaped(s: string, isAttribute: bool): string {
    if s == "" then "" else EscapeChar(s[0], isAttribute) + Escaped(s[1..], isAttribute)
  }

  lemma {:induction false} EscapedAppend(s: string, c: char, isAttribute: bool)
    ensures Escaped(s + [c], isAttribute) == Escaped(s, isAttribute) + EscapeChar(c, isAttribute)
  {
    if s == "" {
      assert s + [c] == [c];
    } else {
      EscapedAppend(s[1..], c, isAttribute);
      assert (s + [c])[1..] == s[1..] + [c];
      Associate(EscapeChar(s[0], isAttribute), Escaped(s[1..], isAttribute), EscapeChar(c, isAttribute));
    }
  }

  method EscapeXml(str: string, isAttribute: bool) returns (m: string)
    ensures m == Escaped(str, isAttribute)
  {
    m := "";
    for i := 0 to |str|
      invariant m == Escaped(str[..i], isAttribute)
    {
      EscapedAppend(str[..i], str[i], isAttribute);
      assert str[..i + 1] == str[..i] + [str[i]];
      var ch := str[i];
      if ch == '<' {
        m := m + "&lt;";
      } else if ch == '>' {
        m := m + "&gt;";
      } else if ch == '&' {
        m := m + "&amp;";
      } else if ch == '\'' {
        m := m + if isAttribute then "&apos;" else "'";
      } else if ch == '"' {
        m := m + if isAttribute then "&quot;" else "\"";
      } else if IsValidXmlCharacter(ch) {
        if isAttribute && IsNormalizableWhitespace(ch) {
          m := m + ("&#x" + FormatByte(ch) + ";");
        } else {
          m := m + [ch];
        }
      }
    }
    assert str[..|str|] == str;
  }

  // ---------- The reader ----------

  /** Before anything else a carriage return, with a newline that follows it, becomes a newline. */
  function LineEnds(s: string): string {
    if s == "" then ""
    else if s[0] != '\r' then [s[0]] + LineEnds(s[1..])
    else if |s| > 1 && s[1] == '\n' then LineEnds(s[1..])
    else "\n" + LineEnds(s[1..])
  }

  lemma {:induction false} LineEndsExactly(s: string)
    ensures '\r' !in LineEnds(s)
    ensures LineEnds(s) == s <==> '\r' !in s
  {
    if s != "" {
      LineEndsExactly(s[1..]);
      assert s == [s[0]] + s[1..];
    }
  }

  /** Unless the parts meet between a carriage return and a newline. */
  lemma {:induction false} LineEndsOfTwo(a: string, b: string)
    requires a == "" || b == "" || a[|a| - 1] != '\r' || b[0] != '\n'
    ensures LineEnds(a + b) == LineEnds(a) + LineEnds(b)
  {
    if a == "" {
      assert a + b == b;
    } else {
      assert (a + b)[1..] == a[1..] + b;
      LineEndsOfTwo(a[1..], b);
    }
  }

  /** An attribute value as a processor reads it. */
  function ReadAttribute(s: string): Option<string> { DecodeAttribute(LineEnds(s)) }

  /** Content as a processor reads it. */
  function ReadContent(s: string): Option<string> { DecodeContent(LineEnds(s)) }

  function HexValue(c: char): Option<nat> {
    if '0' <= c <= '9' then Some((c - '0') as nat)
    else if 'A' <= c <= 'F' then Some((c - 'A') as nat + 10)
    else None
  }

  /** The character of an entity or character reference, and the length of the reference. */
  function Reference(s: string): Option<(char, nat)> {
    if "&lt;" <= s then Some(('<', 4))
    else if "&gt;" <= s then Some(('>', 4))
    else if "&amp;" <= s then Some(('&', 5))
    else if "&apos;" <= s then Some(('\'', 6))
    else if "&quot;" <= s then Some(('"', 6))
    else if "&#x" <= s && |s| >= 6 && s[5] == ';' && HexValue(s[3]).Some? && HexValue(s[4]).Some? then
      Some(((HexValue(s[3]).value * 16 + HexValue(s[4]).value) as char, 6))
    else None
  }

  /** Attribute-value normalisation: references are replaced, and white space that is written
      literally becomes a space.  `<` and quotes cannot occur. */
  function DecodeAttribute(s: string): Option<string>
    decreases |s|
  {
    if s == "" then Some("")
    else if s[0] == '&' then
      match Reference(s)
      case None => None
      case Some((c, n)) =>
        if n == 0 || n > |s| then None
        else match DecodeAttribute(s[n..]) case None => None case Some(t) => Some([c] + t)
    else if s[0] == '<' || s[0] == '"' || s[0] == '\'' || !IsValidXmlCharacter(s[0]) then None
    else
      match DecodeAttribute(s[1..])
      case None => None
      case Some(t) => Some([if IsNormalizableWhitespace(s[0]) then ' ' else s[0]] + t)
  }

  predicate IsReferenced(c: char) {
    c == '<' || c == '>' || c == '&' || c == '\'' || c == '"' || IsNormalizableWhitespace(c)
  }

  lemma ReferenceEscaped(c: char, rest: string)
    requires IsReferenced(c)
    ensures Reference(EscapeChar(c, true) + rest) == Some((c, |EscapeChar(c, true)|))
  {
    var s := EscapeChar(c, true) + rest;
    assert s[1] == EscapeChar(c, true)[1] && s[2] == EscapeChar(c, true)[2];
    if IsNormalizableWhitespace(c) {
      assert EscapeChar(c, true) == "&#x" + FormatByte(c) + ";";
      assert s[3] == FormatByte(c)[0] && s[4] == FormatByte(c)[1] && s[5] == ';';
    }
  }

  lemma DecodeOne(c: char, rest: string)
    requires c < '\U{0080}' && DecodeAttribute(rest).Some?
    ensures DecodeAttribute(EscapeChar(c, true) + rest) ==
            Some((if IsValidXmlCharacter(c) then [c] else "") + DecodeAttribute(rest).value)
  {
    var e := EscapeChar(c, true);
    var s := e + rest;
    if IsReferenced(c) {
      ReferenceEscaped(c, rest);
      assert s[0] == '&' && s[|e|..] == rest;
    } else if IsValidXmlCharacter(c) {
      assert s[0] == c && s[1..] == rest;
    } else {
      assert s == rest;
      assert "" + DecodeAttribute(rest).value == DecodeAttribute(rest).value;
    }
  }

  lemma {:induction false} AttributeDecodes(s: string)
    requires forall i :: 0 <= i < |s| ==> s[i] < '\U{0080}'
    ensures DecodeAttribute(Escaped(s, true)) == Some(ValidPart(s))
  {
    if s != "" {
      AttributeDecodes(s[1..]);
      DecodeOne(s[0], Escaped(s[1..], true));
    }
  }

  lemma {:induction false} AttributeHasNoReturn(s: string)
    ensures '\r' !in Escaped(s, true)
  {
    if s != "" {
      AttributeHasNoReturn(s[1..]);
      assert '\r' !in EscapeChar(s[0], true);
    }
  }

  /** An attribute value reads back as the text without the characters XML does not allow. */
  lemma AttributeRoundTrip(s: string)
    requires forall i :: 0 <= i < |s| ==> s[i] < '\U{0080}'
    ensures ReadAttribute(Escaped(s, true)) == Some(ValidPart(s))
  {
    AttributeHasNoReturn(s);
    LineEndsExactly(Escaped(s, true));
    AttributeDecodes(s);
  }

  // ---------- CDATA sections ----------

  const OPEN := "<![CDATA["
  const CLOSE := "]]>"
  const BETWEEN := "]]>]]&gt;<![CDATA["

  predicate AtClose(s: string) { |s| >= 3 && s[0] == ']' && s[1] == ']' && s[2] == '>' }

  /** The position of the first `]]>`, the length of s if there is none. */
  function FindClose(s: string): (k: nat)
    ensures k <= |s| && (k < |s| ==> k + 3 <= |s|)
  {
    if s == "" || AtClose(s) then 0 else 1 + FindClose(s[1..])
  }

  /** What stands between the opening and the final closing of the sections. */
  function Segments(data: string): string
    decreases |data|
  {
    var k := FindClose(data);
    if k == |data| then data
    else data[..k] + BETWEEN + Segments(data[k + 3..])
  }

  method OutputXmlCDataSection(before: string, data: string) returns (stream: string)
    ensures stream == before + OPEN + Segments(data) + CLOSE
  {
    var segment := data;
    stream := before + OPEN;
    while true
      invariant stream + Segments(segment) == before + OPEN + Segments(data)
      decreases |segment|
    {
      var nextSegment := FindClose(segment);
      if nextSegment != |segment| {
        ghost var rest := Segments(segment[nextSegment + 3..]);
        ConcatThree(stream, segment[..nextSegment], BETWEEN, rest);
        stream := stream + segment[..nextSegment];
        stream := stream + BETWEEN;
        segment := segment[nextSegment + 3..];
      } else {
        stream := stream + segment;
        break;
      }
    }
    stream := stream + CLOSE;
  }

  lemma ConcatThree(a: string, b: string, c: string, d: string)
    ensures a + (b + c + d) == ((a + b) + c) + d
  {}

  function Prepend(text: string, rest: Option<string>): Option<string> {
    match rest case None => None case Some(t) => Some(text + t)
  }

  /** Character data and CDATA sections, without elements. */
  function DecodeContent(s: string): Option<string>
    decreases |s|
  {
    if s == "" then Some("")
    else if OPEN <= s then DecodeSection(s[|OPEN|..])
    else if s[0] == '&' then
      match Reference(s)
      case None => None
      case Some((c, n)) => if n == 0 || n > |s| then None else Prepend([c], DecodeContent(s[n..]))
    else if s[0] == '<' || AtClose(s) then None
    else Prepend([s[0]], DecodeContent(s[1..]))
  }

  /** A CDATA section after its opening, and the content after the section. */
  function DecodeSection(x: string): Option<string>
    decreases |x|
  {
    var k := FindClose(x);
    if k == |x| then None else Prepend(x[..k], DecodeContent(x[k + 3..]))
  }

  lemma NotYetClosed(segment: string, rest: string)
    requires segment != "" && !AtClose(segment)
    ensures !AtClose(segment + CLOSE + rest)
  {
    var s := segment + CLOSE + rest;
    assert |segment| == 1 ==> s[2] == ']';
    assert |segment| == 2 ==> s[2] == ']';
    assert |segment| >= 3 ==> s[0] == segment[0] && s[1] == segment[1] && s[2] == segment[2];
  }

  /** A section without `]]>` ends where its text ends, also if that text ends in `]`. */
  lemma {:induction false} FirstClose(segment: string, rest: string)
    requires FindClose(segment) == |segment|
    ensures FindClose(segment + CLOSE + rest) == |segment|
  {
    var s := segment + CLOSE + rest;
    if segment == "" {
      assert AtClose(s);
    } else {
      assert s[1..] == segment[1..] + CLOSE + rest;
      FirstClose(segment[1..], rest);
      NotYetClosed(segment, rest);
    }
  }

  lemma {:induction false} NoCloseBefore(data: string)
    ensures var k := FindClose(data); FindClose(data[..k]) == k
    ensures var k := FindClose(data); k < |data| ==> data == data[..k] + CLOSE + data[k + 3..]
  {
    if data != "" && !AtClose(data) {
      NoCloseBefore(data[1..]);
      var k := FindClose(data);
      assert data[..k][1..] == data[1..][..k - 1];
    }
  }

  lemma Halves(a: string, b: string)
    ensures a <= a + b && (a + b)[..|a|] == a && (a + b)[|a|..] == b
  {}

  lemma SectionTail(segment: string, rest: string)
    requires FindClose(segment) == |segment|
    ensures DecodeSection(segment + CLOSE + rest) == Prepend(segment, DecodeContent(rest))
  {
    FirstClose(segment, rest);
    Halves(segment, CLOSE + rest);
    Halves(segment + CLOSE, rest);
    Associate(segment, CLOSE, rest);
  }

  lemma Section(segment: string, rest: string)
    requires FindClose(segment) == |segment|
    ensures DecodeContent(OPEN + (segment + CLOSE + rest)) == Prepend(segment, DecodeContent(rest))
  {
    SectionTail(segment, rest);
    Halves(OPEN, segment + CLOSE + rest);
  }

  lemma PlainCharacter(c: char, s: string)
    requires c != '&' && c != '<' && !AtClose([c] + s)
    ensures DecodeContent([c] + s) == Prepend([c], DecodeContent(s))
  {
    Halves([c], s);
    assert !(OPEN <= [c] + s);
  }

  lemma EscapedReads(c: char, s: string)
    requires c == '<' || c == '>' || c == '&'
    ensures DecodeContent(EscapeChar(c, false) + s) == Prepend([c], DecodeContent(s))
  {
    ReferenceEscaped(c, s);
    Halves(EscapeChar(c, false), s);
  }

  lemma EscapedGreater(s: string)
    ensures DecodeContent("&gt;" + s) == Prepend(">", DecodeContent(s))
  {
    EscapedReads('>', s);
  }

  /** `]]&gt;` between two sections stands for `]]>`. */
  lemma SplitClose(s: string)
    ensures DecodeContent("]" + ("]" + ("&gt;" + s))) ==
            Prepend("]", Prepend("]", Prepend(">", DecodeContent(s))))
  {
    EscapedGreater(s);
    var t := "&gt;" + s;
    assert t[0] == '&';
    PlainCharacter(']', t);
    PlainCharacter(']', "]" + t);
  }

  lemma OneByOne(s: string)
    ensures "]" + ("]" + (">" + s)) == CLOSE + s
    ensures "]" + ("]" + ("&gt;" + (OPEN + s))) == "]]&gt;" + OPEN + s
    ensures CLOSE + ("]]&gt;" + OPEN + s) == BETWEEN + s
  {}

  lemma SplitSections(head: string, tail: string)
    ensures OPEN + (head + CLOSE + ("]" + ("]" + ("&gt;" + (OPEN + tail))))) == OPEN + (head + BETWEEN + tail)
  {
    OneByOne(tail);
    var m := "]]&gt;" + OPEN + tail;
    Associate(head, CLOSE, m);
    Associate(head, BETWEEN, tail);
  }

  lemma {:induction false} SectionsRoundTrip(data: string)
    ensures DecodeContent(OPEN + (Segments(data) + CLOSE)) == Some(data)
    decreases |data|
  {
    var k := FindClose(data);
    NoCloseBefore(data);
    if k == |data| {
      Section(data, "");
      Empty(data + CLOSE);
      Empty(data);
      assert Segments(data) == data;
    } else {
      var head, tail := data[..k], data[k + 3..];
      SectionsRoundTrip(tail);
      var rest := OPEN + (Segments(tail) + CLOSE);
      SplitClose(rest);
      Section(head, "]" + ("]" + ("&gt;" + rest)));
      SplitSections(head, Segments(tail) + CLOSE);
      Associate(head + BETWEEN, Segments(tail), CLOSE);
      OneByOne(tail);
      Associate(head, CLOSE, tail);
      assert Segments(data) == head + BETWEEN + Segments(tail);
    }
  }

  lemma Empty(s: string)
    ensures s + "" == s
  {}

  lemma {:induction false} LineEndsNoClose(s: string)
    requires FindClose(s) == |s|
    ensures FindClose(LineEnds(s)) == |LineEnds(s)|
  {
    if s != "" {
      LineEndsNoClose(s[1..]);
      if s[0] == ']' {
        LineEndsNotClosing(s);
      }
    }
  }

  lemma {:induction false} LineEndsHead(s: string)
    ensures LineEnds(s) == "" <==> s == ""
    ensures s != "" && LineEnds(s)[0] != '\n' ==> s[0] != '\r' && LineEnds(s) == [s[0]] + LineEnds(s[1..])
  {
    if s != "" {
      LineEndsHead(s[1..]);
    }
  }

  lemma LineEndsNotClosing(s: string)
    requires s != "" && !AtClose(s)
    ensures !AtClose(LineEnds(s))
  {
    hide LineEnds;
    LineEndsHead(s);
    LineEndsHead(s[1..]);
    if |s| > 1 {
      LineEndsHead(s[1..][1..]);
    }
  }

  lemma SegmentsFirst(head: string, tail: string)
    requires FindClose(head) == |head|
    ensures Segments(head + CLOSE + tail) == head + BETWEEN + Segments(tail)
  {
    FirstClose(head, tail);
    Halves(head, CLOSE + tail);
    Halves(head + CLOSE, tail);
    Associate(head, CLOSE, tail);
  }

  /** Line ends do not move between the sections. */
  lemma {:induction false} LineEndsOfSegments(data: string)
    ensures LineEnds(Segments(data)) == Segments(LineEnds(data))
    decreases |data|
  {
    hide LineEnds;
    var k := FindClose(data);
    NoCloseBefore(data);
    LineEndsNoClose(data[..k]);
    if k == |data| {
      assert data[..k] == data;
    } else {
      var head, tail := data[..k], data[k + 3..];
      LineEndsOfSegments(tail);
      LineEndsOfThree(head, CLOSE, tail);
      LineEndsOfThree(head, BETWEEN, Segments(tail));
      SegmentsFirst(LineEnds(head), LineEnds(tail));
    }
  }

  lemma LineEndsOfThree(a: string, b: string, c: string)
    requires b != "" && b[0] != '\n' && '\r' !in b
    ensures LineEnds(a + b + c) == LineEnds(a) + b + LineEnds(c)
  {
    LineEndsExactly(b);
    LineEndsOfTwo(a, b);
    LineEndsOfTwo(a + b, c);
  }

  lemma LineEndsBetween(open: string, text: string, close: string)
    requires open != "" && open[0] != '\n' && '\r' !in open
    requires close != "" && close[0] != '\n' && '\r' !in close
    ensures LineEnds(open + text + close) == open + (LineEnds(text) + close)
  {
    LineEndsExactly(open);
    LineEndsExactly(close);
    LineEndsOfTwo(open, text);
    LineEndsOfTwo(open + text, close);
    Associate(open, LineEnds(text), close);
  }

  /** A CDATA stream reads back as its text with its line ends, with any number of `]]>`,
      overlapping or not; the text itself is read if and only if it has no carriage return. */
  lemma CDataRoundTrip(data: string)
    ensures ReadContent(OPEN + Segments(data) + CLOSE) == Some(LineEnds(data))
    ensures ReadContent(OPEN + Segments(data) + CLOSE) == Some(data) <==> '\r' !in data
  {
    hide LineEnds, Segments, DecodeContent;
    LineEndsOfSegments(data);
    LineEndsBetween(OPEN, Segments(data), CLOSE);
    SectionsRoundTrip(LineEnds(data));
    LineEndsExactly(data);
  }

  // ---------- Text ----------

  lemma {:induction false} NoGreaterSign(s: string)
    ensures '>' !in Escaped(s, false)
  {
    if s != "" {
      NoGreaterSign(s[1..]);
      assert '>' !in EscapeChar(s[0], false);
    }
  }

  lemma {:induction false} TextDecodes(s: string)
    requires forall i :: 0 <= i < |s| ==> s[i] < '\U{0080}'
    ensures DecodeContent(Escaped(s, false)) == Some(ValidPart(s))
  {
    if s != "" {
      hide DecodeContent;
      var c, rest := s[0], Escaped(s[1..], false);
      TextDecodes(s[1..]);
      if c == '<' || c == '>' || c == '&' {
        EscapedReads(c, rest);
      } else if IsValidXmlCharacter(c) {
        NoGreaterSign(s[1..]);
        assert ([c] + rest)[1..] == rest;
        PlainCharacter(c, rest);
      } else {
        assert "" + rest == rest && "" + ValidPart(s[1..]) == ValidPart(s[1..]);
      }
    } else {
      assert DecodeContent("") == Some("");
    }
  }

  predicate AllValid(s: string) { forall i :: 0 <= i < |s| ==> IsValidXmlCharacter(s[i]) }

  lemma EscapedFirst(c: char, rest: string)
    ensures Escaped([c] + rest, false) == EscapeChar(c, false) + Escaped(rest, false)
  {
    assert ([c] + rest)[1..] == rest;
  }

  lemma {:induction false} ValidPartIsValid(s: string)
    ensures var t := ValidPart(s);
            AllValid(t) && ('\r' in t <==> '\r' in s)
    ensures Escaped(s, false) == Escaped(ValidPart(s), false)
  {
    if s != "" {
      ValidPartIsValid(s[1..]);
      var rest := ValidPart(s[1..]);
      if IsValidXmlCharacter(s[0]) {
        EscapedFirst(s[0], rest);
      } else {
        assert "" + rest == rest && "" + Escaped(rest, false) == Escaped(rest, false);
      }
    }
  }

  lemma {:induction false} LineEndsValid(s: string)
    requires AllValid(s)
    ensures AllValid(LineEnds(s)) && ValidPart(s) == s
  {
    if s != "" {
      LineEndsValid(s[1..]);
    }
  }

  lemma ValidIsSevenBit(s: string)
    requires AllValid(s)
    ensures forall i :: 0 <= i < |s| ==> s[i] < '\U{0080}'
  {}

  lemma EscapedNewline(s: string)
    requires AllValid(s)
    ensures Escaped(s, false) != "" && Escaped(s, false)[0] == '\n' <==> s != "" && s[0] == '\n'
  {}

  lemma EscapedNoReturn(c: char)
    requires c != '\r'
    ensures '\r' !in EscapeChar(c, false)
  {}

  lemma {:induction false} LineEndsOfEscaped(s: string)
    requires AllValid(s)
    ensures LineEnds(Escaped(s, false)) == Escaped(LineEnds(s), false)
  {
    if s != "" {
      var c, rest := s[0], Escaped(s[1..], false);
      LineEndsOfEscaped(s[1..]);
      if c == '\r' {
        EscapedNewline(s[1..]);
        assert Escaped(s, false)[1..] == rest;
        EscapedFirst('\n', LineEnds(s[1..]));
      } else {
        EscapedNoReturn(c);
        LineEndsExactly(EscapeChar(c, false));
        LineEndsOfTwo(EscapeChar(c, false), rest);
        EscapedFirst(c, LineEnds(s[1..]));
      }
    }
  }

  /** Escaped text reads back as the text without the characters XML does not allow, with its line
      ends; they are those of the text if and only if it has no carriage return. */
  lemma TextRoundTrip(s: string)
    requires forall i :: 0 <= i < |s| ==> s[i] < '\U{0080}'
    ensures ReadContent(Escaped(s, false)) == Some(LineEnds(ValidPart(s)))
    ensures ReadContent(Escaped(s, false)) == Some(ValidPart(s)) <==> '\r' !in s
  {
    hide LineEnds, ValidPart, Escaped, DecodeContent, AllValid;
    var t := ValidPart(s);
    ValidPartIsValid(s);
    LineEndsOfEscaped(t);
    LineEndsValid(t);
    LineEndsValid(LineEnds(t));
    ValidIsSevenBit(LineEnds(t));
    TextDecodes(LineEnds(t));
    LineEndsExactly(t);
  }

  // ---------- Which texts come back ----------

  /** The 7-bit characters of section 2.2 of XML 1.0. */
  predicate IsXmlChar(c: char) {
    c == '\U{0009}' || c == '\U{000A}' || c == '\U{000D}' || '\U{0020}' <= c <= '\U{007F}'
  }

  lemma {:induction false} ValidPartShorter(s: string)
    ensures |ValidPart(s)| <= |s|
    ensures ValidPart(s) == s <==> AllValid(s)
  {
    if s != "" {
      ValidPartShorter(s[1..]);
      assert s == [s[0]] + s[1..];
    }
  }

  lemma ValidIsXmlChar(s: string)
    ensures AllValid(s) <==> forall i :: 0 <= i < |s| ==> IsXmlChar(s[i])
  {}

  /** An attribute value comes back as it was if and only if XML allows all its characters. */
  lemma AttributeIdentityExactly(s: string)
    requires forall i :: 0 <= i < |s| ==> s[i] < '\U{0080}'
    ensures ReadAttribute(Escaped(s, true)) == Some(s) <==> forall i :: 0 <= i < |s| ==> IsXmlChar(s[i])
  {
    AttributeRoundTrip(s);
    ValidPartShorter(s);
    ValidIsXmlChar(s);
  }

  /** Character data does if and only if, besides, none of them is a carriage return. */
  lemma TextIdentityExactly(s: string)
    requires forall i :: 0 <= i < |s| ==> s[i] < '\U{0080}'
    ensures ReadContent(Escaped(s, false)) == Some(s) <==>
            forall i :: 0 <= i < |s| ==> IsXmlChar(s[i]) && s[i] != '\r'
  {
    TextRoundTrip(s);
    ValidPartShorter(s);
    ValidIsXmlChar(s);
    var t := ValidPart(s);
    LineEndsExactly(t);
    LineEndsShorter(t);
  }

  lemma {:induction false} LineEndsShorter(s: string)
    ensures |LineEnds(s)| <= |s|
  {
    if s != "" {
      LineEndsShorter(s[1..]);
    }
  }

  /** What is kept of a text is what is kept of its parts, in their order, */
  lemma {:induction false} ValidPartOfTwo(a: string, b: string)
    ensures ValidPart(a + b) == ValidPart(a) + ValidPart(b)
  {
    if a == "" {
      assert a + b == b;
    } else {
      assert (a + b)[1..] == a[1..] + b;
      ValidPartOfTwo(a[1..], b);
    }
  }

  /** and of a character itself if XML allows it. */
  lemma ValidPartOfOne(c: char)
    requires c < '\U{0080}'
    ensures ValidPart([c]) == if IsXmlChar(c) then [c] else ""
  {
    assert [c][1..] == "";
  }
}
