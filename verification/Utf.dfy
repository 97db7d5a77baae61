/** The transcoder from wide strings to UTF-8: code points of up to 21 bits, surrogate code
    points included (section 3 of RFC 3629 without its restriction to Unicode), from UTF-16
    (section 2.2 of RFC 2781) or UTF-32 units. */
module Utf {
  import opened Text

  const MAX_CODE_POINT_1: nat := 0x7F
  const MAX_CODE_POINT_2: nat := 0x7FF
  const MAX_CODE_POINT_3: nat := 0xFFFF
  const MAX_CODE_POINT_4: nat := 0x1F_FFFF

  /** A 32-bit word and a byte of the stream, as numbers. */
  type UInt32 = nat
  type Byte = nat

  // ---------- UTF-8 forms ----------

  /** `10xxxxxx` */
  predicate IsContinuation(b: Byte) { 0x80 <= b < 0xC0 }

  /** The number of bytes that a lead byte announces, 0 if it is none. */
  function FormLength(lead: Byte): nat {
    if lead < 0x80 then 1
    else if 0xC0 <= lead < 0xE0 then 2
    else if 0xE0 <= lead < 0xF0 then 3
    else if 0xF0 <= lead < 0xF8 then 4
    else 0
  }

  /** The payload bits of a lead byte. */
  function LeadBits(lead: Byte): nat {
    if lead < 0x80 then lead
    else if 0xC0 <= lead < 0xE0 then lead - 0xC0
    else if 0xE0 <= lead < 0xF0 then lead - 0xE0
    else if 0xF0 <= lead < 0xF8 then lead - 0xF0
    else 0
  }

  /** Appends the payloads of continuation bytes, six bits each. */
  function Accumulate(acc: nat, bytes: seq<Byte>): nat
  {
    if bytes == [] then acc
    else Accumulate(acc, bytes[..|bytes| - 1]) * 64 + bytes[|bytes| - 1] % 0x40
  }

  /** The bytes have the bit pattern of one form of the code point, of whatever length. */
  ghost predicate Denotes(bytes: seq<Byte>, codePoint: nat) {
    && bytes != [] && FormLength(bytes[0]) == |bytes|
    && (forall i :: 1 <= i < |bytes| ==> IsContinuation(bytes[i]))
    && codePoint == Accumulate(LeadBits(bytes[0]), bytes[1..])
  }

  /** The shortest form of a code point. */
  function Encode(c: nat): seq<Byte>
    requires c <= MAX_CODE_POINT_4
  {
    if c <= MAX_CODE_POINT_1 then [c]
    else if c <= MAX_CODE_POINT_2 then [0xC0 + c / 64, 0x80 + c % 64]
    else if c <= MAX_CODE_POINT_3 then [0xE0 + c / 64 / 64, 0x80 + c / 64 % 64, 0x80 + c % 64]
    else [0xF0 + c / 64 / 64 / 64, 0x80 + c / 64 / 64 % 64, 0x80 + c / 64 % 64, 0x80 + c % 64]
  }

  lemma AccumulateThree(acc: nat, a: Byte, b: Byte, c: Byte)
    ensures Accumulate(acc, [a]) == acc * 64 + a % 0x40
    ensures Accumulate(acc, [a, b]) == (acc * 64 + a % 0x40) * 64 + b % 0x40
    ensures Accumulate(acc, [a, b, c]) == ((acc * 64 + a % 0x40) * 64 + b % 0x40) * 64 + c % 0x40
  {
    assert [a, b, c][..2] == [a, b] && [a, b][..1] == [a] && [a][..0] == [];
  }

  lemma {:induction false} AccumulateFormLength(bytes: seq<Byte>)
    requires bytes != [] && FormLength(bytes[0]) == |bytes|
    requires forall i :: 1 <= i < |bytes| ==> IsContinuation(bytes[i])
    ensures var c := Accumulate(LeadBits(bytes[0]), bytes[1..]);
            c <= match |bytes| case 1 => MAX_CODE_POINT_1 case 2 => MAX_CODE_POINT_2
                               case 3 => MAX_CODE_POINT_3 case _ => MAX_CODE_POINT_4
  {
    var lead := bytes[0];
    if |bytes| == 1 {
      assert bytes[1..] == [];
    } else if |bytes| == 2 {
      assert bytes[1..] == [bytes[1]];
      AccumulateThree(LeadBits(lead), bytes[1], bytes[1], bytes[1]);
    } else if |bytes| == 3 {
      assert bytes[1..] == [bytes[1], bytes[2]];
      AccumulateThree(LeadBits(lead), bytes[1], bytes[2], bytes[2]);
    } else {
      assert bytes[1..] == [bytes[1], bytes[2], bytes[3]];
      AccumulateThree(LeadBits(lead), bytes[1], bytes[2], bytes[3]);
    }
  }

  lemma Payload(a: nat)
    requires a < 64
    ensures (0x80 + a) % 0x40 == a
  {}

  lemma TwoByteForm(p: nat, a: nat)
    requires p < 32 && a < 64
    ensures Denotes([0xC0 + p, 0x80 + a], p * 64 + a)
  {
    hide Accumulate;
    Payload(a);
    AccumulateThree(p, 0x80 + a, 0, 0);
    assert [0xC0 + p, 0x80 + a][1..] == [0x80 + a];
  }

  lemma ThreeByteForm(p: nat, a: nat, b: nat)
    requires p < 16 && a < 64 && b < 64
    ensures Denotes([0xE0 + p, 0x80 + a, 0x80 + b], (p * 64 + a) * 64 + b)
  {
    hide Accumulate;
    Payload(a);
    Payload(b);
    AccumulateThree(p, 0x80 + a, 0x80 + b, 0);
    assert [0xE0 + p, 0x80 + a, 0x80 + b][1..] == [0x80 + a, 0x80 + b];
  }

  lemma FourByteForm(p: nat, a: nat, b: nat, c: nat)
    requires p < 8 && a < 64 && b < 64 && c < 64
    ensures Denotes([0xF0 + p, 0x80 + a, 0x80 + b, 0x80 + c], ((p * 64 + a) * 64 + b) * 64 + c)
  {
    hide Accumulate;
    Payload(a);
    Payload(b);
    Payload(c);
    AccumulateThree(p, 0x80 + a, 0x80 + b, 0x80 + c);
    assert [0xF0 + p, 0x80 + a, 0x80 + b, 0x80 + c][1..] == [0x80 + a, 0x80 + b, 0x80 + c];
  }

  lemma EncodeDenotes(c: nat)
    requires c <= MAX_CODE_POINT_4
    ensures Denotes(Encode(c), c)
  {
    var d1 := c / 64;
    var d2 := d1 / 64;
    if c <= MAX_CODE_POINT_1 {
      assert [c][1..] == [];
    } else if c <= MAX_CODE_POINT_2 {
      TwoByteForm(d1, c % 64);
    } else if c <= MAX_CODE_POINT_3 {
      ThreeByteForm(d2, d1 % 64, c % 64);
    } else {
      FourByteForm(d2 / 64, d2 % 64, d1 % 64, c % 64);
    }
  }

  /** The encoding is a form of its code point, and no form of it is shorter. */
  lemma EncodeShortest(c: nat)
    requires c <= MAX_CODE_POINT_4
    ensures Denotes(Encode(c), c)
    ensures forall bytes: seq<Byte> :: Denotes(bytes, c) ==> |Encode(c)| <= |bytes|
  {
    EncodeDenotes(c);
    forall bytes: seq<Byte> | Denotes(bytes, c)
      ensures |Encode(c)| <= |bytes|
    {
      AccumulateFormLength(bytes);
    }
  }

  /** No encoding is a prefix of another, and distinct code points have distinct encodings. */
  lemma EncodePrefixFree(c: nat, d: nat)
    requires c <= MAX_CODE_POINT_4 && d <= MAX_CODE_POINT_4
    requires Encode(c) <= Encode(d)
    ensures c == d
  {
    EncodeDenotes(c);
    EncodeDenotes(d);
    assert Encode(c)[0] == Encode(d)[0];
    assert Encode(c) == Encode(d);
  }

  ghost predicate AllUpTo(s: seq<nat>, bound: nat) { forall i :: 0 <= i < |s| ==> s[i] <= bound }

  // ---------- Streams of bytes ----------

  ghost function Utf8(codePoints: seq<nat>): seq<Byte>
    requires AllUpTo(codePoints, MAX_CODE_POINT_4)
  {
    if codePoints == [] then [] else Encode(codePoints[0]) + Utf8(codePoints[1..])
  }

  /** A decoder that reads the length of each form from its lead byte. */
  function Decode(bytes: seq<Byte>): Option<seq<nat>>
    decreases |bytes|
  {
    if bytes == [] then Some([])
    else
      var n := FormLength(bytes[0]);
      if n == 0 || n > |bytes| || exists i :: 1 <= i < n && !IsContinuation(bytes[i]) then None
      else
        match Decode(bytes[n..])
        case None => None
        case Some(rest) => Some([Accumulate(LeadBits(bytes[0]), bytes[1..n])] + rest)
  }

  lemma {:induction false} DecodeUtf8(codePoints: seq<nat>)
    requires AllUpTo(codePoints, MAX_CODE_POINT_4)
    ensures Decode(Utf8(codePoints)) == Some(codePoints)
  {
    if codePoints != [] {
      var c, rest := codePoints[0], codePoints[1..];
      DecodeUtf8(rest);
      EncodeDenotes(c);
      var e, bytes := Encode(c), Utf8(codePoints);
      assert bytes[..|e|] == e && bytes[|e|..] == Utf8(rest);
      assert forall i :: 0 <= i < |e| ==> bytes[i] == e[i];
      assert bytes[1..|e|] == e[1..];
      assert [c] + rest == codePoints;
    }
  }

  // ---------- UTF-16 ----------

  predicate IsUtf16SurrogatePair(sizeofWchar: nat, first: UInt32, second: UInt32) {
    sizeofWchar == 2 && first / 0x400 == 0x36 && second / 0x400 == 0x37
  }

  function CreateCodePointFromUtf16SurrogatePair(first: UInt32, second: UInt32): nat {
    first % 0x400 * 0x400 + second % 0x400 + 0x1_0000
  }

  /** A wide character fits its type. */
  ghost predicate IsWide(sizeofWchar: nat, units: seq<UInt32>) {
    && (sizeofWchar == 2 || sizeofWchar == 4)
    && 0 !in units && AllUpTo(units, if sizeofWchar == 2 then 0xFFFF else 0xFFFF_FFFF)
  }

  /** The code points of a wide string; an unpaired surrogate stands for itself. */
  function CodePoints(sizeofWchar: nat, units: seq<UInt32>): (codePoints: seq<UInt32>)
    decreases |units|
  {
    if units == [] then []
    else if |units| >= 2 && IsUtf16SurrogatePair(sizeofWchar, units[0], units[1]) then
      [CreateCodePointFromUtf16SurrogatePair(units[0], units[1])] + CodePoints(sizeofWchar, units[2..])
    else [units[0]] + CodePoints(sizeofWchar, units[1..])
  }

  /** The UTF-16 units of code points. */
  function Utf16(codePoints: seq<nat>): seq<nat> {
    if codePoints == [] then []
    else
      var c := codePoints[0];
      (if c < 0x1_0000 then [c] else [0xD800 + (c - 0x1_0000) / 0x400, 0xDC00 + (c - 0x1_0000) % 0x400]) +
      Utf16(codePoints[1..])
  }

  /** A surrogate pair is the UTF-16 form of its code point. */
  lemma PairUnits(first: UInt32, second: UInt32)
    requires IsUtf16SurrogatePair(2, first, second) && first <= 0xFFFF && second <= 0xFFFF
    ensures var c := CreateCodePointFromUtf16SurrogatePair(first, second);
            && 0x1_0000 <= c <= 0x10_FFFF
            && 0xD800 + (c - 0x1_0000) / 0x400 == first && 0xDC00 + (c - 0x1_0000) % 0x400 == second
  {}

  /** A unit from 0xD800 to 0xDBFF and one from 0xDC00 to 0xDFFF after it stand for one code point
      above 0xFFFF; any other unit stands for itself, and so does every unit of 32 bits. */
  lemma CodePointsExactly(first: UInt32, rest: seq<UInt32>)
    ensures CodePoints(4, [first] + rest) == [first] + CodePoints(4, rest)
    ensures CodePoints(2, [first] + rest) ==
            if 0xD800 <= first <= 0xDBFF && rest != [] && 0xDC00 <= rest[0] <= 0xDFFF
            then [0x1_0000 + (first - 0xD800) * 0x400 + (rest[0] - 0xDC00)] + CodePoints(2, rest[1..])
            else [first] + CodePoints(2, rest)
  {
    hide IsUtf16SurrogatePair, CreateCodePointFromUtf16SurrogatePair;
    var units := [first] + rest;
    assert units[1..] == rest;
    if rest != [] {
      NotPaired(first, rest[0]);
      PairExactly(first, rest[0]);
      assert units[2..] == rest[1..];
    }
  }

  lemma NotPaired(first: UInt32, second: UInt32)
    ensures !IsUtf16SurrogatePair(4, first, second)
  {}

  lemma PairExactly(first: UInt32, second: UInt32)
    ensures var pair := 0xD800 <= first <= 0xDBFF && 0xDC00 <= second <= 0xDFFF;
            && (IsUtf16SurrogatePair(2, first, second) <==> pair)
            && (pair ==> CreateCodePointFromUtf16SurrogatePair(first, second) ==
                         0x1_0000 + (first - 0xD800) * 0x400 + (second - 0xDC00))
  {}

  lemma Utf16Pair(c: nat, first: nat, second: nat, rest: seq<nat>)
    requires c >= 0x1_0000
    requires 0xD800 + (c - 0x1_0000) / 0x400 == first && 0xDC00 + (c - 0x1_0000) % 0x400 == second
    ensures Utf16([c] + rest) == [first, second] + Utf16(rest)
  {
    assert ([c] + rest)[1..] == rest;
  }

  lemma Utf16Single(c: nat, rest: seq<nat>)
    requires c < 0x1_0000
    ensures Utf16([c] + rest) == [c] + Utf16(rest)
  {
    assert ([c] + rest)[1..] == rest;
  }

  lemma {:induction false} Utf16OfCodePoints(units: seq<UInt32>)
    requires IsWide(2, units)
    ensures Utf16(CodePoints(2, units)) == units
    ensures AllUpTo(CodePoints(2, units), 0x10_FFFF) && 0 !in CodePoints(2, units)
    decreases |units|
  {
    hide Utf16, CreateCodePointFromUtf16SurrogatePair, IsUtf16SurrogatePair;
    if units == [] {
      NoUnits();
    } else if |units| >= 2 && IsUtf16SurrogatePair(2, units[0], units[1]) {
      Utf16OfCodePoints(units[2..]);
      PairUnits(units[0], units[1]);
      var c := CreateCodePointFromUtf16SurrogatePair(units[0], units[1]);
      Utf16Pair(c, units[0], units[1], CodePoints(2, units[2..]));
      assert units == [units[0], units[1]] + units[2..];
    } else {
      Utf16OfCodePoints(units[1..]);
      Utf16Single(units[0], CodePoints(2, units[1..]));
      assert units == [units[0]] + units[1..];
    }
  }

  lemma NoUnits()
    ensures Utf16([]) == []
  {}

  // ---------- The transcoder ----------

  function HexDigit(d: nat): Byte
    requires d < 16
  {
    if d < 10 then 0x30 + d else 0x41 + (d - 10)
  }

  function FormatHexInt(value: nat): seq<Byte> {
    if value < 16 then [HexDigit(value)] else FormatHexInt(value / 16) + [HexDigit(value % 16)]
  }

  function Ascii(s: string): seq<Byte>
  {
    seq(|s|, i requires 0 <= i < |s| => s[i] as nat)
  }

  function HexNumber(digits: seq<Byte>): nat {
    if digits == [] then 0
    else
      var d := digits[|digits| - 1];
      16 * HexNumber(digits[..|digits| - 1]) +
      if '0' as nat <= d <= '9' as nat then d - '0' as nat
      else if 'A' as nat <= d <= 'F' as nat then d - 'A' as nat + 10
      else 0
  }

  /** The digits are those of the number, without a leading zero. */
  lemma {:induction false} FormatHexReads(value: nat)
    ensures var digits := FormatHexInt(value);
            && digits != [] && HexNumber(digits) == value && (digits[0] == '0' as nat ==> value == 0)
            && forall i :: 0 <= i < |digits| ==>
                 '0' as nat <= digits[i] <= '9' as nat || 'A' as nat <= digits[i] <= 'F' as nat
  {
    var digits := FormatHexInt(value);
    if value >= 16 {
      FormatHexReads(value / 16);
      assert digits[..|digits| - 1] == FormatHexInt(value / 16);
    }
  }

  /** What the transcoder emits for a code point; the text of code point 0 ends at once. */
  function Emit(c: UInt32): seq<Byte> {
    if c > MAX_CODE_POINT_4 then Ascii("(Invalid Unicode 0x") + FormatHexInt(c) + Ascii(")")
    else if c == 0 then []
    else Encode(c)
  }

  function EmitAll(codePoints: seq<UInt32>): seq<Byte> {
    if codePoints == [] then [] else Emit(codePoints[0]) + EmitAll(codePoints[1..])
  }

  /** The six lowest bits of a word, and the word without them; no call chops another
      number of bits. */
  method ChopLowBits(bits: UInt32) returns (low: UInt32, rest: UInt32)
    ensures low == bits % 64 && rest == bits / 64
  {
    low := bits % 64;
    rest := bits / 64;
  }

  /** The bytes of a C string in a buffer. */
  function UpToNul(buffer: seq<Byte>): seq<Byte> {
    if buffer == [] || buffer[0] == 0 then [] else [buffer[0]] + UpToNul(buffer[1..])
  }

  lemma {:induction false} UpToNulIs(buffer: seq<Byte>, n: nat)
    requires n < |buffer| && buffer[n] == 0 && forall i :: 0 <= i < n ==> buffer[i] != 0
    ensures UpToNul(buffer) == buffer[..n]
    decreases n
  {
    if n > 0 {
      UpToNulIs(buffer[1..], n - 1);
      assert buffer[..n] == [buffer[0]] + buffer[1..][..n - 1];
    }
  }

  method CodePointToUtf8(code: UInt32) returns (r: seq<Byte>)
    ensures r == Emit(code)
  {
    hide UpToNul, FormatHexInt, Ascii;
    var codePoint := code;
    if codePoint > MAX_CODE_POINT_4 {
      return Ascii("(Invalid Unicode 0x") + FormatHexInt(codePoint) + Ascii(")");
    }
    var str := new Byte[5];
    ghost var n;
    if codePoint <= MAX_CODE_POINT_1 {
      str[1] := 0;
      str[0] := codePoint;
      n := 1;
    } else if codePoint <= MAX_CODE_POINT_2 {
      var low;
      str[2] := 0;
      low, codePoint := ChopLowBits(codePoint);
      str[1] := 0x80 + low;
      str[0] := 0xC0 + codePoint;
      n := 2;
    } else if codePoint <= MAX_CODE_POINT_3 {
      var low;
      str[3] := 0;
      low, codePoint := ChopLowBits(codePoint);
      str[2] := 0x80 + low;
      low, codePoint := ChopLowBits(codePoint);
      str[1] := 0x80 + low;
      str[0] := 0xE0 + codePoint;
      n := 3;
    } else {
      var low;
      str[4] := 0;
      low, codePoint := ChopLowBits(codePoint);
      str[3] := 0x80 + low;
      low, codePoint := ChopLowBits(codePoint);
      str[2] := 0x80 + low;
      low, codePoint := ChopLowBits(codePoint);
      str[1] := 0x80 + low;
      str[0] := 0xF0 + codePoint;
      n := 4;
    }
    UpToNulIs(str[..], if code == 0 then 0 else n);
    return UpToNul(str[..]);
  }

  /** The units that a call with this limit reads; -1 means all. */
  function Limited(units: seq<UInt32>, numChars: int): seq<UInt32> {
    if numChars == -1 || numChars >= |units| then units else if numChars < 0 then [] else units[..numChars]
  }

  /** A limit that is not negative gives the units up to it, and -1 all of them. */
  lemma LimitedIs(units: seq<UInt32>, numChars: int)
    ensures numChars == -1 ==> Limited(units, numChars) == units
    ensures numChars < -1 ==> Limited(units, numChars) == []
    ensures numChars >= 0 ==>
              var read := Limited(units, numChars);
              read <= units && |read| == if numChars < |units| then numChars else |units|
  {}

  /** A number that is no code point is told in hexadecimal digits. */
  lemma InvalidIsTold(c: UInt32)
    requires c > 0x1F_FFFF
    ensures var emitted, before := Emit(c), Ascii("(Invalid Unicode 0x");
            && before <= emitted && |emitted| > |before| + 1 && emitted[|emitted| - 1] == ')' as nat
            && HexNumber(emitted[|before|..|emitted| - 1]) == c
  {
    FormatHexReads(c);
    assert Emit(c)[|Ascii("(Invalid Unicode 0x")|..|Emit(c)| - 1] == FormatHexInt(c);
  }

  /** The code point at the head of a wide string, and its number of units. */
  lemma CodePointsStep(sizeofWchar: nat, read: seq<UInt32>, i: nat)
    requires i < |read|
    ensures var pair := i + 1 < |read| && IsUtf16SurrogatePair(sizeofWchar, read[i], read[i + 1]);
            var c := if pair then CreateCodePointFromUtf16SurrogatePair(read[i], read[i + 1]) else read[i];
            EmitAll(CodePoints(sizeofWchar, read[i..])) ==
            Emit(c) + EmitAll(CodePoints(sizeofWchar, read[if pair then i + 2 else i + 1..]))
  {
    var units := read[i..];
    var codePoints := CodePoints(sizeofWchar, units);
    if i + 1 < |read| && IsUtf16SurrogatePair(sizeofWchar, read[i], read[i + 1]) {
      assert units[2..] == read[i + 2..];
      assert codePoints[1..] == CodePoints(sizeofWchar, read[i + 2..]);
    } else {
      assert units[1..] == read[i + 1..];
      assert codePoints[1..] == CodePoints(sizeofWchar, read[i + 1..]);
    }
  }

  lemma NothingLeft(sizeofWchar: nat, stream: seq<Byte>)
    ensures stream + EmitAll(CodePoints(sizeofWchar, [])) == stream
  {}

  /** `units` are the characters before the terminating NUL. */
  method WideStringToUtf8(sizeofWchar: nat, units: seq<UInt32>, numChars: int) returns (stream: seq<Byte>)
    requires IsWide(sizeofWchar, units)
    ensures stream == EmitAll(CodePoints(sizeofWchar, Limited(units, numChars)))
  {
    hide CodePoints, Emit, EmitAll;
    var limit := if numChars == -1 then |units| else numChars;
    ghost var read := Limited(units, numChars);
    ghost var all := EmitAll(CodePoints(sizeofWchar, read));
    stream := [];
    var i := 0;
    assert read[0..] == read;
    while i < limit
      invariant 0 <= i <= |read|
      invariant all == stream + EmitAll(CodePoints(sizeofWchar, read[i..]))
      decreases limit - i
    {
      if i == |units| {
        break;
      }
      CodePointsStep(sizeofWchar, read, i);
      var codePoint: UInt32;
      if i + 1 < limit && i + 1 < |units| && IsUtf16SurrogatePair(sizeofWchar, units[i], units[i + 1]) {
        codePoint := CreateCodePointFromUtf16SurrogatePair(units[i], units[i + 1]);
        i := i + 1;
      } else {
        codePoint := units[i];
      }
      var bytes := CodePointToUtf8(codePoint);
      i := i + 1;
      Associate(stream, bytes, EmitAll(CodePoints(sizeofWchar, read[i..])));
      stream := stream + bytes;
    }
    assert read[i..] == [];
    NothingLeft(sizeofWchar, stream);
  }

  // ---------- Nothing is lost ----------

  lemma {:induction false} EmitAllIsUtf8(codePoints: seq<UInt32>)
    requires AllUpTo(codePoints, MAX_CODE_POINT_4) && 0 !in codePoints
    ensures EmitAll(codePoints) == Utf8(codePoints)
  {
    if codePoints != [] {
      EmitAllIsUtf8(codePoints[1..]);
    }
  }

  /** Decoding the bytes of a UTF-16 string and writing the code points as UTF-16 again gives
      the same units, unpaired surrogates included. */
  lemma Utf16Lossless(units: seq<UInt32>)
    requires IsWide(2, units)
    ensures var decoded := Decode(EmitAll(CodePoints(2, units)));
            decoded.Some? && Utf16(decoded.value) == units
  {
    Utf16OfCodePoints(units);
    EmitAllIsUtf8(CodePoints(2, units));
    DecodeUtf8(CodePoints(2, units));
  }

  lemma {:induction false} Utf32CodePoints(units: seq<UInt32>)
    ensures CodePoints(4, units) == units
  {
    if units != [] {
      Utf32CodePoints(units[1..]);
    }
  }

  /** Four bytes have no more than 21 payload bits. */
  lemma {:induction false} DecodedIsSmall(bytes: seq<Byte>)
    requires Decode(bytes).Some?
    ensures AllUpTo(Decode(bytes).value, MAX_CODE_POINT_4)
    decreases |bytes|
  {
    if bytes != [] {
      var n := FormLength(bytes[0]);
      var form := bytes[..n];
      assert form[1..] == bytes[1..n];
      AccumulateFormLength(form);
      DecodedIsSmall(bytes[n..]);
    }
  }

  /** A UTF-32 string decodes to itself if and only if its units have 21 bits. */
  lemma Utf32Lossless(units: seq<UInt32>)
    requires IsWide(4, units)
    ensures Decode(EmitAll(CodePoints(4, units))) == Some(units) <==> AllUpTo(units, MAX_CODE_POINT_4)
  {
    Utf32CodePoints(units);
    if AllUpTo(units, MAX_CODE_POINT_4) {
      EmitAllIsUtf8(units);
      DecodeUtf8(units);
    } else if Decode(EmitAll(units)).Some? {
      DecodedIsSmall(EmitAll(units));
    }
  }
}
