/** Integers as decimal text. */
module Numbers {
  import opened Text

  predicate IsDigit(c: char) { '0' <= c <= '9' }

  predicate AllDigits(s: string) { forall i :: 0 <= i < |s| ==> IsDigit(s[i]) }

  function SkipSpaces(s: string): string {
    if s != "" && IsSpace(s[0]) then SkipSpaces(s[1..]) else s
  }

  /** The digits at the start of a text. */
  function DigitsOf(s: string): (d: string)
    ensures AllDigits(d)
  {
    if s != "" && IsDigit(s[0]) then [s[0]] + DigitsOf(s[1..]) else ""
  }

  function Value(digits: string): nat
    requires AllDigits(digits)
  {
    if digits == "" then 0
    else 10 * Value(digits[..|digits| - 1]) + (digits[|digits| - 1] as nat - '0' as nat)
  }

  /** What `stoi` reads: white space, a sign and digits; anything may follow. */
  function Integer(s: string): Option<int> {
    var t := SkipSpaces(s);
    var signed := t != "" && (t[0] == '-' || t[0] == '+');
    var digits := DigitsOf(if signed then t[1..] else t);
    if digits == "" then None
    else Some(if signed && t[0] == '-' then -(Value(digits) as int) else Value(digits))
  }

  function Decimal(n: nat): string {
    (if n < 10 then "" else Decimal(n / 10)) + ['0' + (n % 10) as char]
  }

  function Print(x: int): string { if x < 0 then "-" + Decimal(-x) else Decimal(x) }

  lemma {:induction false} DecimalReads(n: nat)
    ensures Decimal(n) != "" && AllDigits(Decimal(n)) && Value(Decimal(n)) == n
  {
    if n >= 10 {
      DecimalReads(n / 10);
    }
    var last := '0' + (n % 10) as char;
    var d := Decimal(n);
    assert d[..|d| - 1] == if n < 10 then "" else Decimal(n / 10);
    assert d[|d| - 1] == last && last as nat == '0' as nat + n % 10;
  }

  lemma {:induction false} AllDigitsRead(d: string)
    requires AllDigits(d)
    ensures DigitsOf(d) == d
  {
    if d != "" {
      AllDigitsRead(d[1..]);
    }
  }

  lemma DigitsRead(d: string)
    requires AllDigits(d) && d != ""
    ensures SkipSpaces(d) == d && Integer(d) == Some(Value(d))
  {
    hide Value;
    AllDigitsRead(d);
    assert IsDigit(d[0]);
  }

  lemma NegativeReads(d: string)
    requires AllDigits(d) && d != ""
    ensures SkipSpaces("-" + d) == "-" + d && Integer("-" + d) == Some(-(Value(d) as int))
  {
    hide Value;
    AllDigitsRead(d);
    assert ("-" + d)[1..] == d;
  }

  lemma PrintReads(x: int)
    ensures Print(x) != "" && Integer(Print(x)) == Some(x) && SkipSpaces(Print(x)) == Print(x)
    ensures (Print(x)[0] == '-') == (x < 0)
    ensures forall i :: 0 <= i < |Print(x)| ==> IsDigit(Print(x)[i]) || Print(x)[i] == '-'
  {
    hide Decimal, Integer, Value, SkipSpaces;
    if x < 0 {
      DecimalReads(-x);
      NegativeReads(Decimal(-x));
    } else {
      DecimalReads(x);
      DigitsRead(Decimal(x));
    }
  }

  // ---------- Which texts are numbers ----------

  const DIGITS := "0123456789"
  const SPACES := " \t\n\r\U{000B}\U{000C}"

  predicate Among(s: string, chars: string) { forall i :: 0 <= i < |s| ==> s[i] in chars }

  predicate StartsWith(s: string, chars: string) { s != "" && s[0] in chars }

  lemma DigitsAndSpaces(c: char)
    ensures c in DIGITS <==> IsDigit(c)
    ensures c in SPACES <==> IsSpace(c)
  {}

  /** The digits count from 0 to 9, in tens. */
  lemma ValueExactly(digits: string, d: nat)
    requires Among(digits, DIGITS) && d < 10
    ensures AllDigits(digits) && AllDigits(digits + [DIGITS[d]])
    ensures Value("") == 0 && Value(digits + [DIGITS[d]]) == 10 * Value(digits) + d
  {
    forall i | 0 <= i < |digits| ensures IsDigit(digits[i]) {
      DigitsAndSpaces(digits[i]);
    }
    DigitIs(d);
    assert (digits + [DIGITS[d]])[..|digits|] == digits;
  }

  lemma DigitIs(d: nat)
    requires d < 10
    ensures DIGITS[d] == '0' + d as char
  {}

  lemma {:induction false} SkipsSpaces(spaces: string, rest: string)
    requires Among(spaces, SPACES)
    ensures SkipSpaces(spaces + rest) == SkipSpaces(rest)
  {
    hide IsSpace;
    if spaces == "" {
      assert spaces + rest == rest;
    } else {
      DigitsAndSpaces(spaces[0]);
      assert (spaces + rest)[1..] == spaces[1..] + rest;
      SkipsSpaces(spaces[1..], rest);
    }
  }

  lemma {:induction false} TakesDigits(digits: string, rest: string)
    requires Among(digits, DIGITS) && !StartsWith(rest, DIGITS)
    ensures AllDigits(digits) && DigitsOf(digits + rest) == digits
  {
    hide IsDigit;
    if digits == "" {
      assert digits + rest == rest;
      if rest != "" {
        DigitsAndSpaces(rest[0]);
      }
    } else {
      DigitsAndSpaces(digits[0]);
      assert (digits + rest)[1..] == digits[1..] + rest;
      TakesDigits(digits[1..], rest);
      assert digits == [digits[0]] + digits[1..];
    }
  }

  /** White space, a sign or none, digits, and what does not go on with a digit: the number is that
      of the digits, and without digits there is none. */
  lemma IntegerExactly(spaces: string, sign: string, digits: string, rest: string)
    requires Among(spaces, SPACES) && (sign == "" || sign == "-" || sign == "+")
    requires Among(digits, DIGITS) && !StartsWith(rest, DIGITS)
    requires sign == digits == "" ==> !StartsWith(rest, "+-" + SPACES)
    ensures AllDigits(digits)
    ensures Integer(spaces + (sign + (digits + rest))) ==
            if digits == "" then None else if sign == "-" then Some(-(Value(digits) as int)) else Some(Value(digits))
  {
    hide Value, Among, StartsWith, SkipSpaces, DigitsOf;
    SkipsSpaces(spaces, sign + (digits + rest));
    SignReads(sign, digits, rest);
    TakesDigits(digits, rest);
  }

  lemma SignReads(sign: string, digits: string, rest: string)
    requires sign == "" || sign == "-" || sign == "+"
    requires Among(digits, DIGITS)
    requires sign == digits == "" ==> !StartsWith(rest, "+-" + SPACES)
    ensures var t := sign + (digits + rest);
            && SkipSpaces(t) == t
            && (sign != "" ==> t[0] == sign[0] && t[1..] == digits + rest)
            && (sign == "" ==> t == digits + rest && (t == "" || (t[0] != '-' && t[0] != '+')))
  {
    var t := sign + (digits + rest);
    if sign == "" {
      assert t == digits + rest;
      if digits != "" {
        DigitsAndSpaces(digits[0]);
        assert t[0] == digits[0];
      } else if rest != "" {
        DigitsAndSpaces(rest[0]);
        assert t == rest && "+-"[0] == '+' && "+-"[1] == '-';
      }
    }
  }
}
