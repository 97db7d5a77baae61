/** Optional values, and the search for a character in a text. */
module Text {

  datatype Option<T> = None | Some(value: T)

  predicate IsSpace(c: char) {
    c == ' ' || c == '\t' || c == '\n' || c == '\r' || c == '\U{000B}' || c == '\U{000C}'
  }

  predicate AllSpace(s: string) {
    forall i :: 0 <= i < |s| ==> IsSpace(s[i])
  }

  /** The position of the first c, the length of s if there is none. */
  function Find(s: string, c: char): (k: nat)
    ensures k <= |s|
  {
    if s == "" || s[0] == c then 0 else 1 + Find(s[1..], c)
  }

  lemma {:induction false} FindFirst(s: string, c: char)
    ensures var k := Find(s, c); c !in s[..k] && (k < |s| ==> s[k] == c)
  {
    if s != "" && s[0] != c {
      FindFirst(s[1..], c);
      assert s[..Find(s, c)] == [s[0]] + s[1..][..Find(s[1..], c)];
    }
  }

  /** Text in front of the first c moves it by its length. */
  lemma {:induction false} FindAfter(before: string, s: string, c: char)
    requires c !in before
    ensures Find(before + s, c) == |before| + Find(s, c)
  {
    if before == "" {
      assert before + s == s;
    } else {
      assert (before + s)[1..] == before[1..] + s;
      FindAfter(before[1..], s, c);
    }
  }

  lemma Associate<T>(a: seq<T>, b: seq<T>, c: seq<T>)
    ensures a + (b + c) == (a + b) + c
  {}
}
