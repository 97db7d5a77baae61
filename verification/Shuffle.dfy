/** Google Test's random numbers and its in-place Fisher-Yates shuffle. */
module Shuffle {
  import opened Arithmetic

  // ---------- Random numbers ----------

  const MAX_RANGE: nat := 0x8000_0000

  /** The linear congruential step, in 32-bit arithmetic. */
  function NextState(state: nat): nat {
    (1103515245 * state + 12345) % 0x1_0000_0000 % MAX_RANGE
  }

  /** The step is linear: it starts from 0 with 12345 and rises by 1103515245, modulo 2^31. */
  lemma NextStateIsLinear(state: nat)
    ensures NextState(0) == 12345
    ensures NextState(state + 1) == (NextState(state) + 1103515245) % MAX_RANGE
  {
    var x, a: nat := 1103515245 * state + 12345, 1103515245;
    assert 1103515245 * (state + 1) + 12345 == x + a;
    RemainderOfSum(x, x % 0x1_0000_0000, x / 0x1_0000_0000, MAX_RANGE, 0x1_0000_0000);
    RemainderOfSum(x + a, (x + a) % 0x1_0000_0000, (x + a) / 0x1_0000_0000, MAX_RANGE, 0x1_0000_0000);
    AddToRemainder(x, a, MAX_RANGE);
  }

  class Random {
    var state: nat

    constructor (seed: nat)
      ensures state == seed
    {
      state := seed;
    }

    method Generate(range: nat) returns (r: nat)
      requires 0 < range <= MAX_RANGE
      modifies this
      ensures state == NextState(old(state))
      ensures r == state % range
    {
      state := NextState(state);
      r := state % range;
    }
  }

  /** The choices of a shuffle of `width` elements: for each shrinking width, an index below it. */
  function Draws(state: nat, width: nat): (choices: seq<nat>)
    ensures InRange(choices, width)
    decreases width
  {
    if width < 2 then []
    else
      var next := NextState(state);
      [next % width] + Draws(next, width - 1)
  }

  function StateAfter(state: nat, width: nat): nat
    decreases width
  {
    if width < 2 then state else StateAfter(NextState(state), width - 1)
  }

  function StateAt(state: nat, n: nat): nat { if n == 0 then state else NextState(StateAt(state, n - 1)) }

  lemma {:induction false} StateAtNext(state: nat, n: nat)
    ensures StateAt(NextState(state), n) == StateAt(state, n + 1)
  {
    hide NextState;
    if n > 0 {
      StateAtNext(state, n - 1);
    }
  }

  lemma {:induction false} StateAtTwice(state: nat, m: nat, n: nat)
    ensures StateAt(StateAt(state, m), n) == StateAt(state, m + n)
  {
    hide NextState;
    if n > 0 {
      StateAtTwice(state, m, n - 1);
    }
  }

  /** A shuffle of a width draws one number fewer, the i-th below the width less i. */
  lemma {:induction false} DrawsExactly(state: nat, width: nat)
    ensures var n := if width < 2 then 0 else width - 1;
            && StateAfter(state, width) == StateAt(state, n) && |Draws(state, width)| == n
            && forall i :: 0 <= i < n ==> Draws(state, width)[i] == StateAt(state, i + 1) % (width - i)
    decreases width
  {
    hide NextState;
    if width >= 2 {
      var next, choices := NextState(state), Draws(state, width);
      DrawsExactly(next, width - 1);
      StateAtNext(state, width - 2);
      assert StateAt(state, 1) == next by {
        assert StateAt(state, 0) == state;
      }
      forall i | 0 <= i < width - 1 ensures choices[i] == StateAt(state, i + 1) % (width - i) {
        if i > 0 {
          StateAtNext(state, i);
          assert choices[i] == Draws(next, width - 1)[i - 1];
        }
      }
    }
  }

  // ---------- The shuffle ----------

  predicate InRange(choices: seq<nat>, width: nat) {
    && |choices| == (if width < 2 then 0 else width - 1)
    && forall i :: 0 <= i < |choices| ==> choices[i] < width - i
  }

  function Swap<E>(s: seq<E>, i: nat, j: nat): (r: seq<E>)
    requires i < |s| && j < |s|
    ensures |r| == |s|
  {
    s[i := s[j]][j := s[i]]
  }

  /** The shuffle of [begin, begin + width) that these choices determine. */
  function Shuffled<E>(s: seq<E>, begin: nat, width: nat, choices: seq<nat>): (r: seq<E>)
    requires begin + width <= |s| && InRange(choices, width)
    ensures |r| == |s|
    decreases width
  {
    if width < 2 then s
    else Shuffled(Swap(s, begin + choices[0], begin + width - 1), begin, width - 1, choices[1..])
  }

  /** A vector that is passed by pointer. */
  class Vector<E> {
    var items: seq<E>

    constructor ()
      ensures items == []
    {
      items := [];
    }
  }

  method ShuffleRange<E>(random: Random, begin: nat, end: nat, v: Vector<E>)
    requires begin <= end <= |v.items| && end - begin <= MAX_RANGE
    modifies random, v
    ensures v.items == old(Shuffled(v.items, begin, end - begin, Draws(random.state, end - begin)))
    ensures random.state == StateAfter(old(random.state), end - begin)
  {
    hide Shuffled, Draws, StateAfter, Swap, NextState;
    var rangeWidth := end - begin;
    ghost var result := Shuffled(v.items, begin, rangeWidth, Draws(random.state, rangeWidth));
    ghost var finalState := StateAfter(random.state, rangeWidth);
    while rangeWidth >= 2
      invariant 0 <= rangeWidth <= end - begin && end <= |v.items|
      invariant Shuffled(v.items, begin, rangeWidth, Draws(random.state, rangeWidth)) == result
      invariant StateAfter(random.state, rangeWidth) == finalState
    {
      var lastInRange := begin + rangeWidth - 1;
      ShuffleStep(random.state, v.items, begin, rangeWidth);
      var offset := random.Generate(rangeWidth);
      var selected := begin + offset;
      v.items := Swap(v.items, selected, lastInRange);
      rangeWidth := rangeWidth - 1;
    }
    ShuffleDone(random.state, v.items, begin, rangeWidth);
  }

  /** One round of the loop. */
  lemma ShuffleStep<E>(state: nat, s: seq<E>, begin: nat, width: nat)
    requires width >= 2 && begin + width <= |s|
    ensures var next := NextState(state);
            && Shuffled(s, begin, width, Draws(state, width)) ==
               Shuffled(Swap(s, begin + next % width, begin + width - 1), begin, width - 1, Draws(next, width - 1))
            && StateAfter(state, width) == StateAfter(next, width - 1)
  {
    hide NextState, Swap, InRange;
    var choices, next := Draws(state, width), NextState(state);
    assert choices[0] == next % width && choices[1..] == Draws(next, width - 1);
  }

  lemma ShuffleDone<E>(state: nat, s: seq<E>, begin: nat, width: nat)
    requires width < 2 && begin + width <= |s|
    ensures Shuffled(s, begin, width, Draws(state, width)) == s && StateAfter(state, width) == state
  {}

  // ---------- What a shuffle does ----------

  ghost predicate SameOutside<E>(s: seq<E>, t: seq<E>, begin: nat, width: nat) {
    |s| == |t| && forall i :: 0 <= i < |s| && !(begin <= i < begin + width) ==> s[i] == t[i]
  }

  function Range<E>(s: seq<E>, begin: nat, width: nat): seq<E>
    requires begin + width <= |s|
  {
    s[begin..begin + width]
  }

  /** t arises from s by permuting [begin, begin + width). */
  ghost predicate Rearranges<E>(s: seq<E>, t: seq<E>, begin: nat, width: nat) {
    && begin + width <= |s| && SameOutside(s, t, begin, width)
    && multiset(Range(s, begin, width)) == multiset(Range(t, begin, width))
  }

  ghost predicate Distinct<E>(s: seq<E>) {
    forall i, j :: 0 <= i < j < |s| ==> s[i] != s[j]
  }

  /** Putting the last element in the place of another removes the other. */
  lemma ReplaceByLast<E>(a: seq<E>, c: nat)
    requires c < |a|
    ensures multiset(a[c := a[|a| - 1]][..|a| - 1]) == multiset(a) - multiset{a[c]}
  {
    var z := a[|a| - 1];
    var b := a[c := z];
    var front := b[..|a| - 1];
    assert b == front + [z];
    assert multiset(b) == multiset(front) + multiset{z};
    assert multiset(b) == multiset(a) - multiset{a[c]} + multiset{z};
    assert forall x :: multiset(b)[x] == multiset(front)[x] + multiset{z}[x];
    assert multiset(front) == multiset(a) - multiset{a[c]};
  }

  lemma RangeLast<E>(s: seq<E>, begin: nat, width: nat)
    requires 0 < width && begin + width <= |s|
    ensures multiset(Range(s, begin, width)) ==
            multiset(Range(s, begin, width - 1)) + multiset{s[begin + width - 1]}
  {
    assert Range(s, begin, width) == Range(s, begin, width - 1) + [s[begin + width - 1]];
  }

  /** After a swap the chosen element is last, and the others are before it. */
  lemma SwapToLast<E>(s: seq<E>, begin: nat, width: nat, c: nat)
    requires begin + width <= |s| && c < width
    ensures var r := Swap(s, begin + c, begin + width - 1);
            && r[begin + width - 1] == s[begin + c]
            && SameOutside(s, r, begin, width)
            && multiset(Range(r, begin, width - 1)) == multiset(Range(s, begin, width)) - multiset{s[begin + c]}
  {
    var r := Swap(s, begin + c, begin + width - 1);
    var a := Range(s, begin, width);
    ReplaceByLast(a, c);
    assert Range(r, begin, width - 1) == a[c := a[width - 1]][..width - 1];
  }

  lemma {:induction false} ShuffledRearranges<E>(s: seq<E>, begin: nat, width: nat, choices: seq<nat>)
    requires begin + width <= |s| && InRange(choices, width)
    ensures Rearranges(s, Shuffled(s, begin, width, choices), begin, width)
    decreases width
  {
    if width >= 2 {
      hide Rearranges;
      var r := Swap(s, begin + choices[0], begin + width - 1);
      ShuffledRearranges(r, begin, width - 1, choices[1..]);
      RearrangesAfterSwap(s, begin, width, choices[0], Shuffled(r, begin, width - 1, choices[1..]));
    }
  }

  /** A swap to the end of a range and a rearrangement of the rest rearrange the range. */
  lemma RearrangesAfterSwap<E>(s: seq<E>, begin: nat, width: nat, c: nat, t: seq<E>)
    requires 1 <= width && begin + width <= |s| && c < width
    requires Rearranges(Swap(s, begin + c, begin + width - 1), t, begin, width - 1)
    ensures Rearranges(s, t, begin, width)
  {
    hide Swap, Range;
    var r := Swap(s, begin + c, begin + width - 1);
    SwapToLast(s, begin, width, c);
    RangeLast(t, begin, width);
    InRangeOf(s, begin, width, c);
    PutBack(multiset(Range(s, begin, width)), s[begin + c]);
    assert t[begin + width - 1] == r[begin + width - 1];
  }

  lemma PutBack<E>(m: multiset<E>, x: E)
    requires x in m
    ensures m - multiset{x} + multiset{x} == m
  {}

  lemma InRangeOf<E>(s: seq<E>, begin: nat, width: nat, c: nat)
    requires begin + width <= |s| && c < width
    ensures s[begin + c] in multiset(Range(s, begin, width))
  {
    assert Range(s, begin, width)[c] == s[begin + c];
  }

  lemma FindInRange<E>(s: seq<E>, begin: nat, width: nat, x: E) returns (c: nat)
    requires begin + width <= |s| && x in multiset(Range(s, begin, width))
    ensures c < width && s[begin + c] == x
  {
    assert x in Range(s, begin, width);
    c :| c < width && Range(s, begin, width)[c] == x;
  }

  /** Some swap makes the last element right and leaves the rest a rearrangement. */
  lemma FirstChoice<E>(s: seq<E>, t: seq<E>, begin: nat, width: nat) returns (c: nat)
    requires Rearranges(s, t, begin, width) && width > 0
    ensures c < width && Rearranges(Swap(s, begin + c, begin + width - 1), t, begin, width - 1)
  {
    InRangeOf(t, begin, width, width - 1);
    c := FindInRange(s, begin, width, t[begin + width - 1]);
    SwapToLast(s, begin, width, c);
    RangeLast(t, begin, width);
    RemoveBoth(multiset(Range(t, begin, width - 1)), multiset(Range(t, begin, width)), t[begin + width - 1]);
    SameOutsideLess(s, Swap(s, begin + c, begin + width - 1), t, begin, width);
  }

  lemma SameOutsideLess<E>(s: seq<E>, r: seq<E>, t: seq<E>, begin: nat, width: nat)
    requires SameOutside(s, r, begin, width) && SameOutside(s, t, begin, width)
    requires 0 < width && begin + width <= |s| && r[begin + width - 1] == t[begin + width - 1]
    ensures SameOutside(r, t, begin, width - 1)
  {}

  lemma SwapSelf<E>(s: seq<E>, i: nat)
    requires i < |s|
    ensures Swap(s, i, i) == s
  {}

  lemma PrependChoice<E>(s: seq<E>, begin: nat, width: nat, c: nat, rest: seq<nat>) returns (choices: seq<nat>)
    requires begin + width <= |s| && 2 <= width && c < width && InRange(rest, width - 1)
    ensures InRange(choices, width)
    ensures Shuffled(s, begin, width, choices) ==
            Shuffled(Swap(s, begin + c, begin + width - 1), begin, width - 1, rest)
  {
    choices := [c] + rest;
    assert choices[1..] == rest;
  }

  /** Every rearrangement arises from some choices. */
  lemma {:induction false} ChoicesExist<E>(s: seq<E>, t: seq<E>, begin: nat, width: nat) returns (choices: seq<nat>)
    requires Rearranges(s, t, begin, width)
    ensures InRange(choices, width) && Shuffled(s, begin, width, choices) == t
    decreases width
  {
    choices := [];
    if width == 0 {
      assert s == t;
    } else {
      var c := FirstChoice(s, t, begin, width);
      var rest := ChoicesExist(Swap(s, begin + c, begin + width - 1), t, begin, width - 1);
      if width == 1 {
        SwapSelf(s, begin);
      } else {
        choices := PrependChoice(s, begin, width, c, rest);
      }
    }
  }

  lemma RemoveBoth<E>(a: multiset<E>, b: multiset<E>, x: E)
    requires b == a + multiset{x}
    ensures a == b - multiset{x}
  {}

  /** Distinct elements show which choices were made. */
  lemma {:induction false} ChoicesUnique<E>(s: seq<E>, begin: nat, width: nat, c: seq<nat>, d: seq<nat>)
    requires begin + width <= |s| && InRange(c, width) && InRange(d, width)
    requires Distinct(Range(s, begin, width))
    requires Shuffled(s, begin, width, c) == Shuffled(s, begin, width, d)
    ensures c == d
    decreases width
  {
    if width >= 2 {
      var last := begin + width - 1;
      var r := Swap(s, begin + c[0], last);
      LastIsChosen(s, begin, width, c);
      LastIsChosen(s, begin, width, d);
      assert s[begin + c[0]] == Range(s, begin, width)[c[0]];
      assert s[begin + d[0]] == Range(s, begin, width)[d[0]];
      assert c[0] == d[0];
      SwapDistinct(s, begin, width, c[0]);
      ChoicesUnique(r, begin, width - 1, c[1..], d[1..]);
      assert c == [c[0]] + c[1..] && d == [d[0]] + d[1..];
    }
  }

  lemma LastIsChosen<E>(s: seq<E>, begin: nat, width: nat, c: seq<nat>)
    requires begin + width <= |s| && InRange(c, width) && width >= 2
    ensures Shuffled(s, begin, width, c)[begin + width - 1] == s[begin + c[0]]
  {
    var r := Swap(s, begin + c[0], begin + width - 1);
    ShuffledRearranges(r, begin, width - 1, c[1..]);
  }

  lemma SwapDistinct<E>(s: seq<E>, begin: nat, width: nat, c: nat)
    requires begin + width <= |s| && c < width && Distinct(Range(s, begin, width))
    ensures Distinct(Range(Swap(s, begin + c, begin + width - 1), begin, width - 1))
  {
    var a := Range(s, begin, width);
    var r := Swap(s, begin + c, begin + width - 1);
    var b := Range(r, begin, width - 1);
    assert forall i :: 0 <= i < |b| ==> b[i] == (if i == c then a[width - 1] else a[i]);
  }

  /** These choices are possible and produce t. */
  ghost predicate Yields<E>(s: seq<E>, t: seq<E>, begin: nat, width: nat, choices: seq<nat>)
    requires begin + width <= |s|
  {
    InRange(choices, width) && Shuffled(s, begin, width, choices) == t
  }

  /** With distinct elements each rearrangement comes from exactly one sequence of choices. */
  lemma ShuffleBijective<E>(s: seq<E>, t: seq<E>, begin: nat, width: nat)
    requires begin + width <= |s| && Distinct(Range(s, begin, width))
    ensures Rearranges(s, t, begin, width) <==>
            exists c :: Yields(s, t, begin, width, c)
    ensures forall c, d :: Yields(s, t, begin, width, c) && Yields(s, t, begin, width, d) ==> c == d
  {
    if Rearranges(s, t, begin, width) {
      var c := ChoicesExist(s, t, begin, width);
      assert Yields(s, t, begin, width, c);
    }
    forall c | Yields(s, t, begin, width, c)
      ensures Rearranges(s, t, begin, width)
    {
      ShuffledRearranges(s, begin, width, c);
    }
    forall c, d | Yields(s, t, begin, width, c) && Yields(s, t, begin, width, d)
      ensures c == d
    {
      ChoicesUnique(s, begin, width, c, d);
    }
  }
}
