/** Registration, ordering and shuffling of the test cases of Google Test. */
module UnitTest {
  import opened Glob
  import opened Shuffle
  import opened Tests

  // ---------- Names ----------

  /** The names with this answer, in order. */
  function Select<T(!new)>(names: seq<T>, isDeath: T -> bool, death: bool): (r: seq<T>)
    ensures |r| <= |names|
  {
    if names == [] then []
    else
      var last := names[|names| - 1];
      Select(names[..|names| - 1], isDeath, death) + (if isDeath(last) == death then [last] else [])
  }

  /** The names of the test cases after one more registration. */
  function Registered<T(==, !new)>(names: seq<T>, isDeath: T -> bool, name: T): seq<T> {
    if name in names then names
    else if isDeath(name) then
      var d := |Select(names, isDeath, true)|;
      names[..d] + [name] + names[d..]
    else names + [name]
  }

  function RegisteredAll<T(==, !new)>(names: seq<T>, isDeath: T -> bool): seq<T> {
    if names == [] then []
    else Registered(RegisteredAll(names[..|names| - 1], isDeath), isDeath, names[|names| - 1])
  }

  /** The distinct names in the order of their first occurrences. */
  function FirstOccurrences<T(==, !new)>(names: seq<T>): seq<T> {
    if names == [] then []
    else
      var before, last := FirstOccurrences(names[..|names| - 1]), names[|names| - 1];
      if last in before then before else before + [last]
  }

  lemma {:induction false} SelectConcat<T(!new)>(a: seq<T>, b: seq<T>, isDeath: T -> bool, death: bool)
    ensures Select(a + b, isDeath, death) == Select(a, isDeath, death) + Select(b, isDeath, death)
  {
    if b == [] {
      assert a + b == a;
    } else {
      var n := |b| - 1;
      assert (a + b)[..|a + b| - 1] == a + b[..n];
      SelectConcat(a, b[..n], isDeath, death);
    }
  }

  lemma {:induction false} SelectAll<T(!new)>(names: seq<T>, isDeath: T -> bool, death: bool)
    requires forall i :: 0 <= i < |names| ==> isDeath(names[i]) == death
    ensures Select(names, isDeath, death) == names && Select(names, isDeath, !death) == []
  {
    if names != [] {
      assert names == names[..|names| - 1] + [names[|names| - 1]];
      SelectAll(names[..|names| - 1], isDeath, death);
    }
  }

  lemma {:induction false} SelectMember<T(!new)>(names: seq<T>, isDeath: T -> bool, death: bool, x: T)
    ensures x in Select(names, isDeath, death) <==> x in names && isDeath(x) == death
  {
    if names != [] {
      assert names == names[..|names| - 1] + [names[|names| - 1]];
      SelectMember(names[..|names| - 1], isDeath, death, x);
    }
  }

  lemma SelectTwice<T(!new)>(names: seq<T>, isDeath: T -> bool, death: bool)
    ensures Select(Select(names, isDeath, death), isDeath, death) == Select(names, isDeath, death)
    ensures Select(Select(names, isDeath, death), isDeath, !death) == []
  {
    var s := Select(names, isDeath, death);
    forall i | 0 <= i < |s| ensures isDeath(s[i]) == death { SelectMember(names, isDeath, death, s[i]); }
    SelectAll(s, isDeath, death);
  }

  /** A new name goes to the end of its part of a partitioned sequence. */
  lemma RegisterPartitioned<T(!new)>(d: seq<T>, o: seq<T>, isDeath: T -> bool, name: T)
    requires Select(d, isDeath, true) == d && Select(o, isDeath, true) == []
    requires name !in d + o
    ensures Registered(d + o, isDeath, name) == if isDeath(name) then d + [name] + o else d + (o + [name])
  {
    SelectConcat(d, o, isDeath, true);
    assert |Select(d + o, isDeath, true)| == |d|;
    if isDeath(name) {
      assert (d + o)[..|d|] == d && (d + o)[|d|..] == o;
    } else {
      assert (d + o) + [name] == d + (o + [name]);
    }
  }

  /** Registration keeps a stable partition: the death tests in the order of their first
      registration, then the others in the order of theirs. */
  lemma {:induction false} RegistrationStable<T(!new)>(names: seq<T>, isDeath: T -> bool)
    ensures var first := FirstOccurrences(names);
            RegisteredAll(names, isDeath) == Select(first, isDeath, true) + Select(first, isDeath, false)
  {
    if names != [] {
      var before, last := names[..|names| - 1], names[|names| - 1];
      RegistrationStable(before, isDeath);
      RegisterNext(FirstOccurrences(before), isDeath, last);
    }
  }

  lemma RegisterNext<T(!new)>(first: seq<T>, isDeath: T -> bool, name: T)
    ensures var next := if name in first then first else first + [name];
            Registered(Select(first, isDeath, true) + Select(first, isDeath, false), isDeath, name) ==
            Select(next, isDeath, true) + Select(next, isDeath, false)
  {
    SelectMember(first, isDeath, true, name);
    SelectMember(first, isDeath, false, name);
    if name !in first {
      SelectTwice(first, isDeath, true);
      SelectTwice(first, isDeath, false);
      RegisterPartitioned(Select(first, isDeath, true), Select(first, isDeath, false), isDeath, name);
      assert (first + [name])[..|first|] == first;
      var d, o := Select(first, isDeath, true), Select(first, isDeath, false);
      assert o + [] == o && d + [] == d;
    }
  }

  // ---------- Partitioned sequences ----------

  /** The first d names are those of death tests. */
  ghost predicate Partitioned<T>(names: seq<T>, isDeath: T -> bool, d: nat) {
    d <= |names| && forall i :: 0 <= i < |names| ==> (isDeath(names[i]) <==> i < d)
  }

  function Insert<T>(s: seq<T>, k: nat, x: T): (r: seq<T>)
    requires k <= |s|
    ensures |r| == |s| + 1
    ensures forall i :: 0 <= i < |r| ==> r[i] == if i < k then s[i] else if i == k then x else s[i - 1]
  {
    s[..k] + [x] + s[k..]
  }

  lemma InsertKeepsDistinct<T>(s: seq<T>, k: nat, x: T)
    requires k <= |s| && Distinct(s) && x !in s
    ensures Distinct(Insert(s, k, x))
  {}

  lemma InsertKeepsPartition<T(!new)>(names: seq<T>, isDeath: T -> bool, d: nat, name: T)
    requires Partitioned(names, isDeath, d)
    ensures isDeath(name) ==> Partitioned(Insert(names, d, name), isDeath, d + 1)
    ensures !isDeath(name) ==> Partitioned(Insert(names, |names|, name), isDeath, d)
  {}

  lemma RegisteredInserts<T(!new)>(names: seq<T>, isDeath: T -> bool, d: nat, name: T)
    requires Partitioned(names, isDeath, d) && name !in names
    ensures Registered(names, isDeath, name) == Insert(names, if isDeath(name) then d else |names|, name)
  {
    if isDeath(name) {
      SelectPartitioned(names, names[..d], names[d..], isDeath);
    } else {
      assert Insert(names, |names|, name) == names + [name];
    }
  }

  lemma SelectPartitioned<T(!new)>(names: seq<T>, a: seq<T>, b: seq<T>, isDeath: T -> bool)
    requires names == a + b
    requires forall i :: 0 <= i < |a| ==> isDeath(a[i])
    requires forall i :: 0 <= i < |b| ==> !isDeath(b[i])
    ensures |Select(names, isDeath, true)| == |a|
  {
    SelectConcat(a, b, isDeath, true);
    SelectAll(a, isDeath, true);
    SelectAll(b, isDeath, false);
  }

  // ---------- The indices of the test cases ----------

  /** The state after shuffles of these widths. */
  function StateAfterAll(state: nat, widths: seq<nat>): nat
    decreases |widths|
  {
    if widths == [] then state else StateAfterAll(StateAfter(state, widths[0]), widths[1..])
  }

  lemma {:induction false} StateAfterNext(state: nat, widths: seq<nat>, k: nat)
    requires k < |widths|
    ensures StateAfterAll(state, widths[..k + 1]) == StateAfter(StateAfterAll(state, widths[..k]), widths[k])
    decreases k
  {
    hide StateAfter;
    if k > 0 {
      StateAfterNext(StateAfter(state, widths[0]), widths[1..], k - 1);
      assert widths[..k + 1][1..] == widths[1..][..k] && widths[..k][1..] == widths[1..][..k - 1];
    } else {
      assert widths[..1][1..] == [] && widths[..0] == [];
    }
  }

  lemma NoShuffles(state: nat)
    ensures StateAfterAll(state, []) == state
  {}

  /** A permutation of 0..n-1 that maps the first d positions to the first d indices. */
  ghost predicate KeepsFirst(items: seq<nat>, n: nat, d: nat)
    requires d <= n
  {
    && |items| == n
    && multiset(items[..d]) == multiset(Identity(n)[..d])
    && multiset(items[d..]) == multiset(Identity(n)[d..])
  }

  lemma IdentityAppend(n: nat)
    ensures Identity(n) + [n] == Identity(n + 1)
  {}

  lemma IdentityKeepsFirst(n: nat, d: nat)
    requires d <= n
    ensures KeepsFirst(Identity(n), n, d)
  {}

  lemma TwoRangesKeepFirst(a: seq<nat>, b: seq<nat>, c: seq<nat>, n: nat, d: nat)
    requires d <= n && KeepsFirst(a, n, d)
    requires Rearranges(a, b, 0, d) && Rearranges(b, c, d, n - d)
    ensures KeepsFirst(c, n, d)
  {
    assert a[..d] == Range(a, 0, d) && b[..d] == Range(b, 0, d) && c[..d] == b[..d];
    assert b[d..] == Range(b, d, n - d) && c[d..] == Range(c, d, n - d) && a[d..] == b[d..];
  }

  lemma KeepsFirstRange(items: seq<nat>, n: nat, d: nat)
    requires d <= n && KeepsFirst(items, n, d)
    ensures forall i :: 0 <= i < n ==> items[i] < n && (items[i] < d <==> i < d)
    ensures forall x: nat :: x < n ==> x in items
  {
    forall i | 0 <= i < n
      ensures items[i] < n && (items[i] < d <==> i < d)
    {
      if i < d {
        assert items[..d][i] in multiset(items[..d]);
        assert items[i] in Identity(n)[..d];
      } else {
        assert items[d..][i - d] in multiset(items[d..]);
        assert items[i] in Identity(n)[d..];
      }
    }
    forall x: nat | x < n
      ensures x in items
    {
      if x < d {
        assert Identity(n)[..d][x] in multiset(items[..d]);
      } else {
        assert Identity(n)[d..][x - d] in multiset(items[d..]);
      }
    }
  }

  lemma DeathNamesFirst(names: seq<string>, items: seq<nat>, isDeath: string -> bool, d: nat)
    requires Partitioned(names, isDeath, d) && KeepsFirst(items, |names|, d)
    ensures forall i :: 0 <= i < |names| ==> items[i] < |names|
    ensures forall i, j :: 0 <= i < j < |names| && isDeath(names[items[j]]) ==> isDeath(names[items[i]])
  {
    KeepsFirstRange(items, |names|, d);
    hide KeepsFirst;
  }

  ghost function NamesOf(testCases: seq<TestCase>): (names: seq<string>)
    ensures |names| == |testCases| && forall i :: 0 <= i < |names| ==> names[i] == testCases[i].name
  {
    seq(|testCases|, i requires 0 <= i < |testCases| => testCases[i].name)
  }

  ghost function VectorsOf(testCases: seq<TestCase>): (vectors: seq<Vector<nat>>)
    ensures |vectors| == |testCases| && forall i :: 0 <= i < |vectors| ==> vectors[i] == testCases[i].testIndices
  {
    seq(|testCases|, i requires 0 <= i < |testCases| => testCases[i].testIndices)
  }

  ghost function Widths(vectors: seq<Vector<nat>>): (widths: seq<nat>)
    reads vectors
    ensures |widths| == |vectors| && forall i :: 0 <= i < |vectors| ==> widths[i] == |vectors[i].items|
  {
    seq(|vectors|, i requires 0 <= i < |vectors| reads vectors => |vectors[i].items|)
  }

  /** Death tests come first, names are distinct, and no two test cases share a vector. */
  ghost predicate Arranged(testCases: seq<TestCase>, isDeath: string -> bool, d: nat) {
    Partitioned(NamesOf(testCases), isDeath, d) && Distinct(NamesOf(testCases)) && Distinct(VectorsOf(testCases))
  }

  lemma DistinctVectors(testCases: seq<TestCase>, isDeath: string -> bool, d: nat)
    requires Arranged(testCases, isDeath, d)
    ensures Distinct(VectorsOf(testCases))
  {}

  lemma InsertMembers<T>(s: seq<T>, k: nat, x: T)
    requires k <= |s|
    ensures forall y :: y in Insert(s, k, x) <==> y in s || y == x
  {}

  /** What the insertion of a test case does to the names and the vectors. */
  lemma InsertTestCase(testCases: seq<TestCase>, isDeath: string -> bool, d: nat, testCase: TestCase)
    requires Arranged(testCases, isDeath, d)
    requires testCase.name !in NamesOf(testCases) && testCase.testIndices !in VectorsOf(testCases)
    ensures var death := isDeath(testCase.name);
            var k := if death then d else |testCases|;
            var r := Insert(testCases, k, testCase);
            && NamesOf(r) == Registered(NamesOf(testCases), isDeath, testCase.name)
            && Arranged(r, isDeath, if death then d + 1 else d)
            && forall v :: v in VectorsOf(r) <==> v in VectorsOf(testCases) || v == testCase.testIndices
  {
    var names, vectors := NamesOf(testCases), VectorsOf(testCases);
    var k := if isDeath(testCase.name) then d else |testCases|;
    RegisteredInserts(names, isDeath, d, testCase.name);
    InsertKeepsPartition(names, isDeath, d, testCase.name);
    InsertKeepsDistinct(names, k, testCase.name);
    InsertKeepsDistinct(vectors, k, testCase.testIndices);
    InsertMembers(vectors, k, testCase.testIndices);
    MapInsert(testCases, k, testCase);
  }

  lemma MapInsert(testCases: seq<TestCase>, k: nat, testCase: TestCase)
    requires k <= |testCases|
    ensures NamesOf(Insert(testCases, k, testCase)) == Insert(NamesOf(testCases), k, testCase.name)
    ensures VectorsOf(Insert(testCases, k, testCase)) == Insert(VectorsOf(testCases), k, testCase.testIndices)
  {}

  class UnitTestImpl {
    const random: Random
    const testCaseIndices: Vector<nat>
    const deathTestCaseFilter: string
    const disableTestFilter: string
    var testCases: seq<TestCase>
    var lastDeathTestCase: int

    constructor (seed: nat)
      ensures Valid() && Unshuffled() && testCases == [] && fresh(random) && fresh(testCaseIndices)
      ensures deathTestCaseFilter == "*DeathTest:*DeathTest/*"
      ensures disableTestFilter == "DISABLED_*:*/DISABLED_*"
      ensures random.state == seed
    {
      random := new Random(seed);
      testCaseIndices := new Vector<nat>();
      deathTestCaseFilter := "*DeathTest:*DeathTest/*";
      disableTestFilter := "DISABLED_*:*/DISABLED_*";
      testCases := [];
      lastDeathTestCase := -1;
    }

    ghost function IsDeath(): string -> bool { Matching(deathTestCaseFilter) }

    ghost predicate Structured()
      reads this
    {
      && 0 <= lastDeathTestCase + 1 <= |testCases|
      && Arranged(testCases, IsDeath(), lastDeathTestCase + 1)
      && testCaseIndices !in VectorsOf(testCases)
    }

    ghost predicate Valid()
      reads this, testCaseIndices
    {
      && Structured() && |testCaseIndices.items| == |testCases|
      && KeepsFirst(testCaseIndices.items, |testCases|, lastDeathTestCase + 1)
    }

    ghost predicate Unshuffled()
      reads this, testCaseIndices
    {
      testCaseIndices.items == Identity(|testCases|)
    }

    ghost function Names(): (names: seq<string>)
      reads this
    {
      NamesOf(testCases)
    }

    /** Any test case of this name; -1 if there is none. */
    method FindTestCase(name: string) returns (i: int)
      ensures i == -1 ==> name !in Names()
      ensures i != -1 ==> 0 <= i < |testCases| && testCases[i].name == name
    {
      i := 0;
      while i < |testCases|
        invariant 0 <= i <= |testCases|
        invariant forall k :: 0 <= k < i ==> Names()[k] != name
      {
        if testCases[i].name == name {
          return;
        }
        i := i + 1;
      }
      i := -1;
    }

    method GetTestCase(name: string) returns (testCase: TestCase)
      requires Valid() && Unshuffled()
      modifies this`testCases, this`lastDeathTestCase, testCaseIndices
      ensures Valid() && Unshuffled()
      ensures Names() == Registered(old(Names()), IsDeath(), name)
      ensures testCase.name == name && forall t :: t in testCases <==> t in old(testCases) || t == testCase
      ensures if name in old(Names()) then testCases == old(testCases)
              else fresh(testCase) && fresh(testCase.testIndices) && testCase.testIndices.items == []
    {
      var found := FindTestCase(name);
      if found != -1 {
        assert Names()[found] == name;
        return testCases[found];
      }
      testCase := new TestCase(name);
      AddTestCase(testCase);
    }

    /** Puts a new test case after the last death test if it is one, at the end otherwise. */
    method AddTestCase(testCase: TestCase)
      requires Structured() && Unshuffled()
      requires testCase.name !in Names()
      requires testCase.testIndices !in VectorsOf(testCases) && testCase.testIndices != testCaseIndices
      modifies this`testCases, this`lastDeathTestCase, testCaseIndices
      ensures Valid() && Unshuffled()
      ensures Names() == Registered(old(Names()), IsDeath(), testCase.name)
      ensures forall t :: t in testCases <==> t in old(testCases) || t == testCase
    {
      ghost var n := |testCases|;
      var isDeath := NameMatches(testCase.name, deathTestCaseFilter);
      var position := |testCases|;
      InsertTestCase(testCases, IsDeath(), lastDeathTestCase + 1, testCase);
      if isDeath {
        lastDeathTestCase := lastDeathTestCase + 1;
        position := lastDeathTestCase;
      }
      InsertMembers(testCases, position, testCase);
      testCases := Insert(testCases, position, testCase);
      IdentityAppend(n);
      testCaseIndices.items := testCaseIndices.items + [|testCaseIndices.items|];
      IdentityKeepsFirst(n + 1, lastDeathTestCase + 1);
    }

    /** No range is too long for the random numbers. */
    ghost predicate Shuffleable()
      reads this, testCaseIndices, VectorsOf(testCases)
    {
      && Valid() && |testCases| <= MAX_RANGE
      && forall v :: v in VectorsOf(testCases) ==> |v.items| <= MAX_RANGE
    }

    /** The death test cases and the others are shuffled among themselves, then the tests of
        each test case, all with one stream of random numbers. */
    method ShuffleTests()
      requires Shuffleable()
      modifies random, testCaseIndices, VectorsOf(testCases)
      ensures Valid()
      ensures testCaseIndices.items == CasesShuffled(old(testCaseIndices.items), old(random.state))
      ensures var vectors, state := VectorsOf(testCases), StateAfterCases(old(random.state));
              forall k :: 0 <= k < |vectors| ==>
                ShuffledWith(old(vectors[k].items), vectors[k].items,
                             StateAfterAll(state, old(Widths(VectorsOf(testCases)))[..k]))
    {
      hide Shuffled, Draws, StateAfter, StateAfterAll, ShuffledWith, KeepsFirst, Arranged;
      ShuffleTestCases();
      ShuffleInsideTestCases();
    }

    /** The indices after the death test cases and then the others have been shuffled. */
    ghost function CasesShuffled(items: seq<nat>, state: nat): seq<nat>
      requires 0 <= lastDeathTestCase + 1 <= |testCases| == |items|
      reads this
    {
      var n, d := |testCases|, lastDeathTestCase + 1;
      Shuffled(Shuffled(items, 0, d, Draws(state, d)), d, n - d, Draws(StateAfter(state, d), n - d))
    }

    ghost function StateAfterCases(state: nat): nat
      requires 0 <= lastDeathTestCase + 1 <= |testCases|
      reads this
    {
      StateAfter(StateAfter(state, lastDeathTestCase + 1), |testCases| - (lastDeathTestCase + 1))
    }

    /** The death test cases are shuffled by the first numbers, as many as they are less one, the
        others by those after them; then come the numbers for the tests of the test cases. */
    lemma CasesShuffledExactly(items: seq<nat>, state: nat)
      requires 0 <= lastDeathTestCase + 1 <= |testCases| == |items|
      ensures var n, d := |items|, lastDeathTestCase + 1;
              var drawn: nat := if d < 2 then 0 else d - 1;
              var drawnThen: nat := if n - d < 2 then 0 else n - d - 1;
              && CasesShuffled(items, state) ==
                 Shuffled(Shuffled(items, 0, d, Draws(state, d)), d, n - d, Draws(StateAt(state, drawn), n - d))
              && StateAfterCases(state) == StateAt(state, drawn + drawnThen)
    {
      hide Shuffled, Draws, StateAfter, StateAt;
      var n, d := |items|, lastDeathTestCase + 1;
      DrawsExactly(state, d);
      DrawsExactly(StateAfter(state, d), n - d);
      StateAtTwice(state, if d < 2 then 0 else d - 1, if n - d < 2 then 0 else n - d - 1);
    }

    lemma NoDeathTests()
      requires Valid() && testCases != [] && forall name :: name in Names() ==> !IsDeath()(name)
      ensures lastDeathTestCase == -1
    {
      hide KeepsFirst, Matching;
      assert Names()[0] in Names();
    }

    lemma AllShort()
      requires Valid() && |testCases| <= MAX_RANGE
      requires forall t :: t in testCases ==> t.testIndices.items == []
      ensures Shuffleable()
    {
      hide KeepsFirst, Arranged, Matching;
      var vectors := VectorsOf(testCases);
      forall v | v in vectors ensures v.items == [] {
        var i :| 0 <= i < |vectors| && vectors[i] == v;
        assert testCases[i] in testCases;
      }
    }

    lemma TwoSwapped()
      requires |testCases| == 2 && lastDeathTestCase == -1
      ensures CasesShuffled([0, 1], 1) == [1, 0]
    {
      hide Shuffled, Draws, NextState, StateAfter;
      SwapsTwo();
    }

    lemma SwappedIsShuffled()
      requires Valid() && testCaseIndices.items == [1, 0]
      ensures !Unshuffled() && GetConstTestCase(0) != GetMutableTestCase(0)
    {
      hide KeepsFirst, Matching;
      assert Identity(2)[0] == 0;
      assert Names()[0] != Names()[1];
    }

    method ShuffleTestCases()
      requires Valid() && |testCases| <= MAX_RANGE
      modifies random, testCaseIndices
      ensures Valid()
      ensures testCaseIndices.items == CasesShuffled(old(testCaseIndices.items), old(random.state))
      ensures random.state == StateAfterCases(old(random.state))
    {
      hide Shuffled, Draws, StateAfter, KeepsFirst, Arranged;
      var n, d := |testCases|, lastDeathTestCase + 1;
      ghost var before, choices := testCaseIndices.items, Draws(random.state, d);
      ShuffleRange(random, 0, d, testCaseIndices);
      ghost var between, others := testCaseIndices.items, Draws(random.state, n - d);
      ShuffleRange(random, d, n, testCaseIndices);
      ShuffledRearranges(before, 0, d, choices);
      ShuffledRearranges(between, d, n - d, others);
      TwoRangesKeepFirst(before, between, testCaseIndices.items, n, d);
    }

    /** The last loop of ShuffleTests. */
    method ShuffleInsideTestCases()
      requires Structured()
      requires forall v :: v in VectorsOf(testCases) ==> |v.items| <= MAX_RANGE
      modifies random, VectorsOf(testCases)
      ensures testCaseIndices.items == old(testCaseIndices.items)
      ensures var vectors, widths := VectorsOf(testCases), old(Widths(VectorsOf(testCases)));
              forall k :: 0 <= k < |vectors| ==>
                ShuffledWith(old(vectors[k].items), vectors[k].items, StateAfterAll(old(random.state), widths[..k]))
    {
      hide ShuffledWith, StateAfter, StateAfterAll, Arranged;
      NoShuffles(random.state);
      ghost var vectors, widths := VectorsOf(testCases), Widths(VectorsOf(testCases));
      assert widths[..0] == [];
      DistinctVectors(testCases, IsDeath(), lastDeathTestCase + 1);
      for i := 0 to |testCases|
        invariant random.state == StateAfterAll(old(random.state), widths[..i])
        invariant forall k :: 0 <= k < i ==>
                    ShuffledWith(old(vectors[k].items), vectors[k].items, StateAfterAll(old(random.state), widths[..k]))
        invariant forall k :: i <= k < |vectors| ==> vectors[k].items == old(vectors[k].items)
      {
        assert testCases[i].testIndices == vectors[i];
        StateAfterNext(old(random.state), widths, i);
        testCases[i].ShuffleTests(random);
      }
    }

    method UnshuffleTests()
      requires Structured() && |testCaseIndices.items| == |testCases|
      modifies testCaseIndices, VectorsOf(testCases)
      ensures Valid() && Unshuffled()
      ensures forall v :: v in VectorsOf(testCases) ==> v.items == Identity(|old(v.items)|)
    {
      ghost var vectors := VectorsOf(testCases);
      ghost var n := |testCases|;
      for i := 0 to |testCases|
        invariant |testCaseIndices.items| == n
        invariant forall k :: 0 <= k < i ==> testCaseIndices.items[k] == k
        invariant forall k :: 0 <= k < i ==> vectors[k].items == Identity(|old(vectors[k].items)|)
        invariant forall k :: i <= k < n ==> vectors[k].items == old(vectors[k].items)
      {
        assert testCases[i].testIndices == vectors[i];
        testCases[i].UnshuffleTests();
        testCaseIndices.items := testCaseIndices.items[i := i];
      }
      assert testCaseIndices.items == Identity(n);
      IdentityKeepsFirst(n, lastDeathTestCase + 1);
    }

    /** The i-th test case in running order; null outside the range. */
    function GetMutableTestCase(i: int): (r: TestCase?)
      requires Valid()
      reads this, testCaseIndices
      ensures r != null <==> 0 <= i < |testCases|
    {
      KeepsFirstRange(testCaseIndices.items, |testCases|, lastDeathTestCase + 1);
      if 0 <= i < |testCaseIndices.items| then testCases[testCaseIndices.items[i]] else null
    }

    /** The read-only variant, which looks the index up and then does not use it. */
    function GetConstTestCase(i: int): TestCase?
      requires Valid()
      reads this, testCaseIndices
    {
      if 0 <= i < |testCaseIndices.items| then testCases[i] else null
    }

    /** In running order each test case has one position, and no death test comes after
        another test. */
    lemma DeathTestsRunFirst()
      requires Valid()
      ensures forall t :: t in testCases ==>
                exists i :: 0 <= i < |testCases| && GetMutableTestCase(i) == t
      ensures forall i, j :: 0 <= i < j < |testCases| && IsDeath()(GetMutableTestCase(j).name) ==>
                IsDeath()(GetMutableTestCase(i).name)
    {
      hide *;
      EachTestCaseRuns();
      NoDeathTestAfterOthers();
    }

    lemma EachTestCaseRuns()
      requires Valid()
      ensures forall t :: t in testCases ==>
                exists i :: 0 <= i < |testCases| && GetMutableTestCase(i) == t
    {
      KeepsFirstRange(testCaseIndices.items, |testCases|, lastDeathTestCase + 1);
      hide KeepsFirst, Arranged, Matching;
      forall t | t in testCases
        ensures exists i :: 0 <= i < |testCases| && GetMutableTestCase(i) == t
      {
        var k: nat :| k < |testCases| && testCases[k] == t;
        assert k in testCaseIndices.items;
        var i :| 0 <= i < |testCases| && testCaseIndices.items[i] == k;
        assert GetMutableTestCase(i) == t;
      }
    }

    lemma NoDeathTestAfterOthers()
      requires Valid()
      ensures forall i, j :: 0 <= i < j < |testCases| && IsDeath()(GetMutableTestCase(j).name) ==>
                IsDeath()(GetMutableTestCase(i).name)
    {
      DeathNamesFirst(Names(), testCaseIndices.items, IsDeath(), lastDeathTestCase + 1);
      hide KeepsFirst, Arranged, Matching, Partitioned;
      forall i, j | 0 <= i < j < |testCases| && IsDeath()(GetMutableTestCase(j).name)
        ensures IsDeath()(GetMutableTestCase(i).name)
      {
        assert Names()[testCaseIndices.items[j]] == GetMutableTestCase(j).name;
        assert Names()[testCaseIndices.items[i]] == GetMutableTestCase(i).name;
      }
    }

    /** The two variants agree exactly while the tests are not shuffled. */
    lemma ConstVariantIgnoresOrder()
      requires Valid()
      ensures (forall i :: GetConstTestCase(i) == GetMutableTestCase(i)) <==> Unshuffled()
    {
      KeepsFirstRange(testCaseIndices.items, |testCases|, lastDeathTestCase + 1);
      if forall i :: GetConstTestCase(i) == GetMutableTestCase(i) {
        forall i | 0 <= i < |testCases|
          ensures testCaseIndices.items[i] == i
        {
          assert GetConstTestCase(i) == GetMutableTestCase(i);
          assert Names()[i] == Names()[testCaseIndices.items[i]];
        }
      }
    }
  }

  lemma FirstTwo(isDeath: string -> bool, a: string, b: string)
    requires a != b && !isDeath(a) && !isDeath(b)
    ensures Registered([], isDeath, a) == [a] && Registered([a], isDeath, b) == [a, b]
  {}

  /** With seed 1 the first draw for two elements is 0. */
  lemma FirstDraw()
    ensures NextState(1) % 2 == 0
  {}

  lemma SwapsTwo()
    ensures Shuffled<nat>([0, 1], 0, 0, Draws(1, 0)) == [0, 1] && StateAfter(1, 0) == 1
    ensures Shuffled<nat>([0, 1], 0, 2, Draws(1, 2)) == [1, 0]
  {
    hide NextState;
    FirstDraw();
    ShuffleDone<nat>(1, [0, 1], 0, 0);
    ShuffleStep<nat>(1, [0, 1], 0, 2);
    var swapped: seq<nat> := Swap<nat>([0, 1], 0, 1);
    ShuffleDone(NextState(1), swapped, 0, 1);
    assert swapped == [1, 0];
  }

  lemma VectorsAmong(testCases: seq<TestCase>, a: TestCase, b: TestCase)
    requires forall t :: t in testCases ==> t == a || t == b
    ensures var vectors := VectorsOf(testCases);
            forall i :: 0 <= i < |vectors| ==> vectors[i] == a.testIndices || vectors[i] == b.testIndices
  {
    forall i | 0 <= i < |testCases|
      ensures testCases[i].testIndices == a.testIndices || testCases[i].testIndices == b.testIndices
    {
      assert testCases[i] in testCases;
    }
  }

  /** The patterns of death tests ask for nine characters. */
  lemma NoDeathNames(name: string)
    requires |name| < 9
    ensures !Matching("*DeathTest:*DeathTest/*")(name)
  {
    hide LeastLength, Matching;
    var a, b := "*" + "DeathTest", "*" + ("DeathTest" + "/*");
    PlainLength("DeathTest");
    LeastLengthAppend("*", "DeathTest");
    LeastLengthAppend("DeathTest", "/*");
    LeastLengthAppend("*", "DeathTest" + "/*");
    TooShort(a, b, name);
    DeathFilterText();
  }

  lemma DeathFilterText()
    ensures "*" + "DeathTest" + (":" + ("*" + ("DeathTest" + "/*"))) == "*DeathTest:*DeathTest/*"
  {}

  /** Two test cases without death tests, registered but not yet shuffled. */
  method RegisterTwo(seed: nat, first: string, second: string) returns (impl: UnitTestImpl)
    requires first != second && |first| < 9 && |second| < 9
    ensures fresh(impl) && fresh(impl.random) && fresh(impl.testCaseIndices)
    ensures fresh(VectorsOf(impl.testCases))
    ensures impl.Shuffleable() && impl.Unshuffled() && impl.random.state == seed
    ensures impl.Names() == [first, second] && impl.lastDeathTestCase == -1
  {
    hide Registered, Matching, Arranged, KeepsFirst;
    hide UnitTestImpl.CasesShuffled, UnitTestImpl.GetConstTestCase, UnitTestImpl.GetMutableTestCase;
    impl := new UnitTestImpl(seed);
    NoDeathNames(first);
    NoDeathNames(second);
    FirstTwo(impl.IsDeath(), first, second);
    assert impl.Names() == [];
    var a := impl.GetTestCase(first);
    assert impl.Names() == [first];
    var b := impl.GetTestCase(second);
    assert impl.Names() == [first, second];
    impl.NoDeathTests();
    impl.AllShort();
    VectorsAmong(impl.testCases, a, b);
    ghost var vectors := VectorsOf(impl.testCases);
    forall i | 0 <= i < |vectors| ensures fresh(vectors[i]) {
      assert vectors[i] == a.testIndices || vectors[i] == b.testIndices;
    }
  }

  /** Two test cases in shuffled order: the two lookups disagree on the first one. */
  method ShuffledExample(first: string, second: string) returns (impl: UnitTestImpl)
    requires first != second && |first| < 9 && |second| < 9
    ensures fresh(impl) && impl.Valid() && !impl.Unshuffled()
    ensures impl.GetConstTestCase(0) != impl.GetMutableTestCase(0)
  {
    hide NextState, Shuffled, Draws, StateAfter, Arranged, KeepsFirst;
    hide UnitTestImpl.GetConstTestCase, UnitTestImpl.GetMutableTestCase;
    impl := RegisterTwo(1, first, second);
    impl.TwoSwapped();
    assert impl.testCaseIndices.items == [0, 1];
    impl.ShuffleTests();
    impl.SwappedIsShuffled();
  }
}
