/** Google Test's selection of the tests of one shard. */
module Sharding {
  import opened Arithmetic
  import opened Glob
  import Shuffle
  import opened Tests

  // ---------- Which tests a shard runs ----------

  datatype Reaction = IgnoreShardingProtocol | HonorShardingProtocol(totalShards: nat, shardIndex: nat)

  predicate ShouldRunTestOnShard(totalShards: nat, shardIndex: nat, testId: nat)
    requires totalShards > 0
  {
    testId % totalShards == shardIndex
  }

  ghost predicate IsReaction(reaction: Reaction) {
    reaction.HonorShardingProtocol? ==> reaction.totalShards > 0
  }

  /** Whether the reaction to sharding lets the test with this identifier run. */
  ghost predicate OnThisShard(reaction: Reaction, testId: nat)
    requires IsReaction(reaction)
  {
    || reaction == IgnoreShardingProtocol
    || ShouldRunTestOnShard(reaction.totalShards, reaction.shardIndex, testId)
  }

  /** What the filters say of a test. */
  datatype Verdict = Verdict(isDisabled: bool, matchesFilter: bool, isRunnable: bool)

  /** The verdicts on the tests of each test case. */
  type Verdicts = seq<seq<Verdict>>

  /** The number of runnable tests among the first j of a test case. */
  function RowRunnable(row: seq<Verdict>, j: nat): nat
    requires j <= |row|
  {
    if j == 0 then 0 else RowRunnable(row, j - 1) + if row[j - 1].isRunnable then 1 else 0
  }

  /** The number of runnable tests in the first i test cases. */
  function RunnableBefore(r: Verdicts, i: nat): nat
    requires i <= |r|
  {
    if i == 0 then 0 else RunnableBefore(r, i - 1) + RowRunnable(r[i - 1], |r[i - 1]|)
  }

  /** Whether test j of a test case runs on this shard; its identifier is the number of
      runnable tests before it, `base` of them in earlier test cases. */
  ghost predicate IsPicked(row: seq<Verdict>, reaction: Reaction, base: nat, j: nat)
    requires j < |row| && IsReaction(reaction)
  {
    row[j].isRunnable && OnThisShard(reaction, base + RowRunnable(row, j))
  }

  ghost function Picks(row: seq<Verdict>, reaction: Reaction, base: nat): (picks: seq<bool>)
    requires IsReaction(reaction)
    ensures |picks| == |row| && forall j :: 0 <= j < |picks| ==> picks[j] == IsPicked(row, reaction, base, j)
  {
    seq(|row|, j requires 0 <= j < |row| => IsPicked(row, reaction, base, j))
  }

  /** The number of selected tests among the first j of a test case. */
  ghost function RowSelected(row: seq<Verdict>, reaction: Reaction, base: nat, j: nat): nat
    requires j <= |row| && IsReaction(reaction)
  {
    if j == 0 then 0
    else RowSelected(row, reaction, base, j - 1) + if IsPicked(row, reaction, base, j - 1) then 1 else 0
  }

  ghost function CasePicks(r: Verdicts, reaction: Reaction, i: nat): seq<bool>
    requires i < |r| && IsReaction(reaction)
  {
    Picks(r[i], reaction, RunnableBefore(r, i))
  }

  /** The number of selected tests in the first i test cases. */
  ghost function SelectedBefore(r: Verdicts, reaction: Reaction, i: nat): nat
    requires i <= |r| && IsReaction(reaction)
  {
    if i == 0 then 0
    else SelectedBefore(r, reaction, i - 1) + RowSelected(r[i - 1], reaction, RunnableBefore(r, i - 1), |r[i - 1]|)
  }

  /** Each runnable test runs on exactly one shard, and no other test on any. */
  lemma EachTestOnOneShard(r: Verdicts, n: nat, i: nat, j: nat)
    requires n >= 1 && i < |r| && j < |r[i]|
    ensures r[i][j].isRunnable <==> exists k :: 0 <= k < n && CasePicks(r, HonorShardingProtocol(n, k), i)[j]
    ensures forall k: nat, l: nat ::
              (CasePicks(r, HonorShardingProtocol(n, k), i)[j] && CasePicks(r, HonorShardingProtocol(n, l), i)[j])
              ==> k == l
  {
    var id := RunnableBefore(r, i) + RowRunnable(r[i], j);
    var s := id % n;
    assert forall k: nat :: CasePicks(r, HonorShardingProtocol(n, k), i)[j] <==> r[i][j].isRunnable && s == k;
    assert r[i][j].isRunnable ==> CasePicks(r, HonorShardingProtocol(n, s), i)[j];
  }

  /** The share of shard k in m consecutive identifiers. */
  function Share(m: nat, n: nat, k: nat): nat
    requires n > 0
  {
    m / n + if k < m % n then 1 else 0
  }

  lemma ShareStep(m: nat, n: nat, k: nat)
    requires k < n
    ensures Share(m + 1, n, k) == Share(m, n, k) + if ShouldRunTestOnShard(n, k, m) then 1 else 0
    ensures Share(0, n, k) == 0
  {
    var q, s := m / n, m % n;
    assert m == q * n + s;
    if s + 1 < n {
      Quotient(m + 1, n, q, s + 1);
    } else {
      assert m + 1 == (q + 1) * n;
      Quotient(m + 1, n, q + 1, 0);
    }
  }

  lemma {:induction false} RowIsShare(row: seq<Verdict>, n: nat, k: nat, base: nat, j: nat)
    requires k < n && j <= |row|
    ensures Share(base, n, k) + RowSelected(row, HonorShardingProtocol(n, k), base, j) ==
            Share(base + RowRunnable(row, j), n, k)
  {
    if j > 0 {
      RowIsShare(row, n, k, base, j - 1);
      ShareStep(base + RowRunnable(row, j - 1), n, k);
    }
  }

  lemma {:induction false} SelectedIsShare(r: Verdicts, n: nat, k: nat, i: nat)
    requires k < n && i <= |r|
    ensures SelectedBefore(r, HonorShardingProtocol(n, k), i) == Share(RunnableBefore(r, i), n, k)
  {
    if i > 0 {
      SelectedIsShare(r, n, k, i - 1);
      RowIsShare(r[i - 1], n, k, RunnableBefore(r, i - 1), |r[i - 1]|);
    } else {
      ShareStep(0, n, k);
    }
  }

  /** The sizes of any two shards differ by at most one. */
  lemma ShardsBalanced(r: Verdicts, n: nat, k: nat, l: nat)
    requires k < n && l < n
    ensures var a := SelectedBefore(r, HonorShardingProtocol(n, k), |r|);
            var b := SelectedBefore(r, HonorShardingProtocol(n, l), |r|);
            -1 <= a - b <= 1
  {
    SelectedIsShare(r, n, k, |r|);
    SelectedIsShare(r, n, l, |r|);
  }

  // ---------- FilterTests ----------

  datatype Flags = Flags(filter: string, alsoRunDisabledTests: bool, disableTestFilter: string)

  ghost function Judge(flags: Flags, caseName: string, testName: string): Verdict {
    var isDisabled := Matching(flags.disableTestFilter)(caseName) || Matching(flags.disableTestFilter)(testName);
    var matchesFilter := Passes(flags.filter, FullName(caseName, testName));
    Verdict(isDisabled, matchesFilter, (flags.alsoRunDisabledTests || !isDisabled) && matchesFilter)
  }

  /** The tests of each test case. */
  ghost function ListsOf(testCases: seq<TestCase>): (lists: seq<seq<TestInfo>>)
    reads testCases`testInfoList
    ensures |lists| == |testCases| && forall i :: 0 <= i < |lists| ==> lists[i] == testCases[i].testInfoList
  {
    if testCases == [] then [] else [testCases[0].testInfoList] + ListsOf(testCases[1..])
  }

  /** What the filters say of the tests of a test case. */
  ghost function VerdictsOf(flags: Flags, caseName: string, list: seq<TestInfo>): (row: seq<Verdict>)
    ensures |row| == |list| && forall j :: 0 <= j < |row| ==> row[j] == Judge(flags, caseName, list[j].name)
  {
    seq(|list|, j requires 0 <= j < |list| => Judge(flags, caseName, list[j].name))
  }

  ghost function AllVerdicts(flags: Flags, testCases: seq<TestCase>, lists: seq<seq<TestInfo>>): (r: Verdicts)
    requires |testCases| == |lists|
    ensures |r| == |lists|
    ensures forall i :: 0 <= i < |r| ==> r[i] == VerdictsOf(flags, testCases[i].name, lists[i])
  {
    seq(|lists|, i requires 0 <= i < |lists| => VerdictsOf(flags, testCases[i].name, lists[i]))
  }

  ghost predicate TestMarked(testInfo: TestInfo, verdict: Verdict, pick: bool)
    reads testInfo
  {
    && testInfo.isDisabled == verdict.isDisabled && testInfo.matchesFilter == verdict.matchesFilter
    && testInfo.shouldRun == pick
  }

  ghost predicate TestsMarked(list: seq<TestInfo>, row: seq<Verdict>, picks: seq<bool>)
    reads list
  {
    |list| == |row| == |picks| && forall j :: 0 <= j < |row| ==> TestMarked(list[j], row[j], picks[j])
  }

  /** Each test carries its verdict and whether it is selected; the test case runs if one of
      its tests does. */
  ghost predicate CaseMarked(testCase: TestCase, list: seq<TestInfo>, row: seq<Verdict>, picks: seq<bool>)
    reads testCase`shouldRun, list
  {
    TestsMarked(list, row, picks) && (testCase.shouldRun <==> true in picks)
  }

  ghost predicate NoneShared(a: seq<TestInfo>, b: seq<TestInfo>) { forall t :: t in a ==> t !in b }

  /** No test case and no test is listed twice. */
  ghost predicate Separate(testCases: seq<TestCase>, lists: seq<seq<TestInfo>>) {
    && |testCases| == |lists| && Shuffle.Distinct(testCases)
    && (forall i :: 0 <= i < |lists| ==> Shuffle.Distinct(lists[i]))
    && forall i, k :: 0 <= i < k < |lists| ==> NoneShared(lists[i], lists[k])
  }

  ghost function TestsOf(lists: seq<seq<TestInfo>>): set<TestInfo> {
    set list, t | list in lists && t in list :: t
  }

  /** The body of the inner loop: one test is judged, marked and counted. */
  method FilterTest(testCase: TestCase, testInfo: TestInfo, flags: Flags, reaction: Reaction, numRunnableTests: nat)
    returns (isRunnable: bool, isSelected: bool)
    requires IsReaction(reaction)
    modifies testInfo
    ensures var verdict := Judge(flags, testCase.name, testInfo.name);
            && isRunnable == verdict.isRunnable
            && isSelected == (verdict.isRunnable && OnThisShard(reaction, numRunnableTests))
            && TestMarked(testInfo, verdict, isSelected)
  {
    var caseDisabled := NameMatches(testCase.name, flags.disableTestFilter);
    var testDisabled := NameMatches(testInfo.name, flags.disableTestFilter);
    var isDisabled := caseDisabled || testDisabled;
    testInfo.isDisabled := isDisabled;
    var matchesFilter := FilterMatchesTest(flags.filter, testCase.name, testInfo.name);
    testInfo.matchesFilter := matchesFilter;
    isRunnable := (flags.alsoRunDisabledTests || !isDisabled) && matchesFilter;
    var onThisShard := true;
    if reaction != IgnoreShardingProtocol {
      onThisShard := ShouldRunTestOnShard(reaction.totalShards, reaction.shardIndex, numRunnableTests);
    }
    isSelected := isRunnable && onThisShard;
    testInfo.shouldRun := isSelected;
  }

  lemma RowStep(row: seq<Verdict>, reaction: Reaction, base: nat, j: nat)
    requires j < |row| && IsReaction(reaction)
    ensures var picks := Picks(row, reaction, base);
            && picks[j] == (row[j].isRunnable && OnThisShard(reaction, base + RowRunnable(row, j)))
            && RowRunnable(row, j + 1) == RowRunnable(row, j) + (if row[j].isRunnable then 1 else 0)
            && RowSelected(row, reaction, base, j + 1) ==
               RowSelected(row, reaction, base, j) + (if picks[j] then 1 else 0)
            && (true in picks[..j + 1] <==> true in picks[..j] || picks[j])
  {
    hide OnThisShard;
    var picks := Picks(row, reaction, base);
    assert picks[..j + 1] == picks[..j] + [picks[j]];
  }

  lemma RowStart(row: seq<Verdict>, reaction: Reaction, base: nat)
    requires IsReaction(reaction)
    ensures RowRunnable(row, 0) == 0 && RowSelected(row, reaction, base, 0) == 0
    ensures var picks := Picks(row, reaction, base); !(true in picks[..0]) && picks[..|row|] == picks
  {}

  /** The inner loop. */
  method FilterTestCase(testCase: TestCase, flags: Flags, reaction: Reaction, numRunnableBefore: nat)
    returns (numRunnableTests: nat, numSelectedTests: nat)
    requires IsReaction(reaction) && Shuffle.Distinct(testCase.testInfoList)
    modifies testCase`shouldRun, testCase.testInfoList
    ensures var list := old(testCase.testInfoList);
            var row := VerdictsOf(flags, testCase.name, list);
            && numRunnableTests == numRunnableBefore + RowRunnable(row, |row|)
            && numSelectedTests == RowSelected(row, reaction, numRunnableBefore, |row|)
            && CaseMarked(testCase, list, row, Picks(row, reaction, numRunnableBefore))
  {
    hide Judge, TestMarked, OnThisShard, RowRunnable, RowSelected, IsPicked, Picks;
    var list := testCase.testInfoList;
    ghost var row := VerdictsOf(flags, testCase.name, list);
    ghost var picks := Picks(row, reaction, numRunnableBefore);
    RowStart(row, reaction, numRunnableBefore);
    numRunnableTests, numSelectedTests := numRunnableBefore, 0;
    testCase.shouldRun := false;
    for j := 0 to |list|
      invariant numRunnableTests == numRunnableBefore + RowRunnable(row, j)
      invariant numSelectedTests == RowSelected(row, reaction, numRunnableBefore, j)
      invariant testCase.shouldRun <==> true in picks[..j]
      invariant forall l :: 0 <= l < j ==> TestMarked(list[l], row[l], picks[l])
    {
      var isRunnable, isSelected := FilterTest(testCase, list[j], flags, reaction, numRunnableTests);
      RowStep(row, reaction, numRunnableBefore, j);
      numRunnableTests := numRunnableTests + if isRunnable then 1 else 0;
      numSelectedTests := numSelectedTests + if isSelected then 1 else 0;
      testCase.shouldRun := testCase.shouldRun || isSelected;
    }
  }

  lemma CountsStep(r: Verdicts, reaction: Reaction, i: nat)
    requires i < |r| && IsReaction(reaction)
    ensures RunnableBefore(r, i + 1) == RunnableBefore(r, i) + RowRunnable(r[i], |r[i]|)
    ensures SelectedBefore(r, reaction, i + 1) ==
            SelectedBefore(r, reaction, i) + RowSelected(r[i], reaction, RunnableBefore(r, i), |r[i]|)
  {}

  lemma SeparateEach(testCases: seq<TestCase>, lists: seq<seq<TestInfo>>, i: nat)
    requires Separate(testCases, lists) && i < |testCases|
    ensures Shuffle.Distinct(lists[i]) && testCases[i] in testCases
    ensures forall t :: t in lists[i] ==> t in TestsOf(lists)
    ensures forall k :: 0 <= k < i ==> testCases[k] != testCases[i] && NoneShared(lists[k], lists[i])
  {}

  lemma NothingBefore(r: Verdicts, reaction: Reaction)
    requires IsReaction(reaction)
    ensures RunnableBefore(r, 0) == 0 && SelectedBefore(r, reaction, 0) == 0
  {}

  /** Every test and every test case is marked, and the number of selected tests is returned. */
  method FilterTests(testCases: seq<TestCase>, flags: Flags, reaction: Reaction) returns (numSelectedTests: nat)
    requires IsReaction(reaction) && Separate(testCases, ListsOf(testCases))
    modifies testCases`shouldRun, TestsOf(ListsOf(testCases))
    ensures var lists := old(ListsOf(testCases));
            var r := AllVerdicts(flags, testCases, lists);
            && numSelectedTests == SelectedBefore(r, reaction, |r|)
            && forall i :: 0 <= i < |r| ==> CaseMarked(testCases[i], lists[i], r[i], CasePicks(r, reaction, i))
  {
    hide Separate, RunnableBefore, SelectedBefore, RowRunnable, RowSelected, TestsOf, ListsOf, TestMarked, Picks;
    ghost var lists := ListsOf(testCases);
    ghost var r := AllVerdicts(flags, testCases, lists);
    NothingBefore(r, reaction);
    var numRunnableTests := 0;
    numSelectedTests := 0;
    for i := 0 to |testCases|
      invariant numRunnableTests == RunnableBefore(r, i)
      invariant numSelectedTests == SelectedBefore(r, reaction, i)
      invariant forall k :: 0 <= k < i ==> CaseMarked(testCases[k], lists[k], r[k], CasePicks(r, reaction, k))
    {
      CountsStep(r, reaction, i);
      SeparateEach(testCases, lists, i);
      var numSelectedHere;
      label before:
      assert testCases[i].testInfoList == lists[i];
      numRunnableTests, numSelectedHere := FilterTestCase(testCases[i], flags, reaction, numRunnableTests);
      numSelectedTests := numSelectedTests + numSelectedHere;
      forall k | 0 <= k < i ensures TestsMarked(lists[k], r[k], CasePicks(r, reaction, k)) {
        assert NoneShared(lists[k], lists[i]);
        assert old@before(TestsMarked(lists[k], r[k], CasePicks(r, reaction, k)));
        var list := lists[k];
        forall j | 0 <= j < |list| ensures TestMarked(list[j], r[k][j], CasePicks(r, reaction, k)[j]) {
          assert list[j] in list && unchanged@before(list[j]);
          assert old@before(TestMarked(list[j], r[k][j], CasePicks(r, reaction, k)[j]));
        }
      }
    }
  }

  // ---------- Which tests are picked ----------

  /** Neither the name of the test nor that of its test case is among the disabled ones, or
      disabled tests run too. */
  ghost predicate MayRun(flags: Flags, caseName: string, testName: string) {
    flags.alsoRunDisabledTests ||
    (!Matching(flags.disableTestFilter)(caseName) && !Matching(flags.disableTestFilter)(testName))
  }

  /** A test is picked on some shard, and without sharding, if and only if its full name passes the
      filter and it may run; so a disabled test, or a test of a disabled test case, is picked on
      none unless disabled tests run too. */
  lemma PickedExactly(flags: Flags, testCases: seq<TestCase>, lists: seq<seq<TestInfo>>, n: nat, i: nat, j: nat)
    requires |testCases| == |lists| && i < |lists| && j < |lists[i]| && n >= 1
    ensures var r, caseName, testName := AllVerdicts(flags, testCases, lists), testCases[i].name, lists[i][j].name;
            var runs := MayRun(flags, caseName, testName) && Passes(flags.filter, caseName + "." + testName);
            && ((exists k :: 0 <= k < n && CasePicks(r, HonorShardingProtocol(n, k), i)[j]) <==> runs)
            && (CasePicks(r, IgnoreShardingProtocol, i)[j] <==> runs)
            && (r[i][j].isDisabled <==> !MayRun(flags.(alsoRunDisabledTests := false), caseName, testName))
            && (r[i][j].matchesFilter <==> Passes(flags.filter, caseName + "." + testName))
  {
    hide Matching, Passes;
    EachTestOnOneShard(AllVerdicts(flags, testCases, lists), n, i, j);
  }
}
