/** Tests and test cases of Google Test, with the order and the selection of their tests. */
module Tests {
  import opened Shuffle

  ghost function Identity(n: nat): (s: seq<nat>)
    ensures |s| == n
  {
    seq(n, i => i)
  }

  /** The whole vector is shuffled by the numbers that follow this state, which rearranges it. */
  ghost predicate ShuffledWith(before: seq<nat>, after: seq<nat>, state: nat) {
    && after == Shuffled(before, 0, |before|, Draws(state, |before|))
    && Rearranges(before, after, 0, |before|)
  }

  class TestInfo {
    const name: string
    var isDisabled: bool
    var matchesFilter: bool
    var shouldRun: bool

    constructor (name: string)
      ensures this.name == name && !isDisabled && !matchesFilter && !shouldRun
    {
      this.name := name;
      isDisabled, matchesFilter, shouldRun := false, false, false;
    }
  }

  class TestCase {
    const name: string
    const testIndices: Vector<nat>
    var testInfoList: seq<TestInfo>
    var shouldRun: bool

    constructor (name: string)
      ensures this.name == name && testInfoList == [] && !shouldRun
      ensures fresh(testIndices) && testIndices.items == []
    {
      this.name := name;
      testIndices := new Vector<nat>();
      testInfoList := [];
      shouldRun := false;
    }

    method AddTestInfo(testInfo: TestInfo)
      modifies this`testInfoList, testIndices
      ensures testInfoList == old(testInfoList) + [testInfo]
      ensures testIndices.items == old(testIndices.items + [|testIndices.items|])
    {
      testInfoList := testInfoList + [testInfo];
      testIndices.items := testIndices.items + [|testIndices.items|];
    }

    method ShuffleTests(random: Random)
      requires |testIndices.items| <= MAX_RANGE
      modifies random, testIndices
      ensures ShuffledWith(old(testIndices.items), testIndices.items, old(random.state))
      ensures random.state == StateAfter(old(random.state), |old(testIndices.items)|)
    {
      ghost var before, state := testIndices.items, random.state;
      ShuffleRange(random, 0, |testIndices.items|, testIndices);
      ShuffledRearranges(before, 0, |before|, Draws(state, |before|));
    }

    method UnshuffleTests()
      modifies testIndices
      ensures testIndices.items == Identity(|old(testIndices.items)|)
    {
      for i := 0 to |testIndices.items|
        invariant |testIndices.items| == |old(testIndices.items)|
        invariant forall k :: 0 <= k < i ==> testIndices.items[k] == k
      {
        testIndices.items := testIndices.items[i := i];
      }
    }
  }
}
