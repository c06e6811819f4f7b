/**
 The unit tests of the set module, each restated as a lemma over the model,
 plus a few examples of the module's less obvious behaviour.
 */
module RtuSetTest {
  import opened RtuSet

  /** The integer part of the square root, as a 32-bit float square root
      truncated to `Int`; the square root of a negative number is NaN, which
      truncates to 0. Stands in for the floating-point predicate of the
      `forAll` test. */
  function FloorSqrt(n: int): (r: nat)
    ensures n >= 0 ==> r * r <= n < (r + 1) * (r + 1)
    ensures n < 0 ==> r == 0
  {
    if n < 0 then 0 else SqrtFrom(n, 0)
  }

  function SqrtFrom(n: nat, r: nat): (q: nat)
    requires r * r <= n
    ensures q * q <= n < (q + 1) * (q + 1)
    decreases n - r
  {
    if (r + 1) * (r + 1) > n then r
    else
      assert r < (r + 1) * (r + 1);
      SqrtFrom(n, r + 1)
  }

  lemma SetContainsGivenElement()
    ensures Contains(x => x == 1, 1)
  {
  }

  lemma SingletonContainsGivenElement()
    ensures Contains(Singleton(2), 2)
  {
  }

  lemma UnionContainsBothElements()
    ensures Contains(Union(Singleton(1), Singleton(2)), 1)
    ensures Contains(Union(Singleton(1), Singleton(2)), 2)
  {
  }

  /** Kotlin's infix calls associate to the left:
      `singletonSet(1) union singletonSet(2) intersect singletonSet(1)`. */
  lemma IntersectWorks()
    ensures Contains(Intersect(Union(Singleton(1), Singleton(2)), Singleton(1)), 1)
    ensures !Contains(Intersect(Union(Singleton(1), Singleton(2)), Singleton(1)), 2)
  {
  }

  lemma DiffWorks()
    ensures var s := Diff(Union(Union(Singleton(1), Singleton(2)), Singleton(3)), Singleton(2));
      Contains(s, 1) && Contains(s, 3) && !Contains(s, 2)
  {
  }

  /** The test's two checks hold, and so does the equivalence reading:
      3 is in neither the set nor the predicate, and is a member. */
  lemma FilterWorks()
    ensures var s := Filter(Union(Singleton(1), Singleton(2)), x => x == 1);
      Contains(s, 1) && !Contains(s, 2) && Contains(s, 3)
  {
  }

  lemma ExistsWorks()
    ensures Exists(Union(Singleton(1), Singleton(2)), x => x == 1)
    ensures Exists(Union(Singleton(1), Singleton(2)), x => x == 2)
  {
    ExistsSpec(Union(Singleton(1), Singleton(2)), x => x == 1);
    ExistsSpec(Union(Singleton(1), Singleton(2)), x => x == 2);
  }

  lemma MapWorks()
    ensures Contains(Map(Singleton(1), x => x * -1), -1)
    ensures !Contains(Map(Singleton(1), x => x * -1), 1)
  {
    MapSpec(Singleton(1), x => x * -1, -1);
    MapSpec(Singleton(1), x => x * -1, 1);
  }

  /** The result of `Map` may hold values outside the range ... */
  lemma MapLeavesRange()
    ensures Contains(Map(Singleton(BOUND), x => x + 5), BOUND + 5)
  {
    MapSpec(Singleton(BOUND), x => x + 5, BOUND + 5);
  }

  /** ... but never the sentinel, even when the transform produces it. */
  lemma MapDropsSentinel(y: int)
    ensures !Contains(Map(Singleton(BOUND), x => x + 1), y)
  {
    MapSpec(Singleton(BOUND), x => x + 1, y);
  }

  lemma ForAllWorks()
    ensures ForAll(Union(Union(Singleton(2), Singleton(4)), Singleton(6)), x => x % 2 == 0)
    ensures !ForAll(Union(Union(Singleton(2), Singleton(4)), Singleton(6)), x => FloorSqrt(x) % 2 == 0)
  {
    var s := Union(Union(Singleton(2), Singleton(4)), Singleton(6));
    ForAllSpec(s, x => x % 2 == 0);
    ForAllSpec(s, x => FloorSqrt(x) % 2 == 0);
    assert FloorSqrt(2) == 1;
    assert s(2);
  }

  /** `ForAll` is vacuously true of a set with no member in range, whatever
      lies outside it. */
  lemma ForAllVacuous(p: int -> bool)
    ensures ForAll(Singleton(BOUND + 7), p)
  {
    ForAllSpec(Singleton(BOUND + 7), p);
  }

  lemma MembersOfOneTwo()
    ensures InRangeMembers(Union(Singleton(1), Singleton(2))) == [1, 2]
  {
    var s := Union(Singleton(1), Singleton(2));
    InRangeMembersSpec(s);
    StrictlyIncreasingUnique(InRangeMembers(s), [1, 2]);
  }

  /** The rendering the test expects, from a fresh counter. */
  lemma ContentsWorks()
    ensures Render(InRangeMembers(Union(Singleton(1), Singleton(2))), 0) + "}" == "{1,2}"
  {
    MembersOfOneTwo();
    RenderFromZero([1, 2]);
  }

  /** The test itself, against the stateful renderer: a second rendering of
      the same set sees the counter at 2 and loses its opening brace. */
  method ContentsTwice() returns (first: string, second: string)
    ensures first == "{1,2}" && second == ",1,2}"
  {
    var renderer := new Renderer();
    var s := Union(Singleton(1), Singleton(2));
    MembersOfOneTwo();
    first := renderer.Contents(s);
    ContentsWorks();
    IncByValue(0, 2);
    second := renderer.Contents(s);
    RenderFromPositive([1, 2], 2);
  }

  /** A set with no member in range renders as a lone closing brace. */
  lemma EmptyContents(c: int)
    ensures Render(InRangeMembers(InitialSet), c) + "}" == "}"
  {
    ContentsOfEmpty(InitialSet, c);
  }

  /** After the 32-bit counter has wrapped round to -1, the opening brace
      lands in the middle. */
  lemma ContentsAfterWrap()
    ensures Render([1, 2], -1) == ",1{2"
  {
  }
}
