# RTUSet in Dafny

A model of `src/RTUSet.kt`, a Kotlin exercise that represents a set of integers
by its characteristic function `(Int) -> Boolean`. Here that becomes the total
arrow type `IntSet = int -> bool` (module `RtuSet`, file `rtu_set.dfy`).

- **Combinators.** `Contains`, `Singleton`, `Union`, `Intersect`, `Diff` and
  `Filter` are functions that build new lambdas. Each one's contract gives its
  meaning as built-in set algebra over the observable members in
  `[-BOUND, BOUND]` (`InRange`). `Contains` is plain application and has no
  contract of its own. Every membership fact is stated with it
  (`PointwiseMembership`).
- **Scanners.** `ForAll`, `Exists` and `Map` use tail-recursive helpers
  (`ForAllFrom`, `ExistsFrom`, `MapFrom`). Like Kotlin's local `iterate`
  functions, each helper carries the index and, for `Map`, the accumulator set.
  Inductive lemmas tie each scan to a bounded quantifier. For `Map`, the lemma
  describes the nested unions it builds from the sentinel-only `InitialSet`.
- **Renderer.** The top-level `var count` lives in the class `Renderer`, with
  `BOUND = 1000`. `Renderer.Contents` is a method with a `while` loop that
  mirrors the scan. It post-increments `count` once per member and extends a
  string accumulator. Its contract ties the result to the specification function
  `Render` over the ascending list of members, `InRangeMembers`. It also says
  what `count` becomes. `count` is a Kotlin `Int`, so `Inc32` wraps it from
  `INT_MAX` to `INT_MIN`.
- **Tests.** The test class `RtuSetTest` becomes the module `RtuSetTest`
  (`rtu_set_test.dfy`), one lemma per test. The method `ContentsTwice` plays the
  rendering test against a real `Renderer`.

The model follows the code in three places where a tidier reading is possible:

- `filter` is equivalence (`s(x) == p(x)`), not conjunction. A value that is
  neither in the set nor satisfies the predicate is a member.
- A set with no member in range renders as `"}"`, not `"{}"`.
- The render counter is global state that persists between calls. `{` is
  emitted only for the member met while `count` reads 0. A second rendering of
  the same set therefore has no opening brace.

## Model

| member | source | states |
|---|---|---|
| `RtuSet.Singleton` | src/RTUSet.kt:24 | the observable members of `singletonSet(e)` are `{e}` when `e` is in range, none otherwise |
| `RtuSet.Union` | src/RTUSet.kt:29 | the observable members of a union are the union of the operands' members |
| `RtuSet.Intersect` | src/RTUSet.kt:34 | the observable members of an intersection are the intersection of the operands' members |
| `RtuSet.Diff` | src/RTUSet.kt:39 | the observable members of a difference are the first operand's members less the second's |
| `RtuSet.Filter` | src/RTUSet.kt:44 | the observable members of `filter(s, p)` are those in both `s` and `p`, plus those in range in neither |
| `RtuSet.PointwiseMembership` | src/RTUSet.kt:19-44 | membership: singleton iff equal, union is or, intersect is and, diff is and-not, filter is `s(x) == p(x)` |
| `RtuSet.UnionIntersectIdempotent` | src/RTUSet.kt:29-34 | `a union a` and `a intersect a` have the same members as `a` |
| `RtuSet.InitialSetEmptyInRange` | src/RTUSet.kt:49-51 | the sentinel set `initialSet` has no member in range and contains `BOUND + 1` |
| `RtuSet.ForAllFromSpec` | src/RTUSet.kt:58-63 | the scan from `a` returns true iff every member in `[a, BOUND]` satisfies the predicate |
| `RtuSet.ForAllSpec` | src/RTUSet.kt:57-65 | `forAll(s, p)` iff no `x` in `[-BOUND, BOUND]` has `s(x)` and not `p(x)` |
| `RtuSet.ExistsFromSpec` | src/RTUSet.kt:68-73 | the scan from `x` returns true iff some member in `[x, BOUND]` satisfies the predicate |
| `RtuSet.ExistsSpec` | src/RTUSet.kt:67-75 | `exists(s, p)` iff some `x` in `[-BOUND, BOUND]` has `s(x)` and `p(x)` |
| `RtuSet.ExistsIsNotForAllNot` | src/RTUSet.kt:57-75 | `exists(s, p) == !forAll(s, x => !p(x))` |
| `RtuSet.MapFromSpec` | src/RTUSet.kt:78-83 | the fold from `x` with accumulator `acc` contains `y` iff `y != BOUND + 1` and `y` is in `acc` or is `f(z)` for a member `z` in `[x, BOUND]` |
| `RtuSet.MapSpec` | src/RTUSet.kt:77-86 | `map(s, f)` contains `y` iff `y != BOUND + 1` and `y == f(x)` for some member `x` in range; images outside the range are kept |
| `RtuSet.MapIsExists` | src/RTUSet.kt:67-86 | `map(s, f)` contains `y` iff `y != BOUND + 1` and `exists(s, x => f(x) == y)` |
| `RtuSet.MapIdentity` | src/RTUSet.kt:77-86 | mapping with the identity keeps exactly the members in range and drops everything outside it |
| `RtuSet.MembersSpec` | src/RTUSet.kt:90-98 | the members met by an ascending scan up to `hi` are strictly increasing and are exactly the members in `[-BOUND, hi)` |
| `RtuSet.InRangeMembersSpec` | src/RTUSet.kt:90-101 | the scan over `[-BOUND, BOUND]` meets the members in range, each once, in ascending order |
| `RtuSet.IncByValue` | src/RTUSet.kt:93 | after `k` post-increments of a 32-bit `count` the value is `count + k`, wrapped by 2^32 once it passes `INT_MAX` |
| `RtuSet.IntToString` | src/RTUSet.kt:94-96 | the decimal text of a member is non-empty, starts with `-` iff negative, and holds no brace or comma |
| `RtuSet.RenderFromZero` | src/RTUSet.kt:90-98 | from `count == 0` the emitted text is `{` followed by the members joined with commas |
| `RtuSet.RenderFromPositive` | src/RTUSet.kt:93-96 | from a positive `count` no `{` is emitted and every member is preceded by a comma |
| `RtuSet.Renderer.constructor` | src/RTUSet.kt:52 | the counter starts at 0 |
| `RtuSet.Renderer.Contents` | src/RTUSet.kt:88-102 | the result is `Render` of the ascending members from the entry value of `count`, then `}`; `count` has been post-incremented once per member, with 32-bit wrap-around |
| `RtuSet.ContentsFromZero` | src/RTUSet.kt:88-102 | with `count == 0` and a member in range, `contents` is `{`, the members comma-separated, `}`, and `count` grows by their number |
| `RtuSet.ContentsOfEmpty` | src/RTUSet.kt:90-101 | with no member in range, `contents` is `"}"` and `count` is unchanged |
| `RtuSet.ContentsFromPositive` | src/RTUSet.kt:93-96 | with a positive `count` on entry, `contents` contains no `{` |
| `RtuSetTest.FloorSqrt` | src/RTUSet.kt:164 | integer square root `r` with `r*r <= n < (r+1)*(r+1)`, and 0 for negative `n` (float NaN truncates to 0) |
| `RtuSetTest.SetContainsGivenElement` | src/RTUSet.kt:107-110 | the literal set `{ it == 1 }` contains 1 |
| `RtuSetTest.SingletonContainsGivenElement` | src/RTUSet.kt:113-116 | `singletonSet(2)` contains 2 |
| `RtuSetTest.UnionContainsBothElements` | src/RTUSet.kt:119-123 | `singletonSet(1) union singletonSet(2)` contains 1 and 2 |
| `RtuSetTest.IntersectWorks` | src/RTUSet.kt:126-130 | `(1 union 2) intersect 1` contains 1 and not 2 |
| `RtuSetTest.DiffWorks` | src/RTUSet.kt:133-138 | `((1 union 2) union 3) diff 2` contains 1 and 3 and not 2 |
| `RtuSetTest.FilterWorks` | src/RTUSet.kt:141-145 | `(1 union 2).filter { it == 1 }` contains 1, not 2, and also 3 |
| `RtuSetTest.ExistsWorks` | src/RTUSet.kt:148-152 | `1 union 2` has an element equal to 1 and one equal to 2 |
| `RtuSetTest.MapWorks` | src/RTUSet.kt:155-158 | `singletonSet(1).map { it * -1 }` contains -1 and not 1 |
| `RtuSetTest.MapLeavesRange` | src/RTUSet.kt:77-86 | `singletonSet(BOUND).map { it + 5 }` contains `BOUND + 5`, outside the range |
| `RtuSetTest.MapDropsSentinel` | src/RTUSet.kt:80 | `singletonSet(BOUND).map { it + 1 }` is empty: the image `BOUND + 1` is stripped as the sentinel |
| `RtuSetTest.ForAllWorks` | src/RTUSet.kt:161-165 | `{2,4,6}` are all even, and not all have an even integer square root (2 has root 1) |
| `RtuSetTest.ForAllVacuous` | src/RTUSet.kt:57-65 | `forAll` holds of a set whose only member lies outside the range, for any predicate |
| `RtuSetTest.MembersOfOneTwo` | src/RTUSet.kt:90-98 | the scan meets exactly 1 then 2 in `singletonSet(1) union singletonSet(2)` |
| `RtuSetTest.ContentsWorks` | src/RTUSet.kt:168-171 | from a zero counter, `(1 union 2).contents == "{1,2}"` |
| `RtuSetTest.ContentsTwice` | src/RTUSet.kt:52-102 | on a fresh renderer, the first rendering of `1 union 2` is `"{1,2}"` and the second is `",1,2}"` |
| `RtuSetTest.EmptyContents` | src/RTUSet.kt:92-100 | the contents of `initialSet` are `"}"` whatever the counter |
| `RtuSetTest.ContentsAfterWrap` | src/RTUSet.kt:93-96 | with the counter at -1 on entry, members 1 and 2 render as `",1{2"` |

## Left out

- `sqrt(it.toFloat()).toInt()` in the `forAll` test is floating point. `FloorSqrt` replaces it with an integer square root that agrees on the test's inputs.
- JUnit plumbing (`@Test`, `assert`): each test is a lemma, or a method with an `ensures` clause.
- 32-bit overflow inside user transforms such as `it * -1`: transforms and predicates are unbounded `int` functions. The scan indices stay within `±1001` and cannot overflow.
- The early exit of `forAll` and `exists` and the nesting depth of the closure that `map` returns change only running time. The model keeps the scan order but does not measure cost.
- `ZERO` is the literal 0 in `Renderer.Contents`.
- Kotlin's infix `and` evaluates both sides. This makes no difference here, because predicates are pure and total.
