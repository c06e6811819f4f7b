/**
 A set of integers represented by its characteristic function, with set
 algebra built from lambdas and a handful of operations that scan the fixed
 range [-BOUND, BOUND].
 */
module RtuSet {

  /** A set is its membership test. */
  type IntSet = int -> bool

  const BOUND: int := 1000

  /** Kotlin's `Int` range, for the global render counter. */
  const INT_MIN: int := -0x8000_0000
  const INT_MAX: int := 0x7fff_ffff

  /** The sentinel-only set that `Map` starts from: it accepts BOUND + 1 alone. */
  const InitialSet: IntSet := x => x == BOUND + 1

  predicate InBound(x: int) {
    -BOUND <= x <= BOUND
  }

  /** The members of `s` that the scanners can observe, as a built-in set. */
  ghost function InRange(s: IntSet): set<int> {
    set x | -BOUND <= x <= BOUND && s(x)
  }

  // ---------------------------------------------------------------------
  // Pointwise combinators

  function Contains(s: IntSet, elem: int): bool {
    s(elem)
  }

  function Singleton(elem: int): (r: IntSet)
    ensures InBound(elem) ==> InRange(r) == {elem}
    ensures !InBound(elem) ==> InRange(r) == {}
  {
    x => x == elem
  }

  function Union(a: IntSet, b: IntSet): (r: IntSet)
    ensures InRange(r) == InRange(a) + InRange(b)
  {
    x => a(x) || b(x)
  }

  function Intersect(a: IntSet, b: IntSet): (r: IntSet)
    ensures InRange(r) == InRange(a) * InRange(b)
  {
    x => a(x) && b(x)
  }

  function Diff(a: IntSet, b: IntSet): (r: IntSet)
    ensures InRange(r) == InRange(a) - InRange(b)
  {
    x => a(x) && !b(x)
  }

  /** Not a conventional filter: a value is a member when its membership in
      `s` AGREES with `p`, so values outside `s` that fail `p` are members. */
  function Filter(s: IntSet, p: int -> bool): (r: IntSet)
    ensures InRange(r) == InRange(s) * InRange(p) + (InRange(x => true) - InRange(s) - InRange(p))
  {
    x => s(x) == p(x)
  }

  lemma PointwiseMembership(a: IntSet, b: IntSet, p: int -> bool, e: int, x: int)
    ensures Contains(Singleton(e), x) <==> x == e
    ensures Contains(Union(a, b), x) <==> Contains(a, x) || Contains(b, x)
    ensures Contains(Intersect(a, b), x) <==> Contains(a, x) && Contains(b, x)
    ensures Contains(Diff(a, b), x) <==> Contains(a, x) && !Contains(b, x)
    ensures Contains(Filter(a, p), x) <==> (Contains(a, x) <==> p(x))
  {
  }

  lemma UnionIntersectIdempotent(a: IntSet, x: int)
    ensures Contains(Union(a, a), x) == Contains(a, x)
    ensures Contains(Intersect(a, a), x) == Contains(a, x)
  {
  }

  lemma InitialSetEmptyInRange()
    ensures InRange(InitialSet) == {}
    ensures Contains(InitialSet, BOUND + 1)
  {
  }

  // ---------------------------------------------------------------------
  // Bounded scanners

  /** The scan behind `ForAll`, from `a` up to BOUND; false at the first
      member that fails `p`. */
  function ForAllFrom(s: IntSet, p: int -> bool, a: int): bool
    decreases BOUND - a
  {
    if a > BOUND then true
    else if s(a) && !p(a) then false
    else ForAllFrom(s, p, a + 1)
  }

  function ForAll(s: IntSet, p: int -> bool): bool {
    ForAllFrom(s, p, -BOUND)
  }

  lemma {:induction false} ForAllFromSpec(s: IntSet, p: int -> bool, a: int)
    ensures ForAllFrom(s, p, a) <==> forall x :: a <= x <= BOUND && s(x) ==> p(x)
    decreases BOUND - a
  {
    if a <= BOUND && !(s(a) && !p(a)) {
      ForAllFromSpec(s, p, a + 1);
    }
  }

  /** `ForAll` holds iff no member in range fails `p`: members outside the
      range are never consulted, and a set with no member in range passes. */
  lemma ForAllSpec(s: IntSet, p: int -> bool)
    ensures ForAll(s, p) <==> forall x :: -BOUND <= x <= BOUND && s(x) ==> p(x)
  {
    ForAllFromSpec(s, p, -BOUND);
  }

  /** The scan behind `Exists`, from `x` up to BOUND; true at the first
      member that satisfies `p`. */
  function ExistsFrom(s: IntSet, p: int -> bool, x: int): bool
    decreases BOUND - x
  {
    if x > BOUND then false
    else if s(x) && p(x) then true
    else ExistsFrom(s, p, x + 1)
  }

  function Exists(s: IntSet, p: int -> bool): bool {
    ExistsFrom(s, p, -BOUND)
  }

  lemma {:induction false} ExistsFromSpec(s: IntSet, p: int -> bool, x: int)
    ensures ExistsFrom(s, p, x) <==> exists y :: x <= y <= BOUND && s(y) && p(y)
    decreases BOUND - x
  {
    if x <= BOUND && !(s(x) && p(x)) {
      ExistsFromSpec(s, p, x + 1);
      assert forall y :: x <= y <= BOUND && s(y) && p(y) ==> x + 1 <= y;
    }
  }

  lemma ExistsSpec(s: IntSet, p: int -> bool)
    ensures Exists(s, p) <==> exists x :: -BOUND <= x <= BOUND && s(x) && p(x)
  {
    ExistsFromSpec(s, p, -BOUND);
  }

  /** The two scans are each other's duals, although written independently. */
  lemma ExistsIsNotForAllNot(s: IntSet, p: int -> bool)
    ensures Exists(s, p) == !ForAll(s, x => !p(x))
  {
    ExistsSpec(s, p);
    ForAllSpec(s, x => !p(x));
  }

  // ---------------------------------------------------------------------
  // Map

  /** The fold behind `Map`: from `x` up to BOUND, each member `y` adds
      `f(y)` to the accumulator; at the end the sentinel is subtracted. */
  function MapFrom(s: IntSet, f: int -> int, x: int, acc: IntSet): IntSet
    decreases BOUND - x
  {
    if x > BOUND then Diff(acc, InitialSet)
    else if s(x) then MapFrom(s, f, x + 1, Union(Singleton(f(x)), acc))
    else MapFrom(s, f, x + 1, acc)
  }

  function Map(s: IntSet, f: int -> int): IntSet {
    MapFrom(s, f, -BOUND, InitialSet)
  }

  lemma {:induction false} MapFromSpec(s: IntSet, f: int -> int, x: int, acc: IntSet, y: int)
    ensures Contains(MapFrom(s, f, x, acc), y) <==>
      y != BOUND + 1 && (acc(y) || exists z :: x <= z <= BOUND && s(z) && f(z) == y)
    decreases BOUND - x
  {
    if x <= BOUND {
      var acc' := if s(x) then Union(Singleton(f(x)), acc) else acc;
      MapFromSpec(s, f, x + 1, acc', y);
    }
  }

  /** The image of the members in range under `f`, less the sentinel
      BOUND + 1; images may lie outside the range. */
  lemma MapSpec(s: IntSet, f: int -> int, y: int)
    ensures Contains(Map(s, f), y) <==>
      y != BOUND + 1 && exists x :: -BOUND <= x <= BOUND && s(x) && f(x) == y
  {
    MapFromSpec(s, f, -BOUND, InitialSet, y);
  }

  /** Membership in a mapped set is an `Exists` query on the original. */
  lemma MapIsExists(s: IntSet, f: int -> int, y: int)
    ensures Contains(Map(s, f), y) == (y != BOUND + 1 && Exists(s, x => f(x) == y))
  {
    MapSpec(s, f, y);
    ExistsSpec(s, x => f(x) == y);
  }

  lemma MapIdentity(s: IntSet)
    ensures InRange(Map(s, x => x)) == InRange(s)
    ensures forall y :: !InBound(y) ==> !Contains(Map(s, x => x), y)
  {
    forall y
      ensures Contains(Map(s, x => x), y) <==> InBound(y) && s(y)
    {
      MapSpec(s, x => x, y);
    }
  }

  // ---------------------------------------------------------------------
  // Rendering

  /** The members of `s` in [-BOUND, hi), in ascending order. */
  function Members(s: IntSet, hi: int): seq<int>
    decreases hi + BOUND
  {
    if hi <= -BOUND then []
    else Members(s, hi - 1) + (if s(hi - 1) then [hi - 1] else [])
  }

  function InRangeMembers(s: IntSet): seq<int> {
    Members(s, BOUND + 1)
  }

  predicate StrictlyIncreasing(ms: seq<int>) {
    forall i, j :: 0 <= i < j < |ms| ==> ms[i] < ms[j]
  }

  lemma {:induction false} MembersSpec(s: IntSet, hi: int)
    ensures StrictlyIncreasing(Members(s, hi))
    ensures forall v :: v in Members(s, hi) <==> -BOUND <= v < hi && s(v)
    decreases hi + BOUND
  {
    if hi > -BOUND {
      MembersSpec(s, hi - 1);
      var prev := Members(s, hi - 1);
      var ms := Members(s, hi);
      forall i, j | 0 <= i < j < |ms|
        ensures ms[i] < ms[j]
      {
        if j == |prev| {
          assert ms[i] == prev[i] && prev[i] in prev;
        }
      }
    }
  }

  /** The ascending list of members in range is exactly `InRange(s)`. */
  lemma InRangeMembersSpec(s: IntSet)
    ensures StrictlyIncreasing(InRangeMembers(s))
    ensures forall v :: v in InRangeMembers(s) <==> -BOUND <= v <= BOUND && s(v)
    ensures |InRangeMembers(s)| <= 2 * BOUND + 1
  {
    MembersSpec(s, BOUND + 1);
    MembersLength(s, BOUND + 1);
  }

  lemma {:induction false} MembersLength(s: IntSet, hi: int)
    ensures |Members(s, hi)| <= if hi <= -BOUND then 0 else hi + BOUND
    decreases hi + BOUND
  {
    if hi > -BOUND {
      MembersLength(s, hi - 1);
    }
  }

  /** Two ascending lists with the same elements are equal. */
  lemma {:induction false} StrictlyIncreasingUnique(a: seq<int>, b: seq<int>)
    requires StrictlyIncreasing(a) && StrictlyIncreasing(b)
    requires forall v :: v in a <==> v in b
    ensures a == b
  {
    assert a != [] ==> a[0] in a && a[0] in b;
    assert b != [] ==> b[0] in b && b[0] in a;
    if a != [] && b != [] {
      assert a[0] == b[0];
      forall v
        ensures v in a[1..] <==> v in b[1..]
      {
        if v in a[1..] {
          assert v in b && v != b[0];
        }
        if v in b[1..] {
          assert v in a && v != a[0];
        }
      }
      StrictlyIncreasingUnique(a[1..], b[1..]);
      assert a == [a[0]] + a[1..];
      assert b == [b[0]] + b[1..];
    }
  }

  /** Kotlin's `count++` on a 32-bit `Int`: wraps from INT_MAX to INT_MIN. */
  function Inc32(c: int): int {
    if c == INT_MAX then INT_MIN else c + 1
  }

  /** The counter after `k` post-increments. */
  function IncBy(c: int, k: nat): int {
    if k == 0 then c else Inc32(IncBy(c, k - 1))
  }

  lemma {:induction false} IncByValue(c: int, k: nat)
    requires INT_MIN <= c <= INT_MAX
    requires c + k <= INT_MAX + 0x1_0000_0000
    ensures IncBy(c, k) == if c + k <= INT_MAX then c + k else c + k - 0x1_0000_0000
    ensures INT_MIN <= IncBy(c, k) <= INT_MAX
  {
    if k > 0 {
      IncByValue(c, k - 1);
    }
  }

  function DigitChar(d: int): char
    requires 0 <= d < 10
  {
    "0123456789"[d]
  }

  /** Kotlin's decimal rendering of an integer, as in a string template. */
  function IntToString(x: int): (r: string)
    ensures r != [] && '{' !in r && ',' !in r && '}' !in r
    ensures (r[0] == '-') <==> x < 0
    decreases if x < 0 then 1 - x else x
  {
    if x < 0 then "-" + IntToString(-x)
    else if x < 10 then [DigitChar(x)]
    else IntToString(x / 10) + [DigitChar(x % 10)]
  }

  /** The text emitted for one member when the counter reads `c`. */
  function Piece(x: int, c: int): string {
    (if c == 0 then "{" else ",") + IntToString(x)
  }

  /** What the scan emits for the members `ms` when the counter starts at
      `c`: the member seen while the counter reads 0 opens with `{`, every
      other one with `,`. The closing `}` is appended after the scan. */
  function Render(ms: seq<int>, c: int): string {
    if ms == [] then ""
    else Render(ms[..|ms| - 1], c) + Piece(ms[|ms| - 1], IncBy(c, |ms| - 1))
  }

  /** The members separated by commas. */
  function Join(ms: seq<int>): string
    requires ms != []
  {
    if |ms| == 1 then IntToString(ms[0])
    else Join(ms[..|ms| - 1]) + "," + IntToString(ms[|ms| - 1])
  }

  /** From a zero counter, the rendering is `{` then the comma-separated
      members. */
  lemma {:induction false} RenderFromZero(ms: seq<int>)
    requires 1 <= |ms| <= INT_MAX + 1
    ensures Render(ms, 0) == "{" + Join(ms)
  {
    var n := |ms|;
    var init, last := ms[..n - 1], ms[n - 1];
    IncByValue(0, n - 1);
    assert Render(ms, 0) == Render(init, 0) + Piece(last, n - 1);
    if n > 1 {
      RenderFromZero(init);
      assert Join(ms) == Join(init) + "," + IntToString(last);
    } else {
      assert init == [];
    }
  }

  /** From a positive counter the `{` is never emitted: every member,
      the first included, is preceded by a comma. */
  lemma {:induction false} RenderFromPositive(ms: seq<int>, c: int)
    requires 0 < c <= INT_MAX
    requires |ms| <= 0x8000_0000
    ensures Render(ms, c) == if ms == [] then "" else "," + Join(ms)
    ensures '{' !in Render(ms, c)
  {
    var n := |ms|;
    if n > 0 {
      IncByValue(c, n - 1);
      RenderFromPositive(ms[..n - 1], c);
      if n == 1 {
        assert ms[..0] == [];
      } else {
        assert ms[..n - 1][..n - 2] == ms[..n - 2];
      }
      assert Render(ms, c) == Render(ms[..n - 1], c) + "," + IntToString(ms[n - 1]);
      assert '{' !in IntToString(ms[n - 1]);
    }
  }

  /** The object that holds the module's one piece of mutable state, the
      top-level render counter, and renders sets. */
  class Renderer {
    var count: int

    predicate Valid()
      reads this
    {
      INT_MIN <= count <= INT_MAX
    }

    constructor ()
      ensures Valid() && count == 0
    {
      count := 0;
    }

    /** Scans [-BOUND, BOUND] upwards, emitting each member as it is met;
        the counter is post-incremented once per member. */
    method Contents(s: IntSet) returns (r: string)
      requires Valid()
      modifies this
      ensures Valid()
      ensures r == Render(InRangeMembers(s), old(count)) + "}"
      ensures count == IncBy(old(count), |InRangeMembers(s)|)
    {
      ghost var c0 := count;
      r := "";
      var x := -BOUND;
      while x <= BOUND
        invariant -BOUND <= x <= BOUND + 1
        invariant INT_MIN <= count <= INT_MAX
        invariant r == Render(Members(s, x), c0)
        invariant count == IncBy(c0, |Members(s, x)|)
      {
        if s(x) {
          ghost var ms, r0 := Members(s, x), r;
          assert Members(s, x + 1) == ms + [x];
          assert (ms + [x])[..|ms|] == ms;
          var first := count == 0;
          count := Inc32(count);
          r := r + (if first then "{" else ",") + IntToString(x);
          assert r == r0 + Piece(x, IncBy(c0, |ms|));
        } else {
          assert Members(s, x + 1) == Members(s, x) + [] == Members(s, x);
        }
        x := x + 1;
      }
      r := r + "}";
    }
  }

  /** Rendering with the counter at zero and at least one member in range:
      the members in ascending order, braced and comma-separated; the counter
      grows by the number of members. */
  lemma ContentsFromZero(s: IntSet)
    requires InRangeMembers(s) != []
    ensures Render(InRangeMembers(s), 0) + "}" == "{" + Join(InRangeMembers(s)) + "}"
    ensures IncBy(0, |InRangeMembers(s)|) == |InRangeMembers(s)|
  {
    InRangeMembersSpec(s);
    RenderFromZero(InRangeMembers(s));
    IncByValue(0, |InRangeMembers(s)|);
  }

  /** With no member in range the scan yields only the closing brace and
      leaves the counter alone. */
  lemma ContentsOfEmpty(s: IntSet, c: int)
    requires forall x :: -BOUND <= x <= BOUND ==> !s(x)
    ensures Render(InRangeMembers(s), c) + "}" == "}"
    ensures IncBy(c, |InRangeMembers(s)|) == c
  {
    MembersNone(s, BOUND + 1);
  }

  lemma {:induction false} MembersNone(s: IntSet, hi: int)
    requires forall x :: -BOUND <= x < hi ==> !s(x)
    ensures Members(s, hi) == []
    decreases hi + BOUND
  {
    if hi > -BOUND {
      MembersNone(s, hi - 1);
    }
  }

  /** With a positive counter the opening brace never appears. */
  lemma ContentsFromPositive(s: IntSet, c: int)
    requires 0 < c <= INT_MAX
    ensures '{' !in Render(InRangeMembers(s), c) + "}"
  {
    InRangeMembersSpec(s);
    RenderFromPositive(InRangeMembers(s), c);
  }
}
