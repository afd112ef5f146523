/**
 * `sortedCourts` (page.tsx, lines 166-208): a copy of the court list sorted
 * with a comparator that reads one numeric column and turns 0 into -Infinity.
 *
 * `Array.prototype.sort` is stable and, in the ECMA-262 comparison step
 * (CompareArrayElements, formerly SortCompare), reads a NaN comparator result
 * as +0; so the comparator is taken through its JavaScript result,
 * `Comparator`, to an `Ordering`.
 */
module Sorting {
  import opened Wrappers
  import opened Payload

  /** `SortField` without `null`: the nine table columns. */
  datatype SortField = NumberField | NameField | OverallField | AspectField(aspect: AspectKey) | CountField

  /** `SortDirection` without `null`. */
  datatype Direction = Asc | Desc

  /** The columns the comparator's `switch` reads; `number` and `name` fall to `default`. */
  predicate Numeric(f: SortField) {
    !f.NumberField? && !f.NameField?
  }

  /** The value the `switch` at lines 171-202 reads from a record. */
  function FieldValue(c: Court, f: SortField): (v: Option<real>)
    ensures v.Some? <==> Numeric(f)
  {
    match f
    case OverallField => Some(c.overallAssessment)
    case AspectField(k) => Some(c.assessment.Get(k))
    case CountField => Some(c.totalSurveyResponses)
    case NumberField => None
    case NameField => None
  }

  /** A real number or -Infinity. */
  datatype ExtReal = NegInf | Fin(r: real)

  /** Lines 204-205: a 0 becomes -Infinity. */
  function Sentinel(v: real): ExtReal {
    if v == 0.0 then NegInf else Fin(v)
  }

  /** The JavaScript number a comparator returns. */
  datatype JsDiff = NaNDiff | NegInfDiff | PosInfDiff | FinDiff(d: real)

  /** `a - b` in JavaScript on -Infinity and finite numbers. */
  function Subtract(a: ExtReal, b: ExtReal): JsDiff {
    match (a, b)
    case (NegInf, NegInf) => NaNDiff
    case (NegInf, Fin(_)) => NegInfDiff
    case (Fin(_), NegInf) => PosInfDiff
    case (Fin(x), Fin(y)) => FinDiff(x - y)
  }

  /** The comparator passed to `sort` (lines 166-208). Inactive, it returns 0.
      Active, two zeros give `-Infinity - -Infinity`, which is NaN; a single zero
      gives an infinity whose sign puts the zero first in ascending order and
      last in descending order; two non-zero values give their difference. */
  function Comparator(field: Option<SortField>, dir: Option<Direction>, a: Court, b: Court): (r: JsDiff)
    ensures !Active(field, dir) ==> r == FinDiff(0.0)
    ensures Active(field, dir) ==>
      var x, y := FieldValue(a, field.value).value, FieldValue(b, field.value).value;
      && (r.NaNDiff? <==> x == 0.0 && y == 0.0)
      && (r.NegInfDiff? <==> (if dir.value == Asc then x == 0.0 && y != 0.0 else y == 0.0 && x != 0.0))
      && (r.PosInfDiff? <==> (if dir.value == Asc then y == 0.0 && x != 0.0 else x == 0.0 && y != 0.0))
      && (r.FinDiff? <==> x != 0.0 && y != 0.0)
      && (r.FinDiff? ==> r.d == if dir.value == Asc then x - y else y - x)
  {
    if field.None? || dir.None? then FinDiff(0.0)
    else if !Numeric(field.value) then FinDiff(0.0)
    else
      var av := Sentinel(FieldValue(a, field.value).value);
      var bv := Sentinel(FieldValue(b, field.value).value);
      if dir.value == Asc then Subtract(av, bv) else Subtract(bv, av)
  }

  datatype Ordering = Less | Equal | Greater

  /** How `sort` reads a comparator result: negative, positive, or (zero or NaN) equal. */
  function SortCompare(v: JsDiff): Ordering {
    match v
    case NaNDiff => Equal
    case NegInfDiff => Less
    case PosInfDiff => Greater
    case FinDiff(d) => if d < 0.0 then Less else if d > 0.0 then Greater else Equal
  }

  /** The comparator is active: a column and a direction are set and the column is numeric. */
  predicate Active(field: Option<SortField>, dir: Option<Direction>) {
    field.Some? && dir.Some? && Numeric(field.value)
  }

  /** Zero ranks below every measured value, measured values by magnitude. */
  predicate RanksBelow(x: real, y: real) {
    (x == 0.0 && y != 0.0) || (x != 0.0 && y != 0.0 && x < y)
  }

  /** The order `sort` sees: inactive, everything is equal; active, records with
      equal values are equal, and otherwise a zero ranks below any measured value
      in ascending order and above it in descending order. */
  function Order(field: Option<SortField>, dir: Option<Direction>, a: Court, b: Court): (o: Ordering)
    ensures !Active(field, dir) ==> o == Equal
    ensures Active(field, dir) ==>
      var x, y := FieldValue(a, field.value).value, FieldValue(b, field.value).value;
      && (o == Equal <==> x == y)
      && (o == Less <==> if dir.value == Asc then RanksBelow(x, y) else RanksBelow(y, x))
  {
    SortCompare(Comparator(field, dir, a, b))
  }

  /** The comparator is consistent in the sense of ECMA-262: equal is an
      equivalence, less and greater are converse, and not-greater is transitive. */
  lemma OrderConsistent(field: Option<SortField>, dir: Option<Direction>, a: Court, b: Court, c: Court)
    ensures Order(field, dir, a, a) == Equal
    ensures Order(field, dir, a, b) == Less <==> Order(field, dir, b, a) == Greater
    ensures Order(field, dir, a, b) == Equal <==> Order(field, dir, b, a) == Equal
    ensures Order(field, dir, a, b) != Greater && Order(field, dir, b, c) != Greater ==>
      Order(field, dir, a, c) != Greater
    ensures Order(field, dir, a, b) == Less && Order(field, dir, b, c) != Greater ==>
      Order(field, dir, a, c) == Less
  {
  }

  // ---------------------------------------------------------------------------
  // The stable sort

  /** `perm` is a permutation of the indices `0 .. n-1`. */
  ghost predicate IsPermutation(perm: seq<nat>, n: nat) {
    && |perm| == n
    && (forall i :: 0 <= i < n ==> perm[i] < n)
    && (forall i, j :: 0 <= i < j < n ==> perm[i] != perm[j])
  }

  /** `sorted` is `courts` rearranged by `perm`, in `Order`, and records that
      compare equal keep their relative input order (a stable sort). */
  ghost predicate StablySorted(courts: seq<Court>, field: Option<SortField>, dir: Option<Direction>,
                               sorted: seq<Court>, perm: seq<nat>)
  {
    && |sorted| == |courts|
    && IsPermutation(perm, |courts|)
    && (forall i :: 0 <= i < |sorted| ==> sorted[i] == courts[perm[i]])
    && (forall i, j :: 0 <= i < j < |sorted| ==> Order(field, dir, sorted[i], sorted[j]) != Greater)
    && (forall i, j :: 0 <= i < j < |sorted| && Order(field, dir, sorted[i], sorted[j]) == Equal ==>
          perm[i] < perm[j])
  }

  /** The records of `s` below position `n` are in order. */
  ghost predicate SortedBelow(s: seq<Court>, n: nat, field: Option<SortField>, dir: Option<Direction>)
    requires n <= |s|
  {
    forall k, l :: 0 <= k < l < n ==> Order(field, dir, s[k], s[l]) != Greater
  }

  /** Records below position `n` that compare equal are in input order. */
  ghost predicate StableBelow(s: seq<Court>, perm: seq<nat>, n: nat, field: Option<SortField>, dir: Option<Direction>)
    requires n <= |s| == |perm|
  {
    forall k, l :: 0 <= k < l < n && Order(field, dir, s[k], s[l]) == Equal ==> perm[k] < perm[l]
  }

  /** `s` is `courts` rearranged by the injective index map `perm`. */
  ghost predicate Tracks(s: seq<Court>, perm: seq<nat>, courts: seq<Court>) {
    && |s| == |perm| == |courts|
    && (forall k :: 0 <= k < |s| ==> perm[k] < |courts| && s[k] == courts[perm[k]])
    && (forall k, l :: 0 <= k < l < |s| ==> perm[k] != perm[l])
  }

  /** The state of an insertion pass that is moving the record that started at
      position `i` and now sits at `j`: the other records up to `i` are in order
      and stable, and the moving record ranks strictly below those after it. */
  ghost predicate Inserting(s: seq<Court>, perm: seq<nat>, courts: seq<Court>, i: nat, j: nat,
                            field: Option<SortField>, dir: Option<Direction>)
  {
    && j <= i < |s|
    && Tracks(s, perm, courts)
    && (forall k :: i < k < |s| ==> perm[k] == k)
    && perm[j] == i
    && (forall k :: 0 <= k <= i && k != j ==> perm[k] < i)
    && (forall k, l :: 0 <= k < l <= i && k != j && l != j ==> Order(field, dir, s[k], s[l]) != Greater)
    && (forall k, l :: 0 <= k < l <= i && k != j && l != j && Order(field, dir, s[k], s[l]) == Equal ==>
          perm[k] < perm[l])
    && (forall l :: j < l <= i ==> Order(field, dir, s[j], s[l]) == Less)
  }

  /** Swapping the moving record with a predecessor that ranks above it keeps the pass's state. */
  lemma SwapStep(s: seq<Court>, perm: seq<nat>, courts: seq<Court>, i: nat, j: nat,
                 field: Option<SortField>, dir: Option<Direction>)
    requires Inserting(s, perm, courts, i, j, field, dir)
    requires 0 < j && Order(field, dir, s[j - 1], s[j]) == Greater
    ensures Inserting(s[j - 1 := s[j]][j := s[j - 1]], perm[j - 1 := perm[j]][j := perm[j - 1]],
                      courts, i, j - 1, field, dir)
  {
    OrderConsistent(field, dir, s[j - 1], s[j], s[j]);
  }

  /** When the pass stops, the prefix up to `i` is in order and stable. */
  lemma PassDone(s: seq<Court>, perm: seq<nat>, courts: seq<Court>, i: nat, j: nat,
                 field: Option<SortField>, dir: Option<Direction>)
    requires Inserting(s, perm, courts, i, j, field, dir)
    requires j == 0 || Order(field, dir, s[j - 1], s[j]) != Greater
    ensures SortedBelow(s, i + 1, field, dir) && StableBelow(s, perm, i + 1, field, dir)
  {
    forall k | 0 <= k < j
      ensures Order(field, dir, s[k], s[j]) != Greater
    {
      OrderConsistent(field, dir, s[k], s[j - 1], s[j]);
    }
  }

  /** One pass of insertion sort: moves `a[i]` left past every record that
      ranks strictly above it. */
  method InsertAt(a: array<Court>, i: nat, field: Option<SortField>, dir: Option<Direction>,
                  ghost courts: seq<Court>, ghost perm0: seq<nat>)
    returns (ghost perm: seq<nat>)
    requires i < a.Length
    requires Tracks(a[..], perm0, courts)
    requires forall k :: i <= k < a.Length ==> perm0[k] == k
    requires forall k :: 0 <= k < i ==> perm0[k] < i
    requires SortedBelow(a[..], i, field, dir) && StableBelow(a[..], perm0, i, field, dir)
    requires multiset(a[..]) == multiset(courts)
    modifies a
    ensures multiset(a[..]) == multiset(courts)
    ensures Tracks(a[..], perm, courts)
    ensures forall k :: i < k < a.Length ==> perm[k] == k
    ensures forall k :: 0 <= k <= i ==> perm[k] <= i
    ensures SortedBelow(a[..], i + 1, field, dir) && StableBelow(a[..], perm, i + 1, field, dir)
  {
    perm := perm0;
    var j: nat := i;
    while j > 0 && Order(field, dir, a[j - 1], a[j]) == Greater
      invariant Inserting(a[..], perm, courts, i, j, field, dir)
      invariant multiset(a[..]) == multiset(courts)
    {
      ghost var s := a[..];
      SwapStep(s, perm, courts, i, j, field, dir);
      a[j - 1], a[j] := a[j], a[j - 1];
      assert a[..] == s[j - 1 := s[j]][j := s[j - 1]];
      perm := perm[j - 1 := perm[j]][j := perm[j - 1]];
      j := j - 1;
    }
    PassDone(a[..], perm, courts, i, j, field, dir);
  }

  /** `[...courts].sort(comparator)`: copies the list into a fresh array and
      insertion-sorts the copy; `courts` itself is a value and is not touched.
      `perm` records where each output record came from. */
  method SortCourts(courts: seq<Court>, field: Option<SortField>, dir: Option<Direction>)
    returns (sorted: seq<Court>, ghost perm: seq<nat>)
    ensures |sorted| == |courts| && multiset(sorted) == multiset(courts)
    ensures forall i, j :: 0 <= i < j < |sorted| ==> Order(field, dir, sorted[i], sorted[j]) != Greater
    ensures StablySorted(courts, field, dir, sorted, perm)
  {
    var a := new Court[|courts|](k requires 0 <= k < |courts| => courts[k]);
    assert a[..] == courts;
    perm := seq(|courts|, k => k);
    var i := 0;
    while i < a.Length
      invariant 0 <= i <= a.Length
      invariant Tracks(a[..], perm, courts)
      invariant forall k :: i <= k < a.Length ==> perm[k] == k
      invariant forall k :: 0 <= k < i ==> perm[k] < i
      invariant SortedBelow(a[..], i, field, dir) && StableBelow(a[..], perm, i, field, dir)
      invariant multiset(a[..]) == multiset(courts)
    {
      perm := InsertAt(a, i, field, dir, courts, perm);
      i := i + 1;
    }
    sorted := a[..];
  }
}

/** What a stable sort under the zero-sentinel comparator produces. */
module SortingProperties {
  import opened Wrappers
  import opened Payload
  import opened Sorting

  lemma {:induction false} IncreasingAtLeastIndex(p: seq<nat>, i: nat)
    requires i < |p|
    requires forall k, l :: 0 <= k < l < |p| ==> p[k] < p[l]
    ensures p[i] >= i
    decreases i
  {
    if i > 0 { IncreasingAtLeastIndex(p, i - 1); }
  }

  lemma {:induction false} IncreasingAtMostIndex(p: seq<nat>, i: nat)
    requires i < |p|
    requires forall k :: 0 <= k < |p| ==> p[k] < |p|
    requires forall k, l :: 0 <= k < l < |p| ==> p[k] < p[l]
    ensures p[i] <= i
    decreases |p| - i
  {
    if i + 1 < |p| { IncreasingAtMostIndex(p, i + 1); }
  }

  /** A strictly increasing permutation of `0 .. n-1` is the identity. */
  lemma IncreasingPermutationIsIdentity(p: seq<nat>)
    requires forall k :: 0 <= k < |p| ==> p[k] < |p|
    requires forall k, l :: 0 <= k < l < |p| ==> p[k] < p[l]
    ensures forall k :: 0 <= k < |p| ==> p[k] == k
  {
    forall k | 0 <= k < |p| ensures p[k] == k {
      IncreasingAtLeastIndex(p, k);
      IncreasingAtMostIndex(p, k);
    }
  }

  /** With no column or no direction selected, or with the `number` or `name`
      column, the comparator always answers 0 and the list keeps its order. */
  lemma InactiveSortKeepsOrder(courts: seq<Court>, field: Option<SortField>, dir: Option<Direction>,
                               sorted: seq<Court>, perm: seq<nat>)
    requires StablySorted(courts, field, dir, sorted, perm)
    requires !Active(field, dir)
    ensures sorted == courts
  {
    IncreasingPermutationIsIdentity(perm);
  }

  /** The numeric value a column holds for a record. */
  function ValueOf(c: Court, field: SortField): real
    requires Numeric(field)
  {
    FieldValue(c, field).value
  }

  /** Ascending: every zero-valued record comes before every measured one, the
      measured values are nondecreasing, and the zeros keep their input order. */
  lemma AscendingPutsZerosFirst(courts: seq<Court>, field: SortField, sorted: seq<Court>, perm: seq<nat>)
    requires Numeric(field)
    requires StablySorted(courts, Some(field), Some(Asc), sorted, perm)
    ensures forall i, j :: 0 <= i < j < |sorted| && ValueOf(sorted[j], field) == 0.0 ==>
      ValueOf(sorted[i], field) == 0.0
    ensures forall i, j :: (0 <= i < j < |sorted| && ValueOf(sorted[i], field) != 0.0 && ValueOf(sorted[j], field) != 0.0) ==>
      ValueOf(sorted[i], field) <= ValueOf(sorted[j], field)
    ensures forall i, j :: (0 <= i < j < |sorted| && ValueOf(sorted[i], field) == 0.0 && ValueOf(sorted[j], field) == 0.0) ==>
      perm[i] < perm[j]
  {
  }

  /** Descending: the measured values are nonincreasing and every zero-valued
      record comes after them, the zeros still in input order. */
  lemma DescendingPutsZerosLast(courts: seq<Court>, field: SortField, sorted: seq<Court>, perm: seq<nat>)
    requires Numeric(field)
    requires StablySorted(courts, Some(field), Some(Desc), sorted, perm)
    ensures forall i, j :: 0 <= i < j < |sorted| && ValueOf(sorted[i], field) == 0.0 ==>
      ValueOf(sorted[j], field) == 0.0
    ensures forall i, j :: (0 <= i < j < |sorted| && ValueOf(sorted[i], field) != 0.0 && ValueOf(sorted[j], field) != 0.0) ==>
      ValueOf(sorted[i], field) >= ValueOf(sorted[j], field)
    ensures forall i, j :: (0 <= i < j < |sorted| && ValueOf(sorted[i], field) == 0.0 && ValueOf(sorted[j], field) == 0.0) ==>
      perm[i] < perm[j]
  {
  }

  // ---------------------------------------------------------------------------
  // The specification determines the result

  /** Input record `x` goes before input record `y` in a stable sort. */
  ghost predicate Precedes(courts: seq<Court>, field: Option<SortField>, dir: Option<Direction>, x: nat, y: nat)
    requires x < |courts| && y < |courts|
  {
    Order(field, dir, courts[x], courts[y]) == Less
    || (Order(field, dir, courts[x], courts[y]) == Equal && x < y)
  }

  lemma PrecedesTotalAsymmetric(courts: seq<Court>, field: Option<SortField>, dir: Option<Direction>, x: nat, y: nat)
    requires x < |courts| && y < |courts|
    ensures x != y ==> Precedes(courts, field, dir, x, y) != Precedes(courts, field, dir, y, x)
  {
    OrderConsistent(field, dir, courts[x], courts[y], courts[y]);
  }

  /** The permutation of a stable sort lists the input indices in `Precedes` order. */
  lemma PermutationFollowsPrecedes(courts: seq<Court>, field: Option<SortField>, dir: Option<Direction>,
                                   sorted: seq<Court>, perm: seq<nat>)
    requires StablySorted(courts, field, dir, sorted, perm)
    ensures forall i, j :: 0 <= i < j < |perm| ==> Precedes(courts, field, dir, perm[i], perm[j])
  {
  }

  lemma {:induction false} ImageSize(p: seq<nat>, n: nat)
    requires n <= |p|
    requires forall i, j :: 0 <= i < j < |p| ==> p[i] != p[j]
    ensures |set k | 0 <= k < n :: p[k]| == n
    decreases n
  {
    if n > 0 {
      ImageSize(p, n - 1);
      var before := set k | 0 <= k < n - 1 :: p[k];
      assert (set k | 0 <= k < n :: p[k]) == before + {p[n - 1]};
      assert p[n - 1] !in before;
    }
  }

  /** An injective map of `0 .. n-1` into itself reaches every index. */
  lemma Pigeonhole(p: seq<nat>)
    requires forall i :: 0 <= i < |p| ==> p[i] < |p|
    requires forall i, j :: 0 <= i < j < |p| ==> p[i] != p[j]
    ensures forall v :: 0 <= v < |p| ==> v in p
  {
    var identity: seq<nat> := seq(|p|, k => k);
    var image := set k | 0 <= k < |p| :: p[k];
    var range := set k | 0 <= k < |p| :: identity[k];
    ImageSize(p, |p|);
    ImageSize(identity, |p|);
    forall v | v in image ensures v in range {
      var k :| 0 <= k < |p| && p[k] == v;
      assert identity[v] == v;
    }
    assert |range - image| == 0;
    forall v | 0 <= v < |p| ensures v in p {
      assert identity[v] in range;
      assert v in image;
    }
  }

  /** Two permutations in `Precedes` order that agree below `i` agree at `i`. */
  lemma NextIndexAgrees(courts: seq<Court>, field: Option<SortField>, dir: Option<Direction>,
                        pa: seq<nat>, pb: seq<nat>, i: nat)
    requires IsPermutation(pa, |courts|) && IsPermutation(pb, |courts|)
    requires forall x, y :: 0 <= x < y < |pa| ==> Precedes(courts, field, dir, pa[x], pa[y])
    requires forall x, y :: 0 <= x < y < |pb| ==> Precedes(courts, field, dir, pb[x], pb[y])
    requires i < |courts| && forall k :: 0 <= k < i ==> pa[k] == pb[k]
    ensures pa[i] == pb[i]
  {
    Pigeonhole(pa);
    Pigeonhole(pb);
    var x, y := pa[i], pb[i];
    assert x in pb && y in pa;
    var j :| 0 <= j < |pb| && pb[j] == x;
    var j' :| 0 <= j' < |pa| && pa[j'] == y;
    assert i <= j && i <= j';
    assert i < j ==> Precedes(courts, field, dir, y, x);
    assert i < j' ==> Precedes(courts, field, dir, x, y);
    PrecedesTotalAsymmetric(courts, field, dir, x, y);
  }

  lemma {:induction false} SamePrefix(courts: seq<Court>, field: Option<SortField>, dir: Option<Direction>,
                                      s1: seq<Court>, p1: seq<nat>, s2: seq<Court>, p2: seq<nat>, n: nat)
    requires StablySorted(courts, field, dir, s1, p1) && StablySorted(courts, field, dir, s2, p2)
    requires n <= |courts|
    ensures forall k :: 0 <= k < n ==> p1[k] == p2[k]
    decreases n
  {
    if n > 0 {
      SamePrefix(courts, field, dir, s1, p1, s2, p2, n - 1);
      PermutationFollowsPrecedes(courts, field, dir, s1, p1);
      PermutationFollowsPrecedes(courts, field, dir, s2, p2);
      NextIndexAgrees(courts, field, dir, p1, p2, n - 1);
    }
  }

  /** The specification has one solution: every stable sort of the same list
      under the same comparator gives the same order, so `SortCourts` yields
      what any conforming JavaScript engine yields. */
  lemma StableSortIsUnique(courts: seq<Court>, field: Option<SortField>, dir: Option<Direction>,
                           s1: seq<Court>, p1: seq<nat>, s2: seq<Court>, p2: seq<nat>)
    requires StablySorted(courts, field, dir, s1, p1) && StablySorted(courts, field, dir, s2, p2)
    ensures s1 == s2 && p1 == p2
  {
    SamePrefix(courts, field, dir, s1, p1, s2, p2, |courts|);
  }
}
