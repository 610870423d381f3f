/** The integer part of stats_utils/src/lib.rs: the N50 and N90 length
    statistics, the unsigned absolute difference, and the reproducible
    linear-congruential vector generator. */
module StatsUtils {
  import opened Machine
  import opened Sorting

  // ---------------------------------------------------------------------
  // Sums and prefix sums
  // ---------------------------------------------------------------------

  function Sum(s: seq<int>): int {
    if s == [] then 0 else s[0] + Sum(s[1..])
  }

  lemma {:induction false} SumConcat(a: seq<int>, b: seq<int>)
    ensures Sum(a + b) == Sum(a) + Sum(b)
  {
    if a == [] {
      assert a + b == b;
    } else {
      assert (a + b)[1..] == a[1..] + b;
      SumConcat(a[1..], b);
    }
  }

  /** Adding the next element to a running prefix sum. */
  lemma PrefixStep(s: seq<int>, i: nat)
    requires i < |s|
    ensures Sum(s[..i + 1]) == Sum(s[..i]) + s[i]
  {
    assert s[..i + 1] == s[..i] + [s[i]];
    SumConcat(s[..i], [s[i]]);
  }

  /** Taking one element out of a sequence takes it out of the total. */
  lemma SumRemove(b: seq<int>, k: nat)
    requires k < |b|
    ensures Sum(b) == b[k] + Sum(b[..k] + b[k + 1..])
  {
    var p, q := b[..k], b[k + 1..];
    var t := [b[k]] + q;
    assert t[1..] == q;
    assert Sum(t) == b[k] + Sum(q);
    assert b == p + t;
    SumConcat(p, t);
    SumConcat(p, q);
  }

  /** The total does not depend on the order of the elements. */
  lemma {:induction false} SumPermutation(a: seq<int>, b: seq<int>)
    requires multiset(a) == multiset(b)
    ensures Sum(a) == Sum(b)
  {
    if a == [] {
      assert |multiset(b)| == 0;
    } else {
      assert a[0] in multiset(b);
      var k :| 0 <= k < |b| && b[k] == a[0];
      var rest := b[..k] + b[k + 1..];
      SumRemove(b, k);
      assert b == b[..k] + [b[k]] + b[k + 1..];
      assert multiset(b) == multiset(b[..k]) + multiset{b[k]} + multiset(b[k + 1..]);
      assert multiset(rest) == multiset(b) - multiset{b[k]};
      assert a == [a[0]] + a[1..];
      assert multiset(a[1..]) == multiset(a) - multiset{a[0]};
      SumPermutation(a[1..], rest);
    }
  }

  lemma {:induction false} SumPositive(s: seq<int>)
    requires AllPositive(s) && s != []
    ensures Sum(s) > 0
  {
    if |s| > 1 {
      SumPositive(s[1..]);
    }
  }

  /** In a sequence of positive numbers the prefix sums strictly increase. */
  lemma PrefixIncreasing(s: seq<int>, j: nat, i: nat)
    requires AllPositive(s)
    requires j < i <= |s|
    ensures Sum(s[..j]) < Sum(s[..i])
  {
    assert s[..i] == s[..j] + s[j..i];
    SumConcat(s[..j], s[j..i]);
    SumPositive(s[j..i]);
  }

  /** n copies of c add up to n * c. */
  lemma {:induction false} SumConstant(n: nat, c: int)
    ensures Sum(seq(n, _ => c)) == n * c
  {
    if n > 0 {
      assert seq(n, _ => c)[1..] == seq(n - 1, _ => c);
      SumConstant(n - 1, c);
    }
  }

  /** A total of lengths each at most c is at most |s| * c. */
  lemma {:induction false} SumAtMost(s: seq<int>, c: int)
    requires forall j :: 0 <= j < |s| ==> s[j] <= c
    ensures Sum(s) <= |s| * c
  {
    if s != [] {
      SumAtMost(s[1..], c);
    }
  }

  lemma MulMonotone(a: int, b: int, c: int)
    requires a <= b && c >= 0
    ensures a * c <= b * c
  {
    assert b * c - a * c == (b - a) * c;
  }

  lemma MulStrictMonotone(a: int, b: int, c: int)
    requires a < b && c > 0
    ensures c * a < c * b
  {
    assert c * b - c * a == c * (b - a);
  }

  // ---------------------------------------------------------------------
  // N50 and N90: specification
  // ---------------------------------------------------------------------

  /** Both statistics assert that every length is strictly positive. */
  predicate AllPositive(v: seq<int>) {
    forall j :: 0 <= j < |v| ==> v[j] > 0
  }

  /** At index i the running sum vs[0] + ... + vs[i] has reached the
      fraction num/den of total: den * prefix >= num * total. */
  predicate Reaches(vs: seq<int>, total: int, num: int, den: int, i: nat)
    requires i < |vs|
  {
    den * Sum(vs[..i + 1]) >= num * total
  }

  /** The first index, not before `from`, at which the running sum reaches
      num/den of total, given that no earlier index does; |vs| if none does. */
  function Crossing(vs: seq<int>, total: int, num: int, den: int, from: nat): (i: nat)
    requires from <= |vs|
    requires forall j :: 0 <= j < from ==> !Reaches(vs, total, num, den, j)
    ensures from <= i <= |vs|
    ensures i < |vs| ==> Reaches(vs, total, num, den, i)
    ensures forall j :: 0 <= j < i ==> !Reaches(vs, total, num, den, j)
    decreases |vs| - from
  {
    if from == |vs| || Reaches(vs, total, num, den, from) then from
    else Crossing(vs, total, num, den, from + 1)
  }

  /** The corrected tie average of two lengths: `(a + b) / 2` with Rust's
      truncating division, computed without overflow (the source adds in
      i32; see `WrappingMidpoint`). */
  function Midpoint(a: int, b: int): (r: int)
    ensures a <= b ==> a <= r <= b
    ensures b <= a ==> b <= r <= a
    ensures a + b >= 0 ==> 2 * r <= a + b <= 2 * r + 1
  {
    TruncDiv(a + b, 2)
  }

  /** What is returned at the crossing index i: when the running sum hits
      the fraction exactly and a next element exists, the midpoint of vs[i]
      and vs[i + 1]; otherwise vs[i]. */
  function Pick(vs: seq<int>, total: int, num: int, den: int, i: nat): (r: int)
    requires i < |vs|
    ensures i == |vs| - 1 ==> r == vs[i]
    ensures i < |vs| - 1 && vs[i] <= vs[i + 1] ==> vs[i] <= r <= vs[i + 1]
  {
    if den * Sum(vs[..i + 1]) == num * total && i < |vs| - 1 then
      Midpoint(vs[i], vs[i + 1])
    else
      vs[i]
  }

  /** The statistic that n50 (num/den = 1/2) and n90 (9/10) compute: 0 for
      no lengths, a panic when a length is not positive, and otherwise the
      value picked at the first index of the ascending copy whose running
      sum reaches num/den of the total. */
  ghost function Statistic(v: seq<int>, num: nat, den: nat): (r: Outcome<int>)
    requires 0 < num < den
    ensures v == [] ==> r == Returns(0)
    ensures r == Panics <==> v != [] && !AllPositive(v)
  {
    if v == [] then Returns(0)
    else if !AllPositive(v) then Panics
    else
      var vs := SortedCopyOf(v);
      LastIndexReaches(v, vs, num, den);
      Returns(Pick(vs, Sum(v), num, den, Crossing(vs, Sum(v), num, den, 0)))
  }

  /** An ascending copy of positive lengths is positive, as long, and has
      the same total. */
  lemma SortedCopyFacts(v: seq<int>, vs: seq<int>)
    requires v != [] && AllPositive(v) && IsSortedCopy(v, vs)
    ensures |vs| == |v|
    ensures AllPositive(vs)
    ensures Sum(vs) == Sum(v) > 0
  {
    assert |multiset(vs)| == |multiset(v)|;
    forall j | 0 <= j < |vs| ensures vs[j] > 0 {
      assert vs[j] in multiset(v);
    }
    SumPermutation(vs, v);
    SumPositive(v);
  }

  /** When the last index reaches the fraction, the search stops inside the
      sequence. */
  lemma CrossingBeforeEnd(vs: seq<int>, total: int, num: int, den: int)
    requires vs != []
    requires Reaches(vs, total, num, den, |vs| - 1)
    ensures Crossing(vs, total, num, den, 0) < |vs|
  {
  }

  /** The last index of the ascending copy always reaches the fraction, so
      the searches in n50 and n90 return from inside their loops and the
      trailing `0 // never executed` is indeed never reached. */
  lemma LastIndexReaches(v: seq<int>, vs: seq<int>, num: nat, den: nat)
    requires 0 < num < den
    requires v != [] && AllPositive(v) && IsSortedCopy(v, vs)
    ensures |vs| == |v|
    ensures Reaches(vs, Sum(v), num, den, |vs| - 1)
    ensures Crossing(vs, Sum(v), num, den, 0) < |vs|
  {
    SortedCopyFacts(v, vs);
    var s := Sum(v);
    assert vs[..|vs|] == vs;
    MulMonotone(num, den, s);
    CrossingBeforeEnd(vs, s, num, den);
  }

  /** The statistic is fixed by any index of an ascending copy that reaches
      the fraction while no earlier index does. */
  lemma StatisticAt(v: seq<int>, vs: seq<int>, num: nat, den: nat, i: nat)
    requires 0 < num < den
    requires v != [] && AllPositive(v) && IsSortedCopy(v, vs)
    requires i < |vs|
    requires Reaches(vs, Sum(v), num, den, i)
    requires forall j :: 0 <= j < i ==> !Reaches(vs, Sum(v), num, den, j)
    ensures Statistic(v, num, den) == Returns(Pick(vs, Sum(v), num, den, i))
  {
    SortedCopyIsUnique(v, vs);
    LastIndexReaches(v, vs, num, den);
    var c := Crossing(vs, Sum(v), num, den, 0);
    assert c == i;
  }

  // ---------------------------------------------------------------------
  // N50 and N90: the source's loops
  // ---------------------------------------------------------------------

  /** `n50`: the length at which the ascending running sum first reaches
      half of the total. */
  method N50(v: seq<Int32>) returns (r: Outcome<int>)
    ensures v == [] ==> r == Returns(0)
    ensures r == Panics <==> v != [] && !AllPositive(v)
    ensures r == Statistic(v, 1, 2)
  {
    if |v| == 0 {
      return Returns(0);
    }
    for k := 0 to |v|
      invariant forall j :: 0 <= j < k ==> v[j] > 0
    {
      if v[k] <= 0 {
        return Panics;
      }
    }
    var sum: int := 0;
    var half: int := 0;
    for k := 0 to |v|
      invariant sum == Sum(v[..k])
    {
      PrefixStep(v, k);
      sum := sum + v[k];
    }
    assert v[..|v|] == v;
    var vs := SortUnstable(v);
    SortedCopyFacts(v, vs);
    for i := 0 to |vs|
      invariant half == Sum(vs[..i])
      invariant forall j :: 0 <= j < i ==> !Reaches(vs, sum, 1, 2, j)
    {
      PrefixStep(vs, i);
      half := half + vs[i];
      assert vs[i] in multiset(v) by {
        assert vs[i] in multiset(vs);
      }
      if 2 * half == sum && i < |vs| - 1 {
        assert vs[i + 1] in multiset(v) by {
          assert vs[i + 1] in multiset(vs);
        }
        StatisticAt(v, vs, 1, 2, i);
        return Returns(Midpoint(vs[i], vs[i + 1]));
      }
      if 2 * half >= sum {
        StatisticAt(v, vs, 1, 2, i);
        return Returns(vs[i]);
      }
    }
    LastIndexReaches(v, vs, 1, 2);
    assert false;
    r := Returns(0);
  }

  /** `n90`: the length at which the ascending running sum first reaches
      nine tenths of the total. The source's crossing test is the float
      comparison `part as f64 / sum as f64 >= 0.9`; it is modelled as the
      integer test 10 * part >= 9 * sum, which it matches except where the
      rounding of the quotient or of the constant 0.9 decides. */
  method N90(v: seq<Int32>) returns (r: Outcome<int>)
    ensures v == [] ==> r == Returns(0)
    ensures r == Panics <==> v != [] && !AllPositive(v)
    ensures r == Statistic(v, 9, 10)
  {
    if |v| == 0 {
      return Returns(0);
    }
    for k := 0 to |v|
      invariant forall j :: 0 <= j < k ==> v[j] > 0
    {
      if v[k] <= 0 {
        return Panics;
      }
    }
    var sum: int := 0;
    var part: int := 0;
    for k := 0 to |v|
      invariant sum == Sum(v[..k])
    {
      PrefixStep(v, k);
      sum := sum + v[k];
    }
    assert v[..|v|] == v;
    var vs := SortUnstable(v);
    SortedCopyFacts(v, vs);
    for i := 0 to |vs|
      invariant part == Sum(vs[..i])
      invariant forall j :: 0 <= j < i ==> !Reaches(vs, sum, 9, 10, j)
    {
      PrefixStep(vs, i);
      part := part + vs[i];
      if 10 * part == 9 * sum && i < |vs| - 1 {
        StatisticAt(v, vs, 9, 10, i);
        return Returns(Midpoint(vs[i], vs[i + 1]));
      }
      if 10 * part >= 9 * sum {
        StatisticAt(v, vs, 9, 10, i);
        return Returns(vs[i]);
      }
    }
    LastIndexReaches(v, vs, 9, 10);
    assert false;
    r := Returns(0);
  }

  // ---------------------------------------------------------------------
  // N50 and N90: properties
  // ---------------------------------------------------------------------

  /** The statistic is a value between the smallest and the largest length:
      vs[i] itself, or the midpoint of vs[i] and vs[i + 1]. On i32 lengths
      it is therefore an i32. */
  lemma StatisticWithinLengths(v: seq<int>, num: nat, den: nat)
    requires 0 < num < den
    requires v != [] && Statistic(v, num, den).Returns?
    ensures exists j :: 0 <= j < |v| && v[j] <= Statistic(v, num, den).value
    ensures exists k :: 0 <= k < |v| && Statistic(v, num, den).value <= v[k]
  {
    var vs := SortedCopyOf(v);
    LastIndexReaches(v, vs, num, den);
    var i := Crossing(vs, Sum(v), num, den, 0);
    var x := Statistic(v, num, den).value;
    assert x == Pick(vs, Sum(v), num, den, i);
    var hi := if i < |vs| - 1 && den * Sum(vs[..i + 1]) == num * Sum(v) then i + 1 else i;
    assert vs[i] <= x <= vs[hi];
    assert vs[i] in multiset(v) && vs[hi] in multiset(v) by {
      assert vs[i] in multiset(vs) && vs[hi] in multiset(vs);
    }
    var j :| 0 <= j < |v| && v[j] == vs[i];
    var k :| 0 <= k < |v| && v[k] == vs[hi];
  }

  /** On lengths that are i32 values, so is the statistic. */
  lemma StatisticIsInt32(v: seq<Int32>, num: nat, den: nat)
    requires 0 < num < den
    requires Statistic(v, num, den).Returns?
    ensures -TWO_31 <= Statistic(v, num, den).value < TWO_31
  {
    if v != [] {
      StatisticWithinLengths(v, num, den);
    }
  }

  /** The exact-tie rule: when the running sum at index i, not the last,
      equals the fraction of the total exactly, the statistic is the
      truncated midpoint of vs[i] and vs[i + 1]. */
  lemma TieRule(v: seq<int>, num: nat, den: nat, i: nat)
    requires 0 < num < den
    requires v != [] && AllPositive(v)
    requires i < |v| - 1
    requires den * Sum(SortedCopyOf(v)[..i + 1]) == num * Sum(v)
    ensures Statistic(v, num, den)
            == Returns(Midpoint(SortedCopyOf(v)[i], SortedCopyOf(v)[i + 1]))
  {
    var vs := SortedCopyOf(v);
    SortedCopyFacts(v, vs);
    EarlierFallShort(vs, Sum(v), num, den, i);
    StatisticAt(v, vs, num, den, i);
  }

  /** Positive lengths make the running sum strictly increasing, so before
      an index that hits the fraction exactly no index reaches it. */
  lemma EarlierFallShort(vs: seq<int>, total: int, num: int, den: int, i: nat)
    requires AllPositive(vs) && den > 0
    requires i < |vs|
    requires den * Sum(vs[..i + 1]) == num * total
    ensures forall j :: 0 <= j < i ==> !Reaches(vs, total, num, den, j)
  {
    forall j | 0 <= j < i ensures !Reaches(vs, total, num, den, j) {
      PrefixIncreasing(vs, j + 1, i + 1);
      MulStrictMonotone(Sum(vs[..j + 1]), Sum(vs[..i + 1]), den);
    }
  }

  /** The index at which the running sum reaches nine tenths is never
      before the one at which it reaches half. */
  lemma N90CrossesNoEarlier(vs: seq<int>, total: int)
    requires total >= 0
    ensures Crossing(vs, total, 1, 2, 0) <= Crossing(vs, total, 9, 10, 0)
  {
    var c90 := Crossing(vs, total, 9, 10, 0);
    if c90 < |vs| {
      assert Reaches(vs, total, 9, 10, c90);
      assert Reaches(vs, total, 1, 2, c90);
    }
  }

  /** The positivity check passes for every rearrangement of lengths that
      pass it. */
  lemma PositiveIgnoresOrder(v: seq<int>, w: seq<int>)
    requires multiset(v) == multiset(w)
    requires AllPositive(v)
    ensures AllPositive(w)
  {
    forall j | 0 <= j < |w| ensures w[j] > 0 {
      assert w[j] in multiset(w);
      var k :| 0 <= k < |v| && v[k] == w[j];
    }
  }

  /** The statistic depends on the multiset of lengths only: the input
      order is irrelevant, and the input itself is never rearranged. */
  lemma StatisticIgnoresOrder(v: seq<int>, w: seq<int>, num: nat, den: nat)
    requires 0 < num < den
    requires multiset(v) == multiset(w)
    ensures Statistic(v, num, den) == Statistic(w, num, den)
  {
    assert |v| == |multiset(v)| == |w|;
    if v != [] {
      if AllPositive(v) {
        PositiveIgnoresOrder(v, w);
        SortedCopyIsUnique(v, SortedCopyOf(w));
        SumPermutation(v, w);
      } else if AllPositive(w) {
        PositiveIgnoresOrder(w, v);
      }
    }
  }

  /** A single length is its own N50 and N90. */
  lemma SingleLength(x: int, num: nat, den: nat)
    requires 0 < num < den && x > 0
    ensures Statistic([x], num, den) == Returns(x)
  {
    SortedCopyIsUnique([x], [x]);
    assert [x][..1] == [x];
    MulMonotone(num, den, x);
    StatisticAt([x], [x], num, den, 0);
  }

  /** Four lengths of 2: the running sum hits half of 8 exactly at index 1
      and the tie midpoint of 2 and 2 is returned. */
  lemma N50OfFourTwos()
    ensures Statistic([2, 2, 2, 2], 1, 2) == Returns(2)
  {
    var v := [2, 2, 2, 2];
    SortedCopyIsUnique(v, v);
    assert Sum(v) == 8 by {
      assert v == seq(4, _ => 2);
      SumConstant(4, 2);
    }
    assert Sum(v[..2]) == 4 by {
      assert v[..2] == seq(2, _ => 2);
      SumConstant(2, 2);
    }
    TieRule(v, 1, 2, 1);
    assert Midpoint(v[1], v[2]) == 2;
  }

  /** With no more than 2^32 lengths of i32 size the 64-bit total cannot
      overflow; ten times the total (hence `9 * sum` in n90) cannot overflow
      while the lengths number at most 429496729. */
  lemma SumsFitInt64(v: seq<Int32>)
    ensures |v| <= TWO_32 ==> Sum(v) < TWO_63
    ensures |v| <= 429496729 ==> 10 * Sum(v) < TWO_63
  {
    SumAtMost(v, TWO_31 - 1);
    if |v| <= TWO_32 {
      MulMonotone(|v|, TWO_32, TWO_31 - 1);
    }
    if |v| <= 429496729 {
      MulMonotone(|v|, 429496729, TWO_31 - 1);
    }
  }

  /** `2 * half` in n50 stays in the i64 range at every index the loop
      reaches, for up to 2^32 lengths: the loop returns as soon as the
      doubled prefix reaches the total, so before the last step it is below
      the total, and one i32 length is added. */
  lemma DoubledHalfFitsInt64(v: seq<Int32>, vs: seq<int>, i: nat)
    requires v != [] && AllPositive(v) && IsSortedCopy(v, vs)
    requires i < |vs|
    requires forall j :: 0 <= j < i ==> !Reaches(vs, Sum(v), 1, 2, j)
    ensures |v| <= TWO_32 ==> 2 * Sum(vs[..i + 1]) < TWO_63
  {
    SortedCopyFacts(v, vs);
    SumAtMost(v, TWO_31 - 1);
    if |v| <= TWO_32 {
      MulMonotone(|v|, TWO_32, TWO_31 - 1);
    }
    assert vs[i] in multiset(v) by {
      assert vs[i] in multiset(vs);
    }
    var k :| 0 <= k < |v| && v[k] == vs[i];
    PrefixStep(vs, i);
    if i > 0 {
      assert !Reaches(vs, Sum(v), 1, 2, i - 1);
    } else {
      assert vs[..0] == [];
    }
  }

  /** `10 * part` in n90 stays in the i64 range at every index of the
      sorted copy, for up to 429496729 lengths: a prefix of positive lengths
      never exceeds the total. */
  lemma TenfoldPartFitsInt64(v: seq<Int32>, vs: seq<int>, i: nat)
    requires v != [] && AllPositive(v) && IsSortedCopy(v, vs)
    requires i < |vs|
    ensures Sum(vs[..i + 1]) <= Sum(v)
    ensures |v| <= 429496729 ==> 10 * Sum(vs[..i + 1]) < TWO_63
  {
    SortedCopyFacts(v, vs);
    SumsFitInt64(v);
    assert vs[..|vs|] == vs;
    if i + 1 < |vs| {
      PrefixIncreasing(vs, i + 1, |vs|);
    }
  }

  // ---------------------------------------------------------------------
  // Finding: the tie average is added in i32
  // ---------------------------------------------------------------------

  /** The tie average as the source computes it in a release build:
      `vs[i] + vs[i + 1]` wraps in i32 before the truncating division. */
  function WrappingMidpoint(a: Int32, b: Int32): (r: Int32)
    ensures -TWO_31 <= a + b < TWO_31 ==> r == Midpoint(a, b)
    ensures a + b >= TWO_31 ==> r < 0
  {
    TruncDiv(Wrap32(a + b), 2)
  }

  /** Two lengths of 1500000000 tie at half the total; the corrected midpoint
      is 1500000000 but the i32 addition wraps and the source returns
      -647483648, below every input length. */
  lemma N50TieAverageWraps()
    ensures Statistic([1500000000, 1500000000], 1, 2) == Returns(1500000000)
    ensures WrappingMidpoint(1500000000, 1500000000) == -647483648
  {
    var v := [1500000000, 1500000000];
    SortedCopyIsUnique(v, v);
    assert v[..1] == [1500000000];
    TieRule(v, 1, 2, 0);
    assert Wrap32(3000000000) == 3000000000 - TWO_32;
  }

  /** Ten lengths of 1200000000 tie at nine tenths at index 8; the corrected
      midpoint is 1200000000 but the source returns -947483648. */
  lemma N90TieAverageWraps()
    ensures Statistic(seq(10, _ => 1200000000), 9, 10) == Returns(1200000000)
    ensures WrappingMidpoint(1200000000, 1200000000) == -947483648
  {
    var v := seq(10, _ => 1200000000);
    SortedCopyIsUnique(v, v);
    assert v[..9] == seq(9, _ => 1200000000);
    SumConstant(9, 1200000000);
    SumConstant(10, 1200000000);
    TieRule(v, 9, 10, 8);
    assert Wrap32(2400000000) == 2400000000 - TWO_32;
  }

  // ---------------------------------------------------------------------
  // abs_diff
  // ---------------------------------------------------------------------

  /** `abs_diff` on usize: the distance between a and b, computed by
      subtracting the smaller from the larger so that it never underflows
      (the result type Usize is checked on each subtraction). */
  function AbsDiff(a: Usize, b: Usize): (r: Usize)
    ensures a + r == b || b + r == a
  {
    if a <= b then b - a else a - b
  }

  /** The distance is symmetric and is zero exactly for equal arguments. */
  lemma AbsDiffSymmetric(a: Usize, b: Usize)
    ensures AbsDiff(a, b) == AbsDiff(b, a)
    ensures AbsDiff(a, b) == 0 <==> a == b
  {
  }

  // ---------------------------------------------------------------------
  // make_random_vec
  // ---------------------------------------------------------------------

  const LCG_MULTIPLIER: Int64 := 6_364_136_223_846_793_005
  const LCG_INCREMENT: Int64 := 1_442_695_040_888_963_407

  /** One step of the generator as the source writes it,
      `LCG_MULTIPLIER.wrapping_mul(x).wrapping_add(LCG_INCREMENT)`: the affine
      map x -> A * x + C reduced once into the signed 64-bit range. */
  function LcgStep(x: Int64): (y: Int64)
    ensures y == Wrap64(LCG_MULTIPLIER * x + LCG_INCREMENT)
  {
    WrappingMulAdd(LCG_MULTIPLIER, x, LCG_INCREMENT);
    WrappingAdd(WrappingMul(LCG_MULTIPLIER, x), LCG_INCREMENT)
  }

  /** The generator's k-th value: the step applied k times to 0. */
  function RandomValue(k: nat): Int64 {
    if k == 0 then 0 else LcgStep(RandomValue(k - 1))
  }

  /** s starts at 0 and each element is the wrapped affine image of the one
      before it. */
  predicate IsLcgRun(s: seq<Int64>) {
    |s| >= 1 && s[0] == 0 &&
    forall i :: 1 <= i < |s| ==> s[i] == Wrap64(LCG_MULTIPLIER * s[i - 1] + LCG_INCREMENT)
  }

  /** A run is the generator's values from 0 on, element by element. */
  lemma {:induction false} LcgRunValues(s: seq<Int64>, i: nat)
    requires IsLcgRun(s) && i < |s|
    ensures s[i] == RandomValue(i)
  {
    if i > 0 {
      LcgRunValues(s, i - 1);
    }
  }

  /** So a run is determined by its length alone. */
  lemma LcgRunUnique(s: seq<Int64>, t: seq<Int64>)
    requires IsLcgRun(s) && IsLcgRun(t) && |s| == |t|
    ensures s == t
  {
    forall i | 0 <= i < |s| ensures s[i] == t[i] {
      LcgRunValues(s, i);
      LcgRunValues(t, i);
    }
  }

  /** The caller's `Vec<i64>`. */
  class Vec {
    var elems: seq<Int64>

    constructor (init: seq<Int64>)
      ensures elems == init
    {
      elems := init;
    }

    /** `Vec::resize(n, value)`: keep the first n elements, or append copies
        of value up to length n. */
    method Resize(n: nat, value: Int64)
      modifies this
      ensures |elems| == n
      ensures forall i :: 0 <= i < n && i < |old(elems)| ==> elems[i] == old(elems)[i]
      ensures forall i :: |old(elems)| <= i < n ==> elems[i] == value
    {
      if n <= |elems| {
        elems := elems[..n];
      } else {
        elems := elems + seq(n - |elems|, _ => value);
      }
    }
  }

  /** `make_random_vec(x, n)`: resize x to n and fill it with the generator's
      values from 0. With n == 0 the resize empties x and the store to x[0]
      panics. */
  method MakeRandomVec(x: Vec, n: nat) returns (panicked: bool)
    modifies x
    ensures panicked <==> n == 0
    ensures panicked ==> x.elems == []
    ensures !panicked ==> |x.elems| == n && IsLcgRun(x.elems)
    ensures forall i :: 0 <= i < |x.elems| ==> x.elems[i] == RandomValue(i)
  {
    x.Resize(n, 0);
    if |x.elems| == 0 {
      return true;
    }
    x.elems := x.elems[0 := 0];
    for i := 1 to |x.elems|
      invariant |x.elems| == n
      invariant forall k :: 0 <= k < i ==> x.elems[k] == RandomValue(k)
    {
      var next := LcgStep(x.elems[i - 1]);
      assert next == RandomValue(i);
      x.elems := x.elems[i := next];
    }
    panicked := false;
  }
}
