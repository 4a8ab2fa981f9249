/**
 * `np.unique(xs, return_counts=True)` over surface ids, as the scripts use it:
 * the trapped-ray test of the quadrant sweep (`any(counts > k)`) and the
 * last-surface histograms of the two single-run scripts.
 */
module Histogram {
  import opened Scenes

  /** Number of occurrences of `x` in `xs`. */
  function Count(xs: seq<int>, x: int): nat {
    if xs == [] then 0
    else Count(xs[..|xs| - 1], x) + (if xs[|xs| - 1] == x then 1 else 0)
  }

  lemma CountAppend(xs: seq<int>, y: int, x: int)
    ensures Count(xs + [y], x) == Count(xs, x) + (if y == x then 1 else 0)
  {
    assert (xs + [y])[..|xs|] == xs;
  }

  lemma {:induction false} CountAbsent(xs: seq<int>, x: int)
    requires x !in xs
    ensures Count(xs, x) == 0
  {
    if xs != [] {
      assert forall k :: 0 <= k < |xs| - 1 ==> xs[..|xs| - 1][k] == xs[k];
      CountAbsent(xs[..|xs| - 1], x);
    }
  }

  lemma {:induction false} CountPresent(xs: seq<int>, x: int)
    requires x in xs
    ensures Count(xs, x) > 0
  {
    if xs[|xs| - 1] != x {
      var k :| 0 <= k < |xs| && xs[k] == x;
      assert xs[..|xs| - 1][k] == x;
      CountPresent(xs[..|xs| - 1], x);
    }
  }

  /** One entry of the result of `np.unique`: a value and how often it occurs. */
  datatype Bin = Bin(id: int, count: nat)

  predicate StrictlySorted(bins: seq<Bin>) {
    forall i, j :: 0 <= i < j < |bins| ==> bins[i].id < bins[j].id
  }

  function SumCounts(bins: seq<Bin>): nat {
    if bins == [] then 0 else bins[0].count + SumCounts(bins[1..])
  }

  /** The count stored for `y` in a list of bins, 0 when `y` has no bin. */
  function CountIn(bins: seq<Bin>, y: int): nat {
    if bins == [] then 0 else (if bins[0].id == y then bins[0].count else 0) + CountIn(bins[1..], y)
  }

  predicate PositiveCounts(bins: seq<Bin>) {
    forall k :: 0 <= k < |bins| ==> bins[k].count > 0
  }

  /** Adds one occurrence of `x` to a sorted list of bins. */
  function Insert(bins: seq<Bin>, x: int): (r: seq<Bin>)
    requires StrictlySorted(bins)
    ensures StrictlySorted(r)
    ensures r != [] && (r[0].id == x || (bins != [] && r[0].id == bins[0].id))
    ensures SumCounts(r) == SumCounts(bins) + 1
    ensures PositiveCounts(bins) ==> PositiveCounts(r)
    ensures forall y :: CountIn(r, y) == CountIn(bins, y) + (if y == x then 1 else 0)
    decreases |bins|
  {
    if bins == [] then [Bin(x, 1)]
    else if x < bins[0].id then
      CountInBelow(bins, x);
      [Bin(x, 1)] + bins
    else if x == bins[0].id then
      assert ([Bin(x, bins[0].count + 1)] + bins[1..])[1..] == bins[1..];
      [Bin(x, bins[0].count + 1)] + bins[1..]
    else
      var rest := Insert(bins[1..], x);
      assert ([bins[0]] + rest)[1..] == rest;
      [bins[0]] + rest
  }

  /** A value below the smallest bin has no bin. */
  lemma CountInBelow(bins: seq<Bin>, y: int)
    requires StrictlySorted(bins) && bins != [] && y < bins[0].id
    ensures CountIn(bins, y) == 0
  {
    CountInAbsent(bins, y);
  }

  /** `np.unique(xs, return_counts=True)`. */
  function Unique(xs: seq<int>): (r: seq<Bin>)
    ensures StrictlySorted(r) && PositiveCounts(r)
    ensures SumCounts(r) == |xs|
    ensures forall y :: CountIn(r, y) == Count(xs, y)
  {
    if xs == [] then []
    else
      var init := xs[..|xs| - 1];
      assert xs == init + [xs[|xs| - 1]];
      Insert(Unique(init), xs[|xs| - 1])
  }

  lemma {:induction false} CountInAbsent(bins: seq<Bin>, y: int)
    requires forall k :: 0 <= k < |bins| ==> bins[k].id != y
    ensures CountIn(bins, y) == 0
  {
    if bins != [] {
      CountInAbsent(bins[1..], y);
    }
  }

  lemma {:induction false} CountInAt(bins: seq<Bin>, k: nat)
    requires StrictlySorted(bins) && k < |bins|
    ensures CountIn(bins, bins[k].id) == bins[k].count
  {
    if k == 0 {
      CountInAbsent(bins[1..], bins[0].id);
    } else {
      CountInAt(bins[1..], k - 1);
    }
  }

  /** Every bin of `np.unique` holds a value of `xs` with its number of occurrences, and every value has a bin. */
  lemma UniqueBins(xs: seq<int>)
    ensures forall k :: 0 <= k < |Unique(xs)| ==>
              Unique(xs)[k].id in xs && Unique(xs)[k].count == Count(xs, Unique(xs)[k].id)
    ensures forall x :: x in xs ==> exists k :: 0 <= k < |Unique(xs)| && Unique(xs)[k].id == x
  {
    var bins := Unique(xs);
    forall k | 0 <= k < |bins|
      ensures bins[k].id in xs && bins[k].count == Count(xs, bins[k].id)
    {
      CountInAt(bins, k);
      if bins[k].id !in xs { CountAbsent(xs, bins[k].id); }
    }
    forall x | x in xs
      ensures exists k :: 0 <= k < |bins| && bins[k].id == x
    {
      CountPresent(xs, x);
      if forall k :: 0 <= k < |bins| ==> bins[k].id != x {
        CountInAbsent(bins, x);
      }
    }
  }

  /** `any(counts > k)`. */
  function AnyCountAbove(bins: seq<Bin>, k: nat): bool {
    exists i :: 0 <= i < |bins| && bins[i].count > k
  }

  /** Some value of `xs` occurs more than `k` times. */
  ghost predicate SomeValueAbove(xs: seq<int>, k: nat) {
    exists x :: x in xs && Count(xs, x) > k
  }

  /** The trapped-ray test on the counts of `np.unique` holds exactly when some value occurs more than `k` times. */
  lemma UniqueCountAbove(xs: seq<int>, k: nat)
    ensures AnyCountAbove(Unique(xs), k) <==> SomeValueAbove(xs, k)
  {
    var bins := Unique(xs);
    UniqueBins(xs);
    if SomeValueAbove(xs, k) {
      var x :| x in xs && Count(xs, x) > k;
      var i :| 0 <= i < |bins| && bins[i].id == x;
      assert bins[i].count > k;
    }
  }

  // ---------------------------------------------------------------------------
  // Relabelling and fractions
  // ---------------------------------------------------------------------------

  /**
   * `surf_ids[surf_ids.index(from)] = to` on the bins of `np.unique`: the bin
   * keeps its place and count. This renames every bin carrying `from`, where
   * `index` renames only the first; the two agree on `np.unique` output,
   * whose ids are distinct.
   */
  function Relabel(bins: seq<Bin>, from: int, to: int): seq<Bin> {
    if bins == [] then []
    else [if bins[0].id == from then Bin(to, bins[0].count) else bins[0]] + Relabel(bins[1..], from, to)
  }

  /** Relabelling moves the count of `from` onto `to` and keeps every other count and the total. */
  lemma {:induction false} RelabelCounts(bins: seq<Bin>, from: int, to: int)
    requires from != to
    ensures |Relabel(bins, from, to)| == |bins|
    ensures SumCounts(Relabel(bins, from, to)) == SumCounts(bins)
    ensures forall y :: CountIn(Relabel(bins, from, to), y) ==
              if y == from then 0
              else if y == to then CountIn(bins, to) + CountIn(bins, from)
              else CountIn(bins, y)
  {
    if bins != [] {
      RelabelCounts(bins[1..], from, to);
      assert Relabel(bins, from, to)[1..] == Relabel(bins[1..], from, to);
    }
  }

  /** Relabelling an id that no bin carries leaves the bins as they are. */
  lemma {:induction false} RelabelAbsent(bins: seq<Bin>, from: int, to: int)
    requires forall k :: 0 <= k < |bins| ==> bins[k].id != from
    ensures Relabel(bins, from, to) == bins
  {
    if bins != [] {
      assert bins[0].id != from;
      RelabelAbsent(bins[1..], from, to);
    }
  }

  /** `ids[ids == from] = to` on a list of values. */
  function ReplaceAll(xs: seq<int>, from: int, to: int): seq<int> {
    if xs == [] then []
    else ReplaceAll(xs[..|xs| - 1], from, to) + [if xs[|xs| - 1] == from then to else xs[|xs| - 1]]
  }

  /** Replacing moves the occurrences of `from` onto `to` and keeps every other count and the length. */
  lemma {:induction false} ReplaceAllCounts(xs: seq<int>, from: int, to: int)
    requires from != to
    ensures |ReplaceAll(xs, from, to)| == |xs|
    ensures forall y :: Count(ReplaceAll(xs, from, to), y) ==
              if y == from then 0
              else if y == to then Count(xs, to) + Count(xs, from)
              else Count(xs, y)
  {
    if xs != [] {
      var n := |xs| - 1;
      ReplaceAllCounts(xs[..n], from, to);
      forall y
        ensures Count(ReplaceAll(xs, from, to), y) ==
                  Count(ReplaceAll(xs[..n], from, to), y) + (if (if xs[n] == from then to else xs[n]) == y then 1 else 0)
      {
        CountAppend(ReplaceAll(xs[..n], from, to), if xs[n] == from then to else xs[n], y);
      }
    }
  }

  /**
   * Renaming the bins after `np.unique` and renaming the values before it
   * give every value the same count.
   */
  lemma RelabelCommutes(xs: seq<int>, from: int, to: int)
    requires from != to
    ensures forall y :: CountIn(Relabel(Unique(xs), from, to), y) == CountIn(Unique(ReplaceAll(xs, from, to)), y)
  {
    RelabelCounts(Unique(xs), from, to);
    ReplaceAllCounts(xs, from, to);
  }

  /** `counts / N_rays`, bin by bin. */
  function Fractions(bins: seq<Bin>, n: nat): seq<real>
    requires n > 0
  {
    if bins == [] then [] else [bins[0].count as real / n as real] + Fractions(bins[1..], n)
  }

  function SumReals(xs: seq<real>): real {
    if xs == [] then 0.0 else xs[0] + SumReals(xs[1..])
  }

  /** The fractions add up to the total count over `n`. */
  lemma {:induction false} FractionsSum(bins: seq<Bin>, n: nat)
    requires n > 0
    ensures |Fractions(bins, n)| == |bins|
    ensures SumReals(Fractions(bins, n)) == SumCounts(bins) as real / n as real
  {
    if bins != [] {
      FractionsSum(bins[1..], n);
      assert Fractions(bins, n)[1..] == Fractions(bins[1..], n);
      DivAdd(bins[0].count as real, SumCounts(bins[1..]) as real, n as real);
    }
  }

  lemma DivAdd(a: real, b: real, d: real)
    requires d != 0.0
    ensures a / d + b / d == (a + b) / d
  {
    var p, q := a / d, b / d;
    assert p * d == a && q * d == b;
    assert (p + q) * d == a + b;
  }

  /** When the bins count every one of the `n` rays, the fractions add up to one. */
  lemma FractionsTotal(bins: seq<Bin>, n: nat)
    requires n > 0 && SumCounts(bins) == n
    ensures SumReals(Fractions(bins, n)) == 1.0
  {
    FractionsSum(bins, n);
    assert (n as real) / (n as real) == 1.0;
  }

  /**
   * `[mesh_id_to_name[id] for id in surf_ids]`: the tick labels, or None for
   * the KeyError raised by the first id the table does not hold.
   */
  function Labels(table: map<int, string>, bins: seq<Bin>): Option<seq<string>> {
    if bins == [] then Some([])
    else if bins[0].id !in table then None
    else
      var rest := Labels(table, bins[1..]);
      if rest.None? then None else Some([table[bins[0].id]] + rest.value)
  }

  /** The labels exist exactly when every bin's id is in the table, and then each is its bin's name. */
  lemma {:induction false} LabelsDefined(table: map<int, string>, bins: seq<Bin>)
    ensures Labels(table, bins).Some? <==> forall k :: 0 <= k < |bins| ==> bins[k].id in table
    ensures Labels(table, bins).Some? ==>
              |Labels(table, bins).value| == |bins| &&
              forall k :: 0 <= k < |bins| ==> Labels(table, bins).value[k] == table[bins[k].id]
  {
    if bins != [] {
      LabelsDefined(table, bins[1..]);
      assert forall k :: 1 <= k < |bins| ==> bins[k] == bins[1..][k - 1];
    }
  }
}
