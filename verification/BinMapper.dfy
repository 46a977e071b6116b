/** The numerical BinMapper: binary search for a bin, the bin's bound back, and the alignment check. */
module BinMapper {
  import opened Doubles

  /** MissingType. */
  datatype MissingType = NoMissing | ZeroMissing | NanMissing

  /** A numerical mapper: one upper bound per bin; with NaN missing type the last bin holds the NaNs. */
  datatype Mapper = Mapper(bounds: seq<Double>, missing: MissingType) {

    /** The bounds the search compares with: all but the last number bin's. */
    function Searchable(): (n: int)
      ensures n == |bounds| - 1 || n == |bounds| - 2
    {
      if missing.NanMissing? then |bounds| - 2 else |bounds| - 1
    }
  }

  const ZERO_VALUE := Finite(0.0)

  /** The first `n` bounds are numbers, and ascending. */
  ghost predicate AscendingBounds(bounds: seq<Double>, n: int) {
    && n <= |bounds|
    && (forall i {:trigger bounds[i]} | 0 <= i < n :: !bounds[i].NaN?)
    && (forall i, j {:trigger bounds[i], bounds[j]} | 0 <= i < j < n :: Lt(bounds[i], bounds[j]))
  }

  ghost predicate Valid(m: Mapper) {
    |m.bounds| >= 1 && AscendingBounds(m.bounds, m.Searchable())
  }

  /** How many of the first `n` bounds lie below `v`: what a linear scan would count. */
  function BoundsBelow(bounds: seq<Double>, n: int, v: Double): (r: nat)
    requires n <= |bounds|
    ensures n >= 0 ==> r <= n
    ensures n <= 0 ==> r == 0
    decreases if n > 0 then n else 0
  {
    if n <= 0 then 0 else BoundsBelow(bounds, n - 1, v) + if Lt(bounds[n - 1], v) then 1 else 0
  }

  /** The bin of a value. */
  function BinOf(m: Mapper, value: Double): (bin: nat)
    requires Valid(m)
    ensures bin < |m.bounds|
  {
    if value.NaN? && m.missing.NanMissing? then |m.bounds| - 1
    else BoundsBelow(m.bounds, m.Searchable(), if value.NaN? then ZERO_VALUE else value)
  }

  // ---------------------------------------------------------------- the search

  /** Ascending bounds: the ones below `v` come first. */
  lemma {:induction false} BelowIs(bounds: seq<Double>, n: int, v: Double, k: nat)
    requires AscendingBounds(bounds, n) && !v.NaN? && k <= n
    requires k > 0 ==> Lt(bounds[k - 1], v)
    requires k < n ==> Le(v, bounds[k])
    ensures BoundsBelow(bounds, n, v) == k
  {
    if n > k {
      BelowIs(bounds, n - 1, v, k);
    } else if n > 0 {
      BelowAll(bounds, n, v);
    }
  }

  lemma {:induction false} BelowAll(bounds: seq<Double>, n: nat, v: Double)
    requires AscendingBounds(bounds, n) && !v.NaN? && n > 0 && Lt(bounds[n - 1], v)
    ensures BoundsBelow(bounds, n, v) == n
  {
    if n > 1 {
      assert Lt(bounds[n - 2], bounds[n - 1]);
      BelowAll(bounds, n - 1, v);
    }
  }

  /** BinMapper::ValueToBin. */
  method ValueToBin(m: Mapper, value: Double) returns (bin: nat)
    requires Valid(m)
    ensures bin == BinOf(m, value)
  {
    var v := value;
    if value.NaN? {
      if m.missing.NanMissing? {
        return |m.bounds| - 1;
      }
      v := ZERO_VALUE;
    }
    var l: nat, r: int := 0, |m.bounds| - 1;
    if m.missing.NanMissing? {
      r := r - 1;
    }
    while l < r
      invariant 0 <= l <= (if r < 0 then 0 else r) && r <= m.Searchable()
      invariant r < 0 ==> r == m.Searchable()
      invariant l > 0 ==> Lt(m.bounds[l - 1], v)
      invariant 0 <= r < m.Searchable() ==> Le(v, m.bounds[r])
      decreases r - l
    {
      var mid := (r + l - 1) / 2;
      if Le(v, m.bounds[mid]) {
        r := mid;
      } else {
        l := mid + 1;
      }
    }
    if r >= 0 {
      BelowIs(m.bounds, m.Searchable(), v, l);
    }
    bin := l;
  }

  // ---------------------------------------------------------------- what a bin means

  /** Bin `k` holds exactly the numbers above the bound before it and up to its own. */
  lemma BinInterval(m: Mapper, v: Double, k: nat)
    requires Valid(m) && !v.NaN? && m.Searchable() >= 0 && k <= m.Searchable()
    ensures BinOf(m, v) == k <==> (k > 0 ==> Lt(m.bounds[k - 1], v)) && (k < m.Searchable() ==> Le(v, m.bounds[k]))
  {
    var n := m.Searchable();
    var bin := BinOf(m, v);
    if (k > 0 ==> Lt(m.bounds[k - 1], v)) && (k < n ==> Le(v, m.bounds[k])) {
      BelowIs(m.bounds, n, v, k);
    }
    BelowBounds(m.bounds, n, v);
  }

  lemma {:induction false} BelowBounds(bounds: seq<Double>, n: nat, v: Double)
    requires AscendingBounds(bounds, n) && !v.NaN?
    ensures var k := BoundsBelow(bounds, n, v);
            (k > 0 ==> Lt(bounds[k - 1], v)) && (k < n ==> Le(v, bounds[k]))
  {
    if n > 0 {
      BelowBounds(bounds, n - 1, v);
      if Lt(bounds[n - 1], v) {
        BelowAll(bounds, n, v);
      }
    }
  }

  /** Larger numbers never get smaller bins. */
  lemma {:induction false} BelowMonotone(bounds: seq<Double>, n: int, v: Double, w: Double)
    requires n <= |bounds| && Le(v, w)
    ensures BoundsBelow(bounds, n, v) <= BoundsBelow(bounds, n, w)
    decreases if n > 0 then n else 0
  {
    if n > 0 {
      BelowMonotone(bounds, n - 1, v, w);
    }
  }

  lemma BinMonotone(m: Mapper, v: Double, w: Double)
    requires Valid(m) && Le(v, w)
    ensures BinOf(m, v) <= BinOf(m, w)
  {
    BelowMonotone(m.bounds, m.Searchable(), v, w);
  }

  function BinToValue(m: Mapper, bin: nat): Double
    requires bin < |m.bounds|
  {
    m.bounds[bin]
  }

  /** BinToValue picks a value of the bin: for every number bin of ascending bounds, but never for the NaN bin beside
      number bins, whatever number stands as its bound. */
  lemma BinRoundTripIff(m: Mapper, bin: nat)
    requires Valid(m) && bin < |m.bounds| && m.Searchable() >= 0
    requires AscendingBounds(m.bounds, m.Searchable() + 1) && !m.bounds[|m.bounds| - 1].NaN?
    ensures BinOf(m, BinToValue(m, bin)) == bin <==> !(m.missing.NanMissing? && bin == |m.bounds| - 1)
  {
    var v := m.bounds[bin];
    if bin <= m.Searchable() {
      BinInterval(m, v, bin);
    }
  }

  /** The value of a bin below the last number bin is the largest number of that bin. */
  lemma BinToValueLargest(m: Mapper, bin: nat, v: Double)
    requires Valid(m) && bin < m.Searchable()
    ensures BinOf(m, BinToValue(m, bin)) == bin
    ensures !v.NaN? && BinOf(m, v) == bin ==> Le(v, BinToValue(m, bin))
  {
    BinInterval(m, m.bounds[bin], bin);
    if !v.NaN? {
      BinInterval(m, v, bin);
    }
  }

  /** A NaN goes to the last bin with NaN missing type, and to the bin of 0.0 otherwise. */
  lemma NanIsBinned(m: Mapper)
    requires Valid(m)
    ensures BinOf(m, NaN) == if m.missing == NanMissing then |m.bounds| - 1 else BinOf(m, Finite(0.0))
  {
  }

  /** With NaN missing type no number reaches the NaN bin, exactly when there is another bin. */
  lemma NumbersMissNanBinIff(m: Mapper)
    requires Valid(m) && m.missing.NanMissing?
    ensures (forall v: Double :: !v.NaN? ==> BinOf(m, v) != |m.bounds| - 1) <==> |m.bounds| >= 2
  {
    if |m.bounds| == 1 {
      assert BinOf(m, ZERO_VALUE) == 0;
    }
  }

  // ---------------------------------------------------------------- alignment

  /** BinMapper::CheckAlign on numerical mappers. */
  method CheckAlign(a: Mapper, b: Mapper) returns (ok: bool)
    ensures ok <==> Aligned(a, b)
  {
    if |a.bounds| != |b.bounds| || a.missing != b.missing {
      return false;
    }
    for i := 0 to |a.bounds|
      invariant forall k {:trigger a.bounds[k]} | 0 <= k < i :: Eq(a.bounds[k], b.bounds[k])
    {
      if !Eq(a.bounds[i], b.bounds[i]) {
        return false;
      }
    }
    ok := true;
  }

  ghost predicate Aligned(a: Mapper, b: Mapper) {
    && |a.bounds| == |b.bounds| && a.missing == b.missing
    && forall k {:trigger a.bounds[k]} | 0 <= k < |a.bounds| :: Eq(a.bounds[k], b.bounds[k])
  }

  /** Aligned mappers bin every value alike. */
  lemma AlignedBinAlike(a: Mapper, b: Mapper, value: Double)
    requires Aligned(a, b) && Valid(a)
    ensures Valid(b) && BinOf(a, value) == BinOf(b, value)
  {
    assert a.bounds == b.bounds;
  }

  /** A mapper is aligned with itself exactly when no bound is NaN. */
  lemma SelfAlignedIff(m: Mapper)
    ensures Aligned(m, m) <==> NaN !in m.bounds
  {
  }

  /** FindBin appends the bound of the NaN bin as the enumerator MissingType::NaN, which is the number 2 and not an
      IEEE NaN: so a mapper with ascending number bounds stays aligned with itself. */
  lemma NanBinSelfAligned(bounds: seq<Double>)
    requires AscendingBounds(bounds, |bounds|)
    ensures var m := Mapper(bounds + [Finite(2.0)], NanMissing);
            Valid(m) && Aligned(m, m)
  {
  }
}
