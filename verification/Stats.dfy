/** The running statistics of stats.c: samples are summed in batches, and each flush folds a batch
    into an integer average.  Sums are unsigned 64-bit numbers, samples are signed 32-bit ones. */
module Stats {

  const UINT64 := 0x1_0000_0000_0000_0000
  const INT64_MAX := 0x7fff_ffff_ffff_ffff
  const INT32_MAX := 0x7fff_ffff

  type Sample = n: int | -0x8000_0000 <= n <= 0x7fff_ffff

  // ----- Machine arithmetic -----

  /** Conversion to an unsigned 64-bit number. */
  function ToU64(n: int): (u: nat)
    ensures u < UINT64
  {
    n % UINT64
  }

  /** Conversion of an unsigned 64-bit number to a signed one. */
  function FromU64(u: nat): int {
    if u <= INT64_MAX then u else u - UINT64
  }

  function Plus64(a: nat, b: nat): (u: nat)
    ensures u < UINT64
  {
    (a + b) % UINT64
  }

  lemma ToU64Exact(n: int)
    requires -INT64_MAX <= n <= INT64_MAX
    ensures ToU64(n) == if n >= 0 then n else n + UINT64
  {
  }

  lemma Plus64Is(a: int, b: int)
    ensures Plus64(ToU64(a), ToU64(b)) == ToU64(a + b)
  {
  }

  function Times(a: int, b: int): int { a * b }

  /** The average a flush computes from the sum it sees. */
  function Fold(total: int, count: nat): int
    requires count > 0
  {
    FromU64(ToU64(total) / count)
  }

  /** `a` is the quotient of `total` and `count`, rounded down. */
  ghost predicate IsFloor(a: int, total: int, count: nat) {
    Times(a, count) <= total < Times(a + 1, count)
  }

  lemma TimesSum(a: int, b: int, n: int)
    ensures Times(a + b, n) == Times(a, n) + Times(b, n)
  {
  }

  lemma TimesGrows(a: nat, n: nat, m: nat)
    ensures Times(a, n) <= Times(a, n + m) && 0 <= Times(a, n)
  {
  }

  lemma QuotientIsFloor(total: nat, count: nat)
    requires count > 0
    ensures IsFloor(total / count, total, count) && 0 <= total / count <= total
  {
    var q, r := total / count, total % count;
    assert total == q * count + r;
    TimesSum(q, 1, count);
    TimesOne(count);
    TimesOne(q);
    TimesCommutes(1, q);
    TimesGrows(q, 1, count - 1);
  }

  lemma TimesCommutes(a: int, b: int)
    ensures Times(a, b) == Times(b, a)
  {
  }

  lemma FloorSign(a: int, total: int, count: nat)
    requires a >= 0 && total < 0
    ensures !IsFloor(a, total, count)
  {
    TimesGrows(a, count, 0);
  }

  lemma HalfOf(u: nat, count: nat)
    requires count >= 2 && u < UINT64
    ensures u / count <= INT64_MAX
  {
    QuotientIsFloor(u, count);
    var q := u / count;
    TimesGrows(q, 2, count - 2);
  }

  /** A flush rounds down correctly if and only if the sum it sees is not negative or stems from a
      single sample; otherwise it rounds down the sum plus 2^64. */
  lemma FoldIsFloorIff(total: int, count: nat)
    requires -INT64_MAX <= total <= INT64_MAX && count > 0
    ensures IsFloor(Fold(total, count), total, count) <==> total >= 0 || count == 1
    ensures total < 0 && count > 1 ==> IsFloor(Fold(total, count), total + 0x1_0000_0000_0000_0000, count)
    ensures total >= 0 ==> Fold(total, count) >= 0
  {
    hide IsFloor, ToU64;
    ToU64Exact(total);
    QuotientIsFloor(ToU64(total), count);
    if total < 0 && count >= 2 {
      HalfOf(ToU64(total), count);
      FloorSign(Fold(total, count), total, count);
    } else if total < 0 {
      FloorOfOne(total);
    }
  }

  lemma FloorOfOne(total: int)
    ensures IsFloor(total, total, 1)
  {
  }

  // ----- Sums -----

  ghost function Sum(s: seq<Sample>): int {
    if s == [] then 0 else Sum(s[..|s| - 1]) + s[|s| - 1]
  }

  ghost predicate Nonnegative(s: seq<Sample>) {
    forall i :: 0 <= i < |s| ==> s[i] >= 0
  }

  lemma SumEmpty()
    ensures Sum([]) == 0
  {
  }

  lemma SumNext(s: seq<Sample>, v: Sample)
    ensures Sum(s + [v]) == Sum(s) + v
  {
    assert (s + [v])[..|s|] == s;
  }

  lemma {:induction false} SumConcat(a: seq<Sample>, b: seq<Sample>)
    ensures Sum(a + b) == Sum(a) + Sum(b)
    decreases |b|
  {
    if b == [] {
      assert a + b == a;
    } else {
      var last := |b| - 1;
      assert (a + b)[..|a| + last] == a + b[..last];
      SumConcat(a, b[..last]);
    }
  }

  lemma {:induction false} SumBound(s: seq<Sample>)
    requires Nonnegative(s)
    ensures 0 <= Sum(s) <= |s| * INT32_MAX
  {
    if s != [] {
      SumBound(s[..|s| - 1]);
    }
  }

  lemma SumFits(s: seq<Sample>)
    requires Nonnegative(s) && |s| <= INT32_MAX
    ensures 0 <= Sum(s) <= INT64_MAX - INT32_MAX
  {
    SumBound(s);
  }

  // ----- How far the average lags -----

  /** How far an average of `n` samples with sum `sum` may lag after `k` flushes. */
  ghost predicate Lags(average: int, n: nat, sum: int, k: nat) {
    && average >= 0
    && Times(average, n) <= sum
    && (k > 0 ==> n > 0 && sum < Times(average + k, n))
    && (k == 0 ==> n == 0 && sum == 0 && average == 0)
  }

  /** One more flush: the average is still at most the mean and lags by less than one more. */
  lemma FlushLags(average: int, n: nat, sum: int, k: nat, batch: int, m: nat, next: int)
    requires Lags(average, n, sum, k) && m > 0 && next >= 0
    requires IsFloor(next, Times(average, n) + batch, n + m)
    ensures Lags(next, n + m, sum + batch, k + 1)
  {
    hide Times;
    TimesSum(average, k, n);
    TimesGrows(k, n, m);
    TimesSum(next + 1, k, n + m);
    assert next + 1 + k == next + (k + 1);
    if k == 0 {
      TimesZero(n + m);
      TimesZero(n);
      TimesSum(average, 0, n);
    }
  }

  lemma TimesZero(n: int)
    ensures Times(0, n) == 0
  {
  }

  /** With batches of one size `m` the lag stays below half of the number of flushes plus one. */
  ghost predicate LagsHalf(average: int, n: nat, sum: int, k: nat, m: nat) {
    && n == Times(m, k)
    && 2 * (sum - Times(average, n)) <= Times(n, k + 1)
    && (k > 0 ==> 2 * (sum - Times(average, n)) < Times(n, k + 1))
  }

  lemma FlushLagsHalf(average: int, n: nat, sum: int, k: nat, batch: int, m: nat, next: int)
    requires LagsHalf(average, n, sum, k, m) && m > 0
    requires IsFloor(next, Times(average, n) + batch, n + m)
    ensures LagsHalf(next, n + m, sum + batch, k + 1, m)
  {
    hide Times;
    Triangle(m, k);
    TimesSum(next, 1, n + m);
    TimesOne(n + m);
  }

  lemma Triangle(m: int, k: int)
    ensures Times(m, k) + m == Times(m, k + 1)
    ensures Times(Times(m, k), k + 1) + 2 * Times(m, k + 1) == Times(Times(m, k + 1), k + 2)
  {
    assert m * k * (k + 1) + 2 * (m * (k + 1)) == m * (k + 1) * (k + 2);
  }

  lemma TimesOne(n: int)
    ensures Times(1, n) == n
  {
  }

  /** The lag against the true mean. */
  lemma MeanBounds(average: int, n: nat, sum: int, k: nat)
    requires Lags(average, n, sum, k) && k > 0
    ensures average as real <= sum as real / n as real < (average + k) as real
  {
    var mean := sum as real / n as real;
    assert mean * n as real == sum as real;
    assert (average * n) as real == average as real * n as real;
    assert ((average + k) * n) as real == (average + k) as real * n as real;
  }

  /** The halved lag against the true mean. */
  lemma HalfMeanBounds(average: int, n: nat, sum: int, k: nat, m: nat)
    requires LagsHalf(average, n, sum, k, m) && k > 0 && n > 0
    ensures sum as real / n as real - average as real < (k + 1) as real / 2.0
  {
    var mean := sum as real / n as real;
    assert mean * n as real == sum as real;
    assert 2 * sum < (2 * average + k + 1) * n;
    assert ((2 * average + k + 1) * n) as real == (2 * average + k + 1) as real * n as real;
    assert 2.0 * mean * n as real < (2 * average + k + 1) as real * n as real;
    assert 2.0 * mean < (2 * average + k + 1) as real;
  }

  // ----- Minimum and maximum -----

  /** The least of the samples as unsigned numbers. */
  ghost predicate IsMin(min: nat, s: seq<Sample>) {
    if s == [] then min == UINT64 - 1
    else (exists i :: 0 <= i < |s| && min == ToU64(s[i])) && forall i :: 0 <= i < |s| ==> min <= ToU64(s[i])
  }

  /** The greatest of the samples as unsigned numbers. */
  ghost predicate IsMax(max: nat, s: seq<Sample>) {
    if s == [] then max == 0
    else (exists i :: 0 <= i < |s| && max == ToU64(s[i])) && forall i :: 0 <= i < |s| ==> ToU64(s[i]) <= max
  }

  lemma Extremes(min: nat, max: nat, s: seq<Sample>, v: Sample)
    requires IsMin(min, s) && IsMax(max, s)
    ensures IsMin(if min > ToU64(v) then ToU64(v) else min, s + [v])
    ensures IsMax(if max < ToU64(v) then ToU64(v) else max, s + [v])
  {
    hide ToU64;
    var t := s + [v];
    assert t[|s|] == v && forall i :: 0 <= i < |s| ==> t[i] == s[i];
    if s != [] {
      var i :| 0 <= i < |s| && min == ToU64(s[i]);
      var j :| 0 <= j < |s| && max == ToU64(s[j]);
      assert t[i] == s[i] && t[j] == s[j];
    }
  }

  class Stats {
    var min: nat
    var max: nat
    var average: int
    var nrSamples: nat
    var batch: nat
    var nrBatch: nat
    var maxBatch: int

    /** Every sample added, and the number of flushes that folded in at least one. */
    ghost var samples: seq<Sample>
    ghost var flushes: nat

    /** The batch holds the wrapped sum of what is not in the average yet.  For nonnegative samples the
        average lags its mean by less than the number of flushes. */
    ghost predicate Counts()
      reads this
    {
      && nrSamples + nrBatch == |samples| <= INT32_MAX
      && batch == ToU64(Sum(samples[nrSamples..]))
      && (Nonnegative(samples) ==> Lags(average, nrSamples, Sum(samples[..nrSamples]), flushes))
    }

    ghost predicate Valid()
      reads this
    {
      Counts() && IsMin(min, samples) && IsMax(max, samples)
    }

    /** The default batch size, and every flush so far made by an add. */
    ghost predicate Uniform()
      reads this
    {
      && maxBatch == 32 && nrBatch <= 31 && nrSamples <= |samples|
      && LagsHalf(average, nrSamples, Sum(samples[..nrSamples]), flushes, 31)
    }

    /** The sum a flush folds into the average. */
    ghost function Total(): int
      requires nrSamples <= |samples|
      reads this
    {
      Times(average, nrSamples) + Sum(samples[nrSamples..])
    }

    /** `stats_init`. */
    constructor ()
      ensures Valid() && Uniform() && samples == [] && flushes == 0 && maxBatch == 32
    {
      min, max, average, nrSamples, batch, nrBatch := UINT64 - 1, 0, 0, 0, 0, 0;
      maxBatch := 32;
      samples, flushes := [], 0;
    }

    /** For nonnegative samples a flush stays inside 64 bits. */
    lemma NoOverflow()
      requires Counts() && Nonnegative(samples)
      ensures 0 <= Total() <= INT64_MAX && 0 <= Sum(samples[nrSamples..]) <= INT64_MAX - INT32_MAX
    {
      hide Sum;
      assert samples == samples[..nrSamples] + samples[nrSamples..];
      SumConcat(samples[..nrSamples], samples[nrSamples..]);
      SumFits(samples);
      SumFits(samples[..nrSamples]);
      SumFits(samples[nrSamples..]);
      TimesNonnegative(average, nrSamples);
    }

    /** `flush_batch`, for any samples. */
    method Flush()
      requires Counts()
      modifies this`average, this`nrSamples, this`batch, this`nrBatch, this`flushes
      ensures Counts() && nrBatch == 0 && batch == 0 && nrSamples == |samples|
      ensures flushes == old(flushes) + if old(nrBatch) == 0 then 0 else 1
      ensures old(nrBatch) == 0 ==> average == old(average)
      ensures old(nrBatch) > 0 && -INT64_MAX <= old(Total()) <= INT64_MAX ==>
                (IsFloor(average, old(Total()), nrSamples) <==> old(Total()) >= 0 || nrSamples == 1)
      ensures old(nrBatch) > 0 ==> average == Fold(old(Total()), nrSamples)
      ensures Nonnegative(samples) && old(Uniform()) && (old(nrBatch) == 31 || old(nrBatch) == 0) ==> Uniform()
    {
      hide Lags, LagsHalf, Sum, ToU64, Plus64, Fold, IsFloor, Times;
      SumEmpty();
      ToU64Exact(0);
      assert samples[..|samples|] == samples && samples[|samples|..] == [];
      if nrBatch == 0 {
        return;
      }
      ghost var sum, rest := Sum(samples[..nrSamples]), Sum(samples[nrSamples..]);
      ghost var total := Total();
      var next := NewAverage(average, nrSamples, batch, nrBatch, rest);
      FlushStep(average, nrSamples, sum, flushes, rest, nrBatch, next);
      average := next;
      nrSamples := nrSamples + nrBatch;
      nrBatch, batch := 0, 0;
      flushes := flushes + 1;
    }

    /** What one flush means for the accounts. */
    lemma FlushStep(average: int, n: nat, sum: int, k: nat, rest: int, m: nat, next: int)
      requires Counts() && m == nrBatch > 0 && n == nrSamples && average == this.average && k == flushes
      requires sum == Sum(samples[..nrSamples]) && rest == Sum(samples[nrSamples..])
      requires next == Fold(Total(), n + m)
      ensures sum + rest == Sum(samples)
      ensures -INT64_MAX <= Total() <= INT64_MAX ==> (IsFloor(next, Total(), n + m) <==> Total() >= 0 || n + m == 1)
      ensures Nonnegative(samples) ==> Lags(next, n + m, sum + rest, k + 1)
      ensures Nonnegative(samples) && Uniform() && m == 31 ==> LagsHalf(next, n + m, sum + rest, k + 1, 31)
    {
      hide Lags, LagsHalf, Sum, ToU64, Fold, IsFloor, Times;
      assert samples == samples[..nrSamples] + samples[nrSamples..];
      SumConcat(samples[..nrSamples], samples[nrSamples..]);
      if -INT64_MAX <= Total() <= INT64_MAX {
        FoldIsFloorIff(Total(), n + m);
      }
      if Nonnegative(samples) {
        NoOverflow();
        FlushLags(average, n, sum, k, rest, m, next);
        if Uniform() && m == 31 {
          FlushLagsHalf(average, n, sum, k, rest, 31, next);
        }
      }
    }

    /** `stats_add` for any sample: every sample is counted once, in the batch or in the average; the
        batch is flushed first when the wrapped sum would shrink or the batch is full; for nonnegative
        samples that is exactly when it is full, at 31 samples by default. */
    method Add(value: Sample)
      requires Valid() && |samples| < INT32_MAX
      modifies this
      ensures Valid() && samples == old(samples) + [value] && maxBatch == old(maxBatch)
      ensures nrSamples + nrBatch == old(nrSamples) + old(nrBatch) + 1
      ensures flushes == old(flushes) +
                if old(nrBatch) > 0 && (Plus64(old(batch), ToU64(value)) < old(batch) || old(nrBatch) + 1 == maxBatch)
                then 1 else 0
      ensures flushes == old(flushes) ==> average == old(average) && nrSamples == old(nrSamples)
      ensures Nonnegative(samples) ==>
                flushes == old(flushes) + if old(nrBatch) + 1 == maxBatch && old(nrBatch) > 0 then 1 else 0
      ensures Nonnegative(samples) && old(Uniform()) ==> Uniform()
    {
      hide Lags, LagsHalf, Sum, ToU64, Plus64, Fold, IsFloor, Times, IsMin, IsMax, Nonnegative;
      NonnegativeNext(samples, value);
      if Nonnegative(samples + [value]) {
        BatchGrows(value);
      }
      Extremes(min, max, samples, value);
      min := if min > ToU64(value) then ToU64(value) else min;
      max := if max < ToU64(value) then ToU64(value) else max;
      if Plus64(batch, ToU64(value)) < batch || nrBatch + 1 == maxBatch {
        Flush();
      }
      Record(value);
    }

    lemma BatchGrows(value: Sample)
      requires Counts() && Nonnegative(samples) && value >= 0
      ensures Plus64(batch, ToU64(value)) >= batch
    {
      hide Lags, Sum, Times, ToU64, Plus64;
      NoOverflow();
      ghost var rest := Sum(samples[nrSamples..]);
      ToU64Exact(rest);
      ToU64Exact(rest + value);
      Plus64Is(rest, value);
    }

    /** Add a sample to the current batch. */
    method Record(value: Sample)
      requires Counts() && |samples| < INT32_MAX
      modifies this`batch, this`nrBatch, this`samples
      ensures Counts() && samples == old(samples) + [value] && nrBatch == old(nrBatch) + 1
      ensures old(Uniform()) && old(nrBatch) < 31 ==> Uniform()
    {
      hide Lags, LagsHalf, Sum, Plus64, ToU64, Nonnegative;
      SumNext(samples[nrSamples..], value);
      Plus64Is(Sum(samples[nrSamples..]), value);
      NonnegativeNext(samples, value);
      ghost var more := samples + [value];
      assert more[nrSamples..] == samples[nrSamples..] + [value];
      assert more[..nrSamples] == samples[..nrSamples];
      batch := Plus64(batch, ToU64(value));
      nrBatch := nrBatch + 1;
      samples := more;
    }

    /** `stats_set_max_batch`. */
    method SetMaxBatch(maxBatch: int)
      requires Valid()
      modifies this`maxBatch
      ensures Valid() && this.maxBatch == maxBatch
    {
      this.maxBatch := maxBatch;
    }
  }

  /** Minimum and maximum are those of the samples as unsigned numbers: nonnegative ones as they are,
      negative ones plus 2^64. */
  lemma MinAndMax(s: Stats, i: nat)
    requires s.Valid() && i < |s.samples|
    ensures var v := s.samples[i];
      s.min <= (if v < 0 then v + 0x1_0000_0000_0000_0000 else v) <= s.max
    ensures exists j :: 0 <= j < |s.samples| && s.min == ToU64(s.samples[j])
    ensures exists j :: 0 <= j < |s.samples| && s.max == ToU64(s.samples[j])
  {
    hide Sum, Lags, ToU64;
    ToU64Exact(s.samples[i]);
  }

  lemma TimesNonnegative(a: int, n: nat)
    ensures a >= 0 ==> Times(a, n) >= 0
  {
  }

  lemma NonnegativeNext(s: seq<Sample>, v: Sample)
    ensures Nonnegative(s + [v]) <==> Nonnegative(s) && v >= 0
  {
    assert (s + [v])[|s|] == v;
    if Nonnegative(s + [v]) {
      forall i | 0 <= i < |s|
        ensures s[i] >= 0
      {
        assert s[i] == (s + [v])[i];
      }
    }
  }

  /** The quotient as the source computes it, which is that of the unwrapped sum. */
  method NewAverage(average: int, nrSamples: nat, batch: nat, nrBatch: nat, ghost rest: int) returns (next: int)
    requires nrBatch > 0 && batch == ToU64(rest)
    ensures next == Fold(Times(average, nrSamples) + rest, nrSamples + nrBatch)
  {
    hide ToU64, Plus64;
    if nrSamples == 0 {
      assert Times(average, nrSamples) == 0;
      next := FromU64(batch / nrBatch);
    } else {
      Plus64Is(average * nrSamples, rest);
      next := FromU64(Plus64(ToU64(average * nrSamples), batch) / (nrSamples + nrBatch));
    }
  }

  /** Negative sums do break the average: after -1 and 0 the mean is -0.5, the average the largest
      64-bit number. */
  method NegativeBreaksAverage() returns (s: Stats)
    ensures s.Valid() && s.samples == [-1, 0] && s.nrSamples == 2 && s.average == INT64_MAX
  {
    hide Lags, LagsHalf, Sum, Plus64, ToU64, Fold, IsFloor, IsMin, IsMax, Nonnegative;
    SumEmpty();
    SumNext([], -1);
    SumNext([-1], 0);
    s := new Stats();
    s.Add(-1);
    assert s.samples == [-1] && s.samples[0..] == [-1];
    Plus64Is(-1, 0);
    s.Add(0);
    assert s.samples == [-1, 0] && s.samples[0..] == [-1, 0] == [-1] + [0];
    assert s.Total() == -1;
    FoldOfMinusOne();
    s.Flush();
  }

  lemma FoldOfMinusOne()
    ensures Fold(-1, 2) == INT64_MAX
  {
  }
}
