/** The time arithmetic of the resampling (src/data/make_dataset.py, lines 118-129): a
    timestamp is an integer number of milliseconds since the epoch; `resample(rule="200ms")`
    puts it in the 200 ms bin that starts at the largest multiple of 200 not after it, and
    `pd.Grouper(freq="D")` puts it in the calendar day (UTC) that contains it. */
module TimeGrid {

  /** Bin width of `rule="200ms"`. */
  const Width: int := 200

  /** Milliseconds in a calendar day. */
  const DayMs: int := 86400000

  /** Bins per day. */
  const BinsPerDay: int := DayMs / Width

  /** The start of the 200 ms bin of `t`; pandas bins are closed on the left. */
  function Bucket(t: int): (b: int)
    ensures b % Width == 0 && b <= t < b + Width
  {
    t - t % Width
  }

  /** The day of `t`, counted from the epoch. */
  function Day(t: int): (d: int)
    ensures d * DayMs <= t < d * DayMs + DayMs
  {
    t / DayMs
  }

  /** The first millisecond of day `d`. */
  function DayStart(d: int): (t: int)
    ensures t % Width == 0
  {
    d * DayMs
  }

  lemma DayMsInBins()
    ensures DayMs == BinsPerDay * Width
  {
  }

  /** A bin is determined by any timestamp in it: every multiple of 200 at most 199 ms
      before `t` is the bin of `t`. */
  lemma BucketUnique(t: int, b: int)
    requires b % Width == 0 && b <= t < b + Width
    ensures b == Bucket(t)
  {
    var k := b / Width;
    assert b == k * Width;
    var j := Bucket(t) / Width;
    assert Bucket(t) == j * Width;
    assert k * Width <= t < k * Width + Width && j * Width <= t < j * Width + Width;
    assert j - 1 < k < j + 1;
  }

  /** Bins respect time order. */
  lemma BucketMonotone(t: int, u: int)
    requires t <= u
    ensures Bucket(t) <= Bucket(u)
  {
  }

  /** The `m` bins from `lo` are the multiples of 200 from `lo` to `hi`. */
  lemma OnGrid(t: int, lo: int, hi: int, m: int)
    requires lo % Width == 0 && hi % Width == 0 && lo + m * Width == hi + Width
    ensures (lo <= t < lo + m * Width && (t - lo) % Width == 0) <==> (t % Width == 0 && lo <= t <= hi)
  {
  }

  /** Two bin starts are a whole number of bins apart. */
  lemma BinsBetween(lo: int, hi: int) returns (q: nat)
    requires lo % Width == 0 && hi % Width == 0 && lo <= hi
    ensures q == (hi - lo) / Width && lo + q * Width == hi
  {
    q := (hi - lo) / Width;
  }

  /** Days respect time order. */
  lemma DayMonotone(t: int, u: int)
    requires t <= u
    ensures Day(t) <= Day(u)
  {
  }

  /** The `k`-th bin of day `d` starts within day `d`. */
  lemma BinInDay(d: int, k: int)
    requires 0 <= k < BinsPerDay
    ensures Day(DayStart(d) + k * Width) == d && (DayStart(d) + k * Width) % Width == 0
  {
    assert BinsPerDay == 432000;
    assert k * Width < DayMs;
    DayUnique(DayStart(d) + k * Width, d);
  }

  /** Day `first + j` starts `j` days' worth of bins after day `first`. */
  lemma DayOffset(first: int, j: int)
    ensures DayStart(first) + j * BinsPerDay * Width == DayStart(first + j)
  {
    assert BinsPerDay == 432000;
    assert j * BinsPerDay * Width == j * DayMs;
  }

  /** The bins of `count` days are those of the first `count - 1` days and one more day. */
  lemma NextDayBins(first: int, count: int)
    ensures (count - 1) * BinsPerDay + BinsPerDay == count * BinsPerDay
    ensures DayStart(first) + (count - 1) * BinsPerDay * Width == DayStart(first + count - 1)
  {
    DayOffset(first, count - 1);
  }

  /** A timestamp whose day is among days `first` .. `last` lies in their span of bins. */
  lemma DaySpan(t: int, first: int, last: int)
    requires first <= Day(t) <= last
    ensures DayStart(first) <= t < DayStart(first) + (last - first + 1) * BinsPerDay * Width
  {
    var d := Day(t);
    assert first * DayMs <= d * DayMs;
    assert (d + 1) * DayMs <= (last + 1) * DayMs;
    DayOffset(first, last - first + 1);
  }

  /** A day is determined by any timestamp in it. */
  lemma DayUnique(t: int, d: int)
    requires d * DayMs <= t < d * DayMs + DayMs
    ensures d == Day(t)
  {
    var e := Day(t);
    assert e * DayMs <= t < e * DayMs + DayMs;
    assert d - 1 < e < d + 1;
  }

  /** Because 200 divides 86 400 000, the start of a bin lies in the same day as every
      timestamp in the bin: no bin bridges two days. */
  lemma BucketSameDay(t: int)
    ensures Day(Bucket(t)) == Day(t)
  {
    var d, b := Day(t), Bucket(t);
    assert DayStart(d) <= t;
    BucketUnique(DayStart(d), DayStart(d));
    BucketMonotone(DayStart(d), t);
    DayUnique(b, d);
  }

  lemma SameBucketSameDay(t: int, u: int)
    requires Bucket(t) == Bucket(u)
    ensures Day(t) == Day(u)
  {
    BucketSameDay(t);
    BucketSameDay(u);
  }
}
