/** Counting over the days 1..n of a month and over a grid of rows by
    days: the loops that tally completed cells. */
module Counting {
  import opened Seqs

  /** The number of days among 1..n for which `done` holds. */
  function CountDays(done: nat -> bool, n: nat): (c: nat)
    ensures c <= n
  {
    if n == 0 then 0 else CountDays(done, n - 1) + (if done(n) then 1 else 0)
  }

  /** The days among 1..n for which `done` holds. */
  ghost function DaysWhere(done: nat -> bool, n: nat): set<nat>
  {
    set d: nat | 1 <= d <= n && done(d)
  }

  /** The days among 1..n are those among 1..n-1 and, if `done(n)`, the
      new day n. */
  lemma DaysWhereStep(done: nat -> bool, n: nat)
    requires n > 0
    ensures n !in DaysWhere(done, n - 1)
    ensures DaysWhere(done, n) == DaysWhere(done, n - 1) + (if done(n) then {n} else {})
  {
  }

  /** The count is the number of distinct days among 1..n for which `done`
      holds. */
  lemma {:induction false} CountDaysIsCardinality(done: nat -> bool, n: nat)
    ensures CountDays(done, n) == |DaysWhere(done, n)|
  {
    if n > 0 {
      CountDaysIsCardinality(done, n - 1);
      DaysWhereStep(done, n);
    }
  }

  /** Two day predicates that agree on 1..n count the same. */
  lemma {:induction false} CountDaysAgree(p: nat -> bool, q: nat -> bool, n: nat)
    requires forall d :: 1 <= d <= n ==> p(d) == q(d)
    ensures CountDays(p, n) == CountDays(q, n)
  {
    if n > 0 {
      CountDaysAgree(p, q, n - 1);
    }
  }

  /** Two day predicates that differ on one day of 1..n only count one
      apart. */
  lemma {:induction false} CountDaysFlip(p: nat -> bool, q: nat -> bool, day: nat, n: nat)
    requires 1 <= day <= n
    requires q(day) == !p(day)
    requires forall d :: 1 <= d <= n && d != day ==> p(d) == q(d)
    ensures CountDays(q, n) as int == CountDays(p, n) as int + (if p(day) then -1 else 1)
  {
    if n == day {
      CountDaysAgree(p, q, n - 1);
    } else {
      CountDaysFlip(p, q, day, n - 1);
    }
  }

  /** Days among 1..n that lie in the interval (lo, hi] are counted by the
      overlap of the two ranges. */
  lemma {:induction false} CountInterval(p: nat -> bool, lo: nat, hi: nat, n: nat)
    requires lo <= hi
    requires forall d :: 1 <= d <= n ==> (p(d) <==> lo < d <= hi)
    ensures CountDays(p, n) == if n <= lo then 0 else if n <= hi then n - lo else hi - lo
  {
    if n > 0 {
      CountInterval(p, lo, hi, n - 1);
    }
  }

  /** f(1) + ... + f(n). */
  function SumDays(f: nat -> int, n: nat): int
  {
    if n == 0 then 0 else SumDays(f, n - 1) + f(n)
  }

  /** Summing day by day is additive. */
  lemma {:induction false} SumDaysAdd(f: nat -> int, g: nat -> int, h: nat -> int, n: nat)
    requires forall d :: 1 <= d <= n ==> h(d) == f(d) + g(d)
    ensures SumDays(h, n) == SumDays(f, n) + SumDays(g, n)
  {
    if n > 0 {
      SumDaysAdd(f, g, h, n - 1);
    }
  }

  /** Sums of two functions that agree on 1..n agree. */
  lemma {:induction false} SumDaysAgree(f: nat -> int, g: nat -> int, n: nat)
    requires forall d :: 1 <= d <= n ==> f(d) == g(d)
    ensures SumDays(f, n) == SumDays(g, n)
  {
    if n > 0 {
      SumDaysAgree(f, g, n - 1);
    }
  }

  /** Summing a 0/1 indicator of `p` counts the days for which `p` holds. */
  lemma {:induction false} SumDaysOfIndicator(p: nat -> bool, f: nat -> int, n: nat)
    requires forall d :: 1 <= d <= n ==> f(d) == if p(d) then 1 else 0
    ensures SumDays(f, n) == CountDays(p, n)
  {
    if n > 0 {
      SumDaysOfIndicator(p, f, n - 1);
    }
  }

  /** How many rows of `xs` have their cell on day `d` set. */
  function ColumnCount<T(==,!new)>(p: (T, nat) -> bool, xs: seq<T>, d: nat): nat
  {
    |Filter((x: T) => p(x, d), xs)|
  }

  /** How many days among 1..n row `x` has set. */
  function RowCount<T>(p: (T, nat) -> bool, x: T, n: nat): nat
  {
    CountDays((d: nat) => p(x, d), n)
  }

  /** One more row adds one to a column's count exactly when its cell is
      set. */
  lemma ColumnCountSnoc<T(!new)>(p: (T, nat) -> bool, xs: seq<T>, d: nat)
    requires xs != []
    ensures ColumnCount(p, xs, d)
         == ColumnCount(p, xs[..|xs| - 1], d) + (if p(xs[|xs| - 1], d) then 1 else 0)
  {
  }

  /** Counting a grid row by row and column by column gives the same
      total. */
  lemma {:induction false} CountRowsThenColumns<T(!new)>(p: (T, nat) -> bool, xs: seq<T>, n: nat)
    ensures Sum((x: T) => RowCount(p, x, n), xs) == SumDays((d: nat) => ColumnCount(p, xs, d), n)
  {
    if xs == [] {
      SumDaysOfIndicator((d: nat) => false, (d: nat) => ColumnCount(p, xs, d), n);
      CountInterval((d: nat) => false, 0, 0, n);
    } else {
      var init, last := xs[..|xs| - 1], xs[|xs| - 1];
      CountRowsThenColumns(p, init, n);
      forall d | 1 <= d <= n
        ensures ColumnCount(p, xs, d) == ColumnCount(p, init, d) + (if p(last, d) then 1 else 0)
      {
        ColumnCountSnoc(p, xs, d);
      }
      SumDaysAdd((d: nat) => ColumnCount(p, init, d), (d: nat) => if p(last, d) then 1 else 0,
                 (d: nat) => ColumnCount(p, xs, d), n);
      SumDaysOfIndicator((d: nat) => p(last, d), (d: nat) => if p(last, d) then 1 else 0, n);
    }
  }
}
