/** The JavaScript array methods the tracker computes with: `map`,
    `filter`, `reduce` to a sum, and `join`. Recursion runs from the back of
    a sequence, as `reduce` folds from the left. */
module Seqs {

  /** `a` is `b` with some elements left out and the rest in their order. */
  predicate IsSubsequence<T(==)>(a: seq<T>, b: seq<T>)
    decreases |b|
  {
    || a == []
    || (b != [] &&
        ((a[|a| - 1] == b[|b| - 1] && IsSubsequence(a[..|a| - 1], b[..|b| - 1]))
         || IsSubsequence(a, b[..|b| - 1])))
  }

  /** `xs.map(f)`. */
  function Map<A, B>(f: A -> B, xs: seq<A>): (ys: seq<B>)
    ensures |ys| == |xs|
    ensures forall i :: 0 <= i < |xs| ==> ys[i] == f(xs[i])
  {
    seq(|xs|, i requires 0 <= i < |xs| => f(xs[i]))
  }

  /** `xs.filter(p)`: exactly the elements satisfying `p`, in their order,
      each as many times as it occurs in `xs`. */
  function Filter<T(==,!new)>(p: T -> bool, xs: seq<T>): (ys: seq<T>)
    ensures |ys| <= |xs|
    ensures forall x :: x in ys <==> x in xs && p(x)
    ensures forall x :: multiset(ys)[x] == if p(x) then multiset(xs)[x] else 0
    ensures IsSubsequence(ys, xs)
  {
    if xs == [] then []
    else
      var rest := Filter(p, xs[..|xs| - 1]);
      var last := xs[|xs| - 1];
      assert xs == xs[..|xs| - 1] + [last];
      assert multiset(xs) == multiset(xs[..|xs| - 1]) + multiset{last};
      if p(last) then
        assert (rest + [last])[..|rest|] == rest;
        rest + [last]
      else rest
  }

  /** `xs.reduce((acc, x) => acc + f(x), 0)`. */
  function Sum<T>(f: T -> int, xs: seq<T>): int
  {
    if xs == [] then 0 else Sum(f, xs[..|xs| - 1]) + f(xs[|xs| - 1])
  }

  /** A sum of terms each between 0 and `bound` lies between 0 and
      `|xs| * bound`. */
  lemma {:induction false} SumBounds<T>(f: T -> int, xs: seq<T>, bound: int)
    requires forall x :: x in xs ==> 0 <= f(x) <= bound
    ensures 0 <= Sum(f, xs) <= |xs| * bound
  {
    if xs != [] {
      var init := xs[..|xs| - 1];
      assert forall x :: x in init ==> x in xs;
      SumBounds(f, init, bound);
    }
  }

  /** A sum of terms each at least `low` is at least `|xs| * low`. */
  lemma {:induction false} SumAtLeast<T>(f: T -> int, xs: seq<T>, low: int)
    requires forall x :: x in xs ==> low <= f(x)
    ensures |xs| * low <= Sum(f, xs)
  {
    if xs != [] {
      var init := xs[..|xs| - 1];
      assert forall x :: x in init ==> x in xs;
      SumAtLeast(f, init, low);
    }
  }

  /** Sums of two functions that agree on the elements agree. */
  lemma {:induction false} SumAgree<T>(f: T -> int, g: T -> int, xs: seq<T>)
    requires forall x :: x in xs ==> f(x) == g(x)
    ensures Sum(f, xs) == Sum(g, xs)
  {
    if xs != [] {
      var init := xs[..|xs| - 1];
      assert forall x :: x in init ==> x in xs;
      SumAgree(f, g, init);
    }
  }

  /** Summing over mapped elements is summing the composition. */
  lemma {:induction false} SumOfMap<A, B>(g: B -> int, f: A -> B, h: A -> int, xs: seq<A>)
    requires forall x :: h(x) == g(f(x))
    ensures Sum(g, Map(f, xs)) == Sum(h, xs)
  {
    if xs != [] {
      var init := xs[..|xs| - 1];
      SumOfMap(g, f, h, init);
      assert Map(f, xs)[..|xs| - 1] == Map(f, init);
    }
  }

  /** Leaving out elements that contribute 0 does not change a sum. */
  lemma {:induction false} SumOfFilter<T(!new)>(f: T -> int, p: T -> bool, xs: seq<T>)
    requires forall x :: !p(x) ==> f(x) == 0
    ensures Sum(f, Filter(p, xs)) == Sum(f, xs)
  {
    if xs != [] {
      var init := xs[..|xs| - 1];
      SumOfFilter(f, p, init);
      var rest := Filter(p, init);
      if p(xs[|xs| - 1]) {
        assert (rest + [xs[|xs| - 1]])[..|rest|] == rest;
      }
    }
  }

  /** Mapping a sequence with one more element maps one more element. */
  lemma MapSnoc<A, B>(f: A -> B, xs: seq<A>, x: A)
    ensures Map(f, xs + [x]) == Map(f, xs) + [f(x)]
  {
  }

  /** Filtering after a map is mapping after the matching filter. */
  lemma {:induction false} FilterOfMap<A(!new), B(!new)>(q: B -> bool, f: A -> B, p: A -> bool, xs: seq<A>)
    requires forall x :: q(f(x)) == p(x)
    ensures Filter(q, Map(f, xs)) == Map(f, Filter(p, xs))
  {
    if xs != [] {
      var init, last := xs[..|xs| - 1], xs[|xs| - 1];
      assert xs == init + [last];
      MapSnoc(f, init, last);
      FilterOfMap(q, f, p, init);
      if p(last) {
        MapSnoc(f, Filter(p, init), last);
      }
    }
  }

  /** `parts.join(sep)`: the parts with `sep` between neighbours. */
  function Join(parts: seq<string>, sep: string): string
  {
    if parts == [] then ""
    else if |parts| == 1 then parts[0]
    else Join(parts[..|parts| - 1], sep) + sep + parts[|parts| - 1]
  }

  /** `part` occurs in `r` starting at offset `o`. */
  predicate PartAt(r: string, o: nat, part: string)
  {
    o + |part| <= |r| && r[o..o + |part|] == part
  }

  /** Where part i starts in `parts.join(sep)`: after each earlier part
      followed by one `sep`. */
  function JoinOffset(parts: seq<string>, sep: string, i: nat): nat
    requires i <= |parts|
  {
    if i == 0 then 0 else JoinOffset(parts, sep, i - 1) + |parts[i - 1]| + |sep|
  }

  /** Offsets up to `k` depend only on the first `k` parts. */
  lemma {:induction false} JoinOffsetPrefix(parts: seq<string>, sep: string, k: nat, i: nat)
    requires i <= k <= |parts|
    ensures JoinOffset(parts[..k], sep, i) == JoinOffset(parts, sep, i)
  {
    if i > 0 {
      JoinOffsetPrefix(parts, sep, k, i - 1);
    }
  }

  /** What occurs in a string occurs at the same offset in any extension. */
  lemma PartAtExtended(r: string, tail: string, o: nat, part: string)
    requires PartAt(r, o, part)
    ensures PartAt(r + tail, o, part)
  {
    assert (r + tail)[o..o + |part|] == r[o..o + |part|];
  }

  /** Concatenation regrouped. */
  lemma Regroup(a: string, b: string, c: string, d: string)
    ensures a + (b + c) + d == (a + b) + (c + d)
  {
    assert a + (b + c) + d == a + b + c + d;
  }

  /** Joining one more part appends a separator and that part; with a
      separator after both, the tile of the new part follows. */
  lemma JoinSnoc(parts: seq<string>, sep: string)
    requires |parts| >= 2
    ensures Join(parts, sep) == Join(parts[..|parts| - 1], sep) + (sep + parts[|parts| - 1])
    ensures Join(parts, sep) + sep
         == (Join(parts[..|parts| - 1], sep) + sep) + (parts[|parts| - 1] + sep)
  {
    var front, last := Join(parts[..|parts| - 1], sep), parts[|parts| - 1];
    assert Join(parts, sep) == front + sep + last;
    assert front + sep + last == front + (sep + last);
    Regroup(front, sep, last, sep);
  }

  /** A string occurs in a concatenation where it was placed. */
  lemma PartAtEnd(r: string, part: string)
    ensures PartAt(r + part, |r|, part)
  {
    assert (r + part)[|r|..|r| + |part|] == part;
  }

  /** The length of `parts.join(sep)`: the offset one past the last part,
      less the separator that no part follows. */
  lemma {:induction false} JoinLength(parts: seq<string>, sep: string)
    requires parts != []
    ensures |Join(parts, sep)| + |sep| == JoinOffset(parts, sep, |parts|)
  {
    if |parts| > 1 {
      var n := |parts| - 1;
      JoinLength(parts[..n], sep);
      JoinSnoc(parts, sep);
      JoinOffsetPrefix(parts, sep, n, n);
    }
  }

  /** In `parts.join(sep) + sep`, part i followed by `sep` sits at
      `JoinOffset(parts, sep, i)`. */
  lemma {:induction false} JoinTileAt(parts: seq<string>, sep: string, i: nat)
    requires i < |parts|
    ensures PartAt(Join(parts, sep) + sep, JoinOffset(parts, sep, i), parts[i] + sep)
  {
    if |parts| == 1 {
      PartAtEnd([], parts[0] + sep);
      assert [] + (parts[0] + sep) == Join(parts, sep) + sep;
    } else if i == |parts| - 1 {
      JoinTileLast(parts, sep);
    } else {
      JoinTileAt(parts[..|parts| - 1], sep, i);
      JoinTileEarlier(parts, sep, i);
    }
  }

  /** The last part's tile ends the joined string. */
  lemma JoinTileLast(parts: seq<string>, sep: string)
    requires |parts| >= 2
    ensures PartAt(Join(parts, sep) + sep, JoinOffset(parts, sep, |parts| - 1), parts[|parts| - 1] + sep)
  {
    var n := |parts| - 1;
    JoinSnoc(parts, sep);
    JoinOffsetPrefix(parts, sep, n, n);
    JoinLength(parts[..n], sep);
    PartAtEnd(Join(parts[..n], sep) + sep, parts[n] + sep);
  }

  /** A tile of the shorter join stays in place in the longer one. */
  lemma JoinTileEarlier(parts: seq<string>, sep: string, i: nat)
    requires i < |parts| - 1
    requires PartAt(Join(parts[..|parts| - 1], sep) + sep, JoinOffset(parts[..|parts| - 1], sep, i),
                    parts[..|parts| - 1][i] + sep)
    ensures PartAt(Join(parts, sep) + sep, JoinOffset(parts, sep, i), parts[i] + sep)
  {
    var n := |parts| - 1;
    JoinSnoc(parts, sep);
    JoinOffsetPrefix(parts, sep, n, i);
    PartAtExtended(Join(parts[..n], sep) + sep, parts[n] + sep, JoinOffset(parts, sep, i), parts[i] + sep);
  }

  /** `parts.join(sep)` is laid out part by part: with one more `sep` at the
      end, it is part 0 and `sep`, then part 1 and `sep`, and so on, part i
      starting at `JoinOffset(parts, sep, i)` and the whole as long as the
      offset past the last part. */
  lemma JoinLayout(parts: seq<string>, sep: string)
    requires parts != []
    ensures |Join(parts, sep)| + |sep| == JoinOffset(parts, sep, |parts|)
    ensures forall i :: 0 <= i < |parts| ==>
      PartAt(Join(parts, sep) + sep, JoinOffset(parts, sep, i), parts[i] + sep)
  {
    JoinLength(parts, sep);
    forall i | 0 <= i < |parts| {
      JoinTileAt(parts, sep, i);
    }
  }

  /** The strings one after another. */
  function Concat(xs: seq<string>): string
  {
    if xs == [] then "" else Concat(xs[..|xs| - 1]) + xs[|xs| - 1]
  }

  /** `parts.join(sep)` with one more `sep` at the end is every part
      followed by `sep`, one after another. */
  lemma {:induction false} JoinThenSep(parts: seq<string>, sep: string)
    requires parts != []
    ensures Join(parts, sep) + sep == Concat(Map((p: string) => p + sep, parts))
  {
    var tiles := Map((p: string) => p + sep, parts);
    var n := |parts| - 1;
    if n == 0 {
      assert Concat(tiles) == Concat([]) + tiles[0];
    } else {
      JoinThenSep(parts[..n], sep);
      JoinSnoc(parts, sep);
      assert tiles[..n] == Map((p: string) => p + sep, parts[..n]);
    }
  }
}
