/** The fitness-weighted selection pool and fitness sums. */
module Weighting {

  import opened Genome
  import opened Sorting

  /** Python's [x] * n: n copies of x, none when n <= 0. */
  function Repeat<T>(x: T, n: int): (r: seq<T>)
    ensures |r| == Clamp(n)
    ensures forall i :: 0 <= i < |r| ==> r[i] == x
  {
    if n <= 0 then [] else Repeat(x, n - 1) + [x]
  }

  /** The pool generate_weighted_distribution builds: for each genome in order, w(g) + 1 copies
      of it (none when that is negative). */
  function Weighted<T>(gs: seq<T>, w: T -> int): seq<T>
  {
    if gs == [] then [] else Weighted(gs[..|gs| - 1], w) + Repeat(gs[|gs| - 1], w(gs[|gs| - 1]) + 1)
  }

  /** sum(f(g) for g in gs), added up left to right. */
  function SumBy<T>(gs: seq<T>, f: T -> int): int
  {
    if gs == [] then 0 else SumBy(gs[..|gs| - 1], f) + f(gs[|gs| - 1])
  }

  /** The empty sum is 0, a single term is itself, and sums split over concatenation. */
  lemma {:induction false} SumByAppend<T>(a: seq<T>, b: seq<T>, f: T -> int)
    ensures SumBy([], f) == 0
    ensures |a| == 1 ==> SumBy(a, f) == f(a[0])
    ensures SumBy(a + b, f) == SumBy(a, f) + SumBy(b, f)
  {
    if b == [] {
      assert a + b == a;
    } else {
      assert (a + b)[..|a + b| - 1] == a + b[..|b| - 1];
      SumByAppend(a, b[..|b| - 1], f);
    }
    if |a| == 1 {
      assert a[..0] == [];
    }
  }

  /** A sum of non-negative terms is non-negative. */
  lemma {:induction false} SumByNonNegative<T>(gs: seq<T>, f: T -> int)
    ensures (forall k :: 0 <= k < |gs| ==> f(gs[k]) >= 0) ==> SumBy(gs, f) >= 0
  {
    if gs != [] {
      SumByNonNegative(gs[..|gs| - 1], f);
    }
  }

  /** Reordering by the stable sort does not change a sum. */
  lemma {:induction false} SumBySortDesc<T>(s: seq<T>, key: T -> int, f: T -> int)
    ensures SumBy(SortDesc(s, key), f) == SumBy(s, f)
  {
    if s != [] {
      var init, x := s[..|s| - 1], s[|s| - 1];
      SumBySortDesc(init, key, f);
      SumByInsert(SortDesc(init, key), x, key, f);
    }
  }

  lemma {:induction false} SumByInsert<T>(t: seq<T>, x: T, key: T -> int, f: T -> int)
    ensures SumBy(Insert(t, x, key), f) == SumBy(t, f) + f(x)
  {
    if t == [] {
      SumByAppend([x], [], f);
    } else if key(t[0]) < key(x) {
      SumByAppend([x], t, f);
    } else {
      SumByInsert(t[1..], x, key, f);
      SumByAppend([t[0]], Insert(t[1..], x, key), f);
      SumByAppend([t[0]], t[1..], f);
      assert t == [t[0]] + t[1..];
    }
  }

  /** The pool holds one entry per unit of clamped weight. */
  lemma {:induction false} WeightedLength<T>(gs: seq<T>, w: T -> int)
    ensures |Weighted(gs, w)| == SumBy(gs, g => Clamp(w(g) + 1))
  {
    if gs != [] {
      WeightedLength(gs[..|gs| - 1], w);
    }
  }

  /** With non-negative fitness the pool size is the total fitness plus the population size. */
  lemma {:induction false} WeightedLengthNonNegative<T>(gs: seq<T>, w: T -> int)
    requires forall i :: 0 <= i < |gs| ==> w(gs[i]) >= 0
    ensures |Weighted(gs, w)| == SumBy(gs, w) + |gs|
  {
    if gs != [] {
      WeightedLengthNonNegative(gs[..|gs| - 1], w);
    }
  }

  lemma {:induction false} RepeatCount<T>(y: T, n: int, x: T)
    ensures multiset(Repeat(y, n))[x] == if x == y then Clamp(n) else 0
  {
    if n > 0 {
      RepeatCount(y, n - 1, x);
    }
  }

  /** Each distinct genome appears in the pool (its weight + 1) times per occurrence in the
      population. */
  lemma {:induction false} WeightedCount<T>(gs: seq<T>, w: T -> int, x: T)
    ensures multiset(Weighted(gs, w))[x] == multiset(gs)[x] * Clamp(w(x) + 1)
  {
    if gs != [] {
      var init, y := gs[..|gs| - 1], gs[|gs| - 1];
      WeightedCount(init, w, x);
      RepeatCount(y, w(y) + 1, x);
      WeightedSnoc(gs, w, x);
      MultisetSnoc(gs, x);
      if x == y {
        CountStep(multiset(init)[x], Clamp(w(x) + 1));
      }
    }
  }

  lemma WeightedSnoc<T>(gs: seq<T>, w: T -> int, x: T)
    requires gs != []
    ensures var init, y := gs[..|gs| - 1], gs[|gs| - 1];
            multiset(Weighted(gs, w))[x] == multiset(Weighted(init, w))[x] + multiset(Repeat(y, w(y) + 1))[x]
  {
    var init, y := gs[..|gs| - 1], gs[|gs| - 1];
    assert multiset(Weighted(gs, w)) == multiset(Weighted(init, w)) + multiset(Repeat(y, w(y) + 1));
  }

  lemma MultisetSnoc<T>(gs: seq<T>, x: T)
    requires gs != []
    ensures multiset(gs)[x] == multiset(gs[..|gs| - 1])[x] + (if x == gs[|gs| - 1] then 1 else 0)
  {
    assert gs == gs[..|gs| - 1] + [gs[|gs| - 1]];
  }

  lemma CountStep(m: nat, c: nat)
    ensures m * c + c == (m + 1) * c
  {
  }

  /** A genome is in the pool exactly when it is in the population with non-negative weight. */
  lemma WeightedMembers<T>(gs: seq<T>, w: T -> int, x: T)
    ensures x in Weighted(gs, w) <==> x in gs && w(x) >= 0
  {
    WeightedCount(gs, w, x);
    assert x in Weighted(gs, w) <==> x in multiset(Weighted(gs, w));
    assert x in gs <==> x in multiset(gs);
  }

  /** With every weight 0 the pool is the population itself, one copy of each genome. */
  lemma {:induction false} WeightedOfZero<T>(gs: seq<T>, w: T -> int)
    requires forall i :: 0 <= i < |gs| ==> w(gs[i]) == 0
    ensures Weighted(gs, w) == gs
  {
    if gs != [] {
      var init := gs[..|gs| - 1];
      WeightedOfZero(init, w);
      assert Repeat(gs[|gs| - 1], 1) == [gs[|gs| - 1]];
      assert gs == init + [gs[|gs| - 1]];
    }
  }

  /** The pool of one more genome extends the pool of the shorter prefix. */
  lemma WeightedPrefix<T>(gs: seq<T>, w: T -> int, i: nat)
    requires i < |gs|
    ensures Weighted(gs[..i + 1], w) == Weighted(gs[..i], w) + Repeat(gs[i], w(gs[i]) + 1)
  {
    var p := gs[..i + 1];
    assert p[..|p| - 1] == gs[..i];
    assert p[|p| - 1] == gs[i];
  }
}
