/** The leaf's two parallel records of its points (quadtree.py lines 90-91,
    98-103, 110-114): the ordered list `features` and the frequency map
    `_points`, whose iteration order is the order in which keys were first
    inserted. Here the map is a function of the list. */
module Frequencies {
  import opened Geometry

  /** How often `k` occurs according to `m` (0 when absent). */
  function Freq(m: map<Point, nat>, k: Point): nat
  {
    if k in m then m[k] else 0
  }

  /** One more occurrence of `p`: lines 110-113. */
  function Bump(m: map<Point, nat>, p: Point): (m': map<Point, nat>)
    ensures m'.Keys == m.Keys + {p}
    ensures Freq(m', p) == Freq(m, p) + 1
    ensures forall k | k != p :: Freq(m', k) == Freq(m, k)
  {
    m[p := if p in m then m[p] + 1 else 1]
  }

  /** The frequency map that inserting `f` in order produces. */
  function Tally(f: seq<Point>): map<Point, nat>
    decreases |f|
  {
    if f == [] then map[] else Bump(Tally(f[..|f| - 1]), f[|f| - 1])
  }

  /** The distinct elements of `f` in order of first occurrence: the
      iteration order of a dictionary filled from `f`. */
  function Dedup(f: seq<Point>): seq<Point>
    decreases |f|
  {
    if f == [] then []
    else
      var d := Dedup(f[..|f| - 1]);
      if f[|f| - 1] in d then d else d + [f[|f| - 1]]
  }

  /** `[k] * n` */
  function Repeat(k: Point, n: nat): (s: seq<Point>)
    ensures |s| == n && forall i | 0 <= i < n :: s[i] == k
  {
    seq(n, _ => k)
  }

  /** Each key of `ks` repeated as often as `m` records it, in the order of
      `ks`: the `points` property. */
  function Expand(ks: seq<Point>, m: map<Point, nat>): seq<Point>
    decreases |ks|
  {
    if ks == [] then []
    else Expand(ks[..|ks| - 1], m) + Repeat(ks[|ks| - 1], Freq(m, ks[|ks| - 1]))
  }

  ghost predicate Distinct(s: seq<Point>)
  {
    forall i, j | 0 <= i < j < |s| :: s[i] != s[j]
  }

  lemma TallyAppend(f: seq<Point>, p: Point)
    ensures Tally(f + [p]) == Bump(Tally(f), p)
  {
    assert (f + [p])[..|f|] == f;
  }

  lemma DedupAppend(f: seq<Point>, p: Point)
    ensures Dedup(f + [p]) == if p in Dedup(f) then Dedup(f) else Dedup(f) + [p]
  {
    assert (f + [p])[..|f|] == f;
  }

  /** The map counts every element of the list, and nothing else. */
  lemma {:induction false} TallyIsMultiplicity(f: seq<Point>)
    ensures forall k :: Freq(Tally(f), k) == multiset(f)[k]
    ensures Tally(f).Keys == set k | k in f
  {
    if f != [] {
      var init, p := f[..|f| - 1], f[|f| - 1];
      assert f == init + [p];
      TallyIsMultiplicity(init);
    }
  }

  /** The key order lists every element once. */
  lemma {:induction false} DedupElements(f: seq<Point>)
    ensures forall k :: k in Dedup(f) <==> k in f
    ensures Distinct(Dedup(f))
  {
    if f != [] {
      var init, p := f[..|f| - 1], f[|f| - 1];
      assert f == init + [p];
      DedupElements(init);
    }
  }

  /** The distinct-key count `len(_points)` is the length of the key order. */
  lemma {:induction false} TallySize(f: seq<Point>)
    ensures |Tally(f)| == |Dedup(f)|
  {
    if f != [] {
      var init, p := f[..|f| - 1], f[|f| - 1];
      assert f == init + [p];
      TallySize(init);
      TallyIsMultiplicity(init);
      DedupElements(init);
      var m := Tally(init);
      if p in m {
        assert Tally(f).Keys == m.Keys;
      } else {
        assert Tally(f).Keys == m.Keys + {p};
      }
    }
  }

  lemma {:induction false} ExpandMultiplicity(ks: seq<Point>, m: map<Point, nat>, x: Point)
    requires Distinct(ks)
    ensures multiset(Expand(ks, m))[x] == if x in ks then Freq(m, x) else 0
  {
    if ks != [] {
      var init, k := ks[..|ks| - 1], ks[|ks| - 1];
      assert ks == init + [k];
      ExpandMultiplicity(init, m, x);
      var r := Repeat(k, Freq(m, k));
      if x == k {
        assert r == seq(Freq(m, k), _ => x);
        RepeatMultiplicity(x, Freq(m, k));
      } else {
        assert multiset(r)[x] == 0;
      }
    }
  }

  lemma {:induction false} RepeatMultiplicity(x: Point, n: nat)
    ensures multiset(Repeat(x, n))[x] == n
  {
    if n > 0 {
      RepeatMultiplicity(x, n - 1);
      assert Repeat(x, n) == Repeat(x, n - 1) + [x];
    }
  }

  /** Expanding the frequency map in key order gives back every point of the
      list, with its multiplicity. */
  lemma ExpandTally(f: seq<Point>)
    ensures multiset(Expand(Dedup(f), Tally(f))) == multiset(f)
  {
    DedupElements(f);
    TallyIsMultiplicity(f);
    forall x
      ensures multiset(Expand(Dedup(f), Tally(f)))[x] == multiset(f)[x]
    {
      ExpandMultiplicity(Dedup(f), Tally(f), x);
    }
  }
}
