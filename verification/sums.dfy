/** Finite sums of real vectors: the reduction behind Eigen's `.sum()` and
    behind every row of a matrix-vector product. */
module Sums {

  /** Sum of the entries of `s`. The recursion lives in Accumulate, so
      that every mention of `Sum` unfolds to the same single step. */
  function Sum(s: seq<real>): real
  {
    Accumulate(s)
  }

  /** The entries of `s` added from the first to the last. */
  function Accumulate(s: seq<real>): real
  {
    if |s| == 0 then 0.0 else Accumulate(s[..|s| - 1]) + s[|s| - 1]
  }

  /** Entrywise sum of two vectors of the same length. */
  function Plus(u: seq<real>, v: seq<real>): (w: seq<real>)
    requires |v| == |u|
    ensures |w| == |u|
    ensures forall i {:trigger w[i]} :: 0 <= i < |u| ==> w[i] == u[i] + v[i]
  {
    seq(|u|, i requires 0 <= i < |u| => u[i] + v[i])
  }

  /** Summing a concatenation sums the parts. */
  lemma {:induction false} SumConcat(a: seq<real>, b: seq<real>)
    ensures Sum(a + b) == Sum(a) + Sum(b)
    decreases |b|
  {
    if |b| == 0 {
      assert a + b == a;
    } else {
      var b' := b[..|b| - 1];
      assert (a + b)[..|a + b| - 1] == a + b';
      SumConcat(a, b');
    }
  }

  /** Summing from the back agrees with peeling off the first entry. */
  lemma {:induction false} SumFront(s: seq<real>)
    requires |s| > 0
    ensures Sum(s) == s[0] + Sum(s[1..])
  {
    assert [s[0]] + s[1..] == s;
    SumConcat([s[0]], s[1..]);
    assert Sum([s[0]]) == Sum([s[0]][..0]) + s[0];
    assert [s[0]][..0] == [];
  }

  /** Scaling every entry scales the sum. */
  lemma {:induction false} SumScale(c: real, s: seq<real>, t: seq<real>)
    requires |t| == |s|
    requires forall i :: 0 <= i < |s| ==> t[i] == c * s[i]
    ensures Sum(t) == c * Sum(s)
    decreases |s|
  {
    if |s| > 0 {
      var k := |s| - 1;
      SumScale(c, s[..k], t[..k]);
    }
  }

  /** Adding two vectors entrywise adds their sums. */
  lemma {:induction false} SumAdd(s: seq<real>, t: seq<real>, u: seq<real>)
    requires |s| == |t| == |u|
    requires forall i :: 0 <= i < |u| ==> u[i] == s[i] + t[i]
    ensures Sum(u) == Sum(s) + Sum(t)
    decreases |u|
  {
    if |u| > 0 {
      var k := |u| - 1;
      SumAdd(s[..k], t[..k], u[..k]);
    }
  }

  /** Replacing one entry changes the sum by the difference. */
  lemma {:induction false} SumUpdate(s: seq<real>, k: nat, x: real)
    requires k < |s|
    ensures Sum(s[k := x]) == Sum(s) - s[k] + x
    decreases |s|
  {
    var last := |s| - 1;
    var u := s[k := x];
    if k == last {
      assert u[..last] == s[..last];
    } else {
      assert u[..last] == s[..last][k := x];
      SumUpdate(s[..last], k, x);
    }
  }

  /** An all-zero vector sums to zero. */
  lemma {:induction false} SumZero(s: seq<real>)
    requires forall i :: 0 <= i < |s| ==> s[i] == 0.0
    ensures Sum(s) == 0.0
    decreases |s|
  {
    if |s| > 0 {
      SumZero(s[..|s| - 1]);
    }
  }

  /** Entries outside the window [lo, hi) contribute nothing. */
  lemma {:induction false} SumWindow(s: seq<real>, lo: nat, hi: nat)
    requires lo <= hi <= |s|
    requires forall i :: 0 <= i < |s| && (i < lo || hi <= i) ==> s[i] == 0.0
    ensures Sum(s) == Sum(s[lo..hi])
  {
    assert s == s[..lo] + s[lo..hi] + s[hi..];
    SumConcat(s[..lo] + s[lo..hi], s[hi..]);
    SumConcat(s[..lo], s[lo..hi]);
    SumZero(s[..lo]);
    SumZero(s[hi..]);
  }

  /** A single entry sums to itself. */
  lemma {:induction false} SumOne(x: real)
    ensures Sum([x]) == x
  {
    assert [x][..0] == [];
    assert Sum([]) == 0.0;
  }

  /** A vector that is zero except at `k` sums to its entry at `k`. */
  lemma {:induction false} SumSingle(s: seq<real>, k: nat)
    requires k < |s|
    requires forall i :: 0 <= i < |s| && i != k ==> s[i] == 0.0
    ensures Sum(s) == s[k]
  {
    SumWindow(s, k, k + 1);
    assert s[k..k + 1] == [s[k]];
    SumOne(s[k]);
  }

  /** A vector that is zero except at `k` and `k + 1` sums to those two entries. */
  lemma {:induction false} SumAdjacentPair(s: seq<real>, k: nat)
    requires k + 1 < |s|
    requires forall i :: 0 <= i < |s| && i != k && i != k + 1 ==> s[i] == 0.0
    ensures Sum(s) == s[k] + s[k + 1]
  {
    SumWindow(s, k, k + 2);
    var w := s[k..k + 2];
    assert w[..1] == [s[k]];
    SumOne(s[k]);
    assert Sum(w) == Sum(w[..1]) + s[k + 1];
  }

  /** Averaging each pair of neighbours counts every entry twice by halves,
      except the two ends, which are counted once by half. */
  lemma {:induction false} SumNeighbourAverages(s: seq<real>, t: seq<real>)
    requires |s| >= 2 && |t| == |s| - 1
    requires forall a :: 0 <= a < |t| ==> t[a] == 0.5 * s[a] + 0.5 * s[a + 1]
    ensures Sum(t) + 0.5 * s[0] + 0.5 * s[|s| - 1] == Sum(s)
    decreases |t|
  {
    var k := |t| - 1;
    var s' := s[..|s| - 1];
    if k == 0 {
      assert t == [t[0]] && s' == [s[0]];
      SumOne(t[0]);
      SumOne(s[0]);
    } else {
      SumNeighbourAverages(s', t[..k]);
    }
  }

  /** Adding `x` to the first entry and `y` to the last adds `x + y` to the sum. */
  lemma {:induction false} SumEnds(t: seq<real>, u: seq<real>, x: real, y: real)
    requires |u| == |t| >= 1
    requires forall a :: 0 <= a < |t| ==>
      u[a] == t[a] + (if a == 0 then x else 0.0) + (if a == |t| - 1 then y else 0.0)
    ensures Sum(u) == Sum(t) + x + y
  {
    var n := |t|;
    var w := t[0 := t[0] + x];
    SumUpdate(t, 0, t[0] + x);
    SumUpdate(w, n - 1, w[n - 1] + y);
    assert u == w[n - 1 := w[n - 1] + y];
  }
}
