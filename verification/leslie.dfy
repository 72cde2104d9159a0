/** The Leslie (age-transition) formulation of the projection:
    `make_leslie_matrix` builds a sparse operator for one period, and
    `ccmpp_leslie` projects by `L * (P + m/2) + m/2` period after period. */
module Leslie {
  import opened Sums
  import opened Schedule

  /** An Eigen sparse matrix: its dimensions and the coefficients that were
      inserted, keyed by (row, column). */
  datatype SparseMatrix = SparseMatrix(rows: nat, cols: nat, entries: map<(int, int), real>)

  /** Coefficient (r, c); a coefficient never inserted reads as zero. */
  function Entry(m: SparseMatrix, r: int, c: int): real
  {
    if (r, c) in m.entries then m.entries[(r, c)] else 0.0
  }

  /** Row `r` of `m`, dense. */
  function Row(m: SparseMatrix, r: int): (row: seq<real>)
    ensures |row| == m.cols
    ensures forall c {:trigger row[c]} :: 0 <= c < m.cols ==> row[c] == Entry(m, r, c)
  {
    seq(m.cols, c => Entry(m, r, c))
  }

  /** Entrywise products `a[c] * v[c]`. */
  function Products(a: seq<real>, v: seq<real>): (p: seq<real>)
    requires |a| == |v|
    ensures |p| == |v|
    ensures forall c {:trigger p[c]} :: 0 <= c < |v| ==> p[c] == a[c] * v[c]
  {
    seq(|v|, c requires 0 <= c < |v| => a[c] * v[c])
  }

  /** Inner product of two vectors of the same length. */
  function Dot(a: seq<real>, v: seq<real>): real
    requires |a| == |v|
  {
    Sum(Products(a, v))
  }

  /** The product `m * v` of a sparse matrix and a dense vector. */
  function MatVec(m: SparseMatrix, v: seq<real>): (w: seq<real>)
    requires |v| == m.cols
    ensures |w| == m.rows
  {
    seq(m.rows, r => Dot(Row(m, r), v))
  }

  /** What the builder needs: at least two age groups (`|sx| = dim + 1`),
      a fertile range starting at 0-based index 1 or later, and ending inside
      the age groups. */
  predicate LeslieDims(sx: seq<real>, fx: seq<real>, fxIdx: nat)
  {
    |sx| >= 3 && 1 <= fxIdx && fxIdx + |fx| <= |sx| - 1
  }

  /** Survivors to the end of the period of the female births per unit of
      half-interval exposure: `sx[0] * 0.5 * interval / (1 + srb)`. */
  function FertK(sx0: real, srb: real, interval: real): real
    requires 1.0 + srb != 0.0
  {
    sx0 * 0.5 * interval / (1.0 + srb)
  }

  /** The fertility coefficients of row 0, for columns `fxIdx - 1 .. fxIdx + |fx| - 1`,
      computed as the builder does: zeros, plus `fx ⊙ sx[fxIdx..]` on the first
      `|fx|` entries, plus `fx` on the last `|fx|`, all scaled by `fertK`. Births
      from each fertile age are counted once for the women who start the period
      there and once for those who end it there (weighted by their survival). */
  function FertLeslie(sx: seq<real>, fx: seq<real>, fertK: real, fxIdx: nat): (f: seq<real>)
    requires fxIdx + |fx| <= |sx|
    ensures |f| == |fx| + 1
    ensures forall i {:trigger f[i]} :: 0 <= i <= |fx| ==>
      f[i] == fertK * ((if i < |fx| then fx[i] * sx[fxIdx + i] else 0.0) + (if i >= 1 then fx[i - 1] else 0.0))
  {
    var n := |fx|;
    var zero := seq(n + 1, i => 0.0);
    var survivorsTerm := seq(n + 1, i requires 0 <= i <= n => if i < n then zero[i] + fx[i] * sx[fxIdx + i] else zero[i]);
    var bothTerms := seq(n + 1, i requires 0 <= i <= n => if i >= 1 then survivorsTerm[i] + fx[i - 1] else survivorsTerm[i]);
    seq(n + 1, i requires 0 <= i <= n => bothTerms[i] * fertK)
  }

  /** The positions the builder inserts: row 0 over the fertile columns, the
      subdiagonal, and the open age group's self-loop. */
  predicate InLeslieSupport(dim: nat, nFx: nat, fxIdx: nat, r: int, c: int)
  {
    (r == 0 && fxIdx - 1 <= c <= fxIdx - 1 + nFx) ||
    (1 <= r < dim && c == r - 1) ||
    (r == dim - 1 && c == dim - 1)
  }

  /** Reference definition of the Leslie matrix, entry by entry. */
  function LeslieAt(sx: seq<real>, fx: seq<real>, fertK: real, fxIdx: nat, r: int, c: int): real
    requires LeslieDims(sx, fx, fxIdx)
    requires 0 <= r < |sx| - 1 && 0 <= c < |sx| - 1
  {
    var dim := |sx| - 1;
    if r == 0 then
      (if fxIdx - 1 <= c <= fxIdx - 1 + |fx| then FertLeslie(sx, fx, fertK, fxIdx)[c - fxIdx + 1] else 0.0)
    else if c == r - 1 then sx[r]
    else if r == dim - 1 && c == dim - 1 then sx[dim]
    else 0.0
  }

  /** Row `r` of the Leslie matrix, dense. */
  function LeslieRow(sx: seq<real>, fx: seq<real>, fertK: real, fxIdx: nat, r: int): (row: seq<real>)
    requires LeslieDims(sx, fx, fxIdx)
    requires 0 <= r < |sx| - 1
    ensures |row| == |sx| - 1
    ensures forall c {:trigger row[c]} :: 0 <= c < |sx| - 1 ==> row[c] == LeslieAt(sx, fx, fertK, fxIdx, r, c)
  {
    seq(|sx| - 1, c requires 0 <= c < |sx| - 1 => LeslieAt(sx, fx, fertK, fxIdx, r, c))
  }

  /** The dense product of the Leslie matrix with `v`. */
  function LeslieTimes(sx: seq<real>, fx: seq<real>, fertK: real, fxIdx: nat, v: seq<real>): (w: seq<real>)
    requires LeslieDims(sx, fx, fxIdx)
    requires |v| == |sx| - 1
    ensures |w| == |v|
  {
    seq(|v|, r requires 0 <= r < |v| => Dot(LeslieRow(sx, fx, fertK, fxIdx, r), v))
  }

  /** Builds the sparse Leslie matrix of one period by inserting, one
      coefficient at a time, the fertility row and then the survival
      subdiagonal and the open-age self-loop. Each insert is at a position not
      yet filled, as Eigen's `insert` demands. */
  method MakeLeslieMatrix(sx: seq<real>, fx: seq<real>, srb: real, interval: real, fxIdx: nat)
    returns (leslie: SparseMatrix)
    requires LeslieDims(sx, fx, fxIdx) && 1.0 + srb != 0.0
    ensures leslie.rows == |sx| - 1 && leslie.cols == |sx| - 1
    ensures forall r, c :: (r, c) in leslie.entries <==> InLeslieSupport(|sx| - 1, |fx|, fxIdx, r, c)
    ensures forall i :: 1 <= i < |sx| - 1 ==> Entry(leslie, i, i - 1) == sx[i]
    ensures Entry(leslie, |sx| - 2, |sx| - 2) == sx[|sx| - 1]
    ensures forall r, c :: 0 <= r < |sx| - 1 && 0 <= c < |sx| - 1 ==>
      Entry(leslie, r, c) == LeslieAt(sx, fx, FertK(sx[0], srb, interval), fxIdx, r, c)
  {
    var fertK := sx[0] * 0.5 * interval / (1.0 + srb);
    var fxd := |fx|;
    var fertLeslie := FertLeslie(sx, fx, fertK, fxIdx);

    var dim := |sx| - 1;
    var entries: map<(int, int), real> := map[];
    for i := 0 to fxd + 1
      invariant forall r, c :: (r, c) in entries <==> r == 0 && fxIdx - 1 <= c < fxIdx - 1 + i
      invariant forall j :: 0 <= j < i ==> entries[(0, fxIdx + j - 1)] == fertLeslie[j]
    {
      assert (0, fxIdx + i - 1) !in entries;
      entries := entries[(0, fxIdx + i - 1) := fertLeslie[i]];
    }
    for i := 1 to dim
      invariant forall r, c :: (r, c) in entries <==>
        (r == 0 && fxIdx - 1 <= c <= fxIdx - 1 + fxd) || (1 <= r < i && c == r - 1)
      invariant forall j :: 0 <= j <= fxd ==> entries[(0, fxIdx + j - 1)] == fertLeslie[j]
      invariant forall j :: 1 <= j < i ==> entries[(j, j - 1)] == sx[j]
    {
      assert (i, i - 1) !in entries;
      entries := entries[(i, i - 1) := sx[i]];
    }
    assert (dim - 1, dim - 1) !in entries;
    entries := entries[(dim - 1, dim - 1) := sx[dim]];
    leslie := SparseMatrix(dim, dim, entries);
  }

  /** Each column of the Leslie matrix holds at most two coefficients: the
      fertility row and one survival transition. */
  lemma {:induction false} LeslieColumnNonZeros(dim: nat, nFx: nat, fxIdx: nat, c: int)
    requires dim >= 2 && 0 <= c < dim
    ensures |set r | 0 <= r < dim && InLeslieSupport(dim, nFx, fxIdx, r, c)| <= 2
  {
    var rows := set r | 0 <= r < dim && InLeslieSupport(dim, nFx, fxIdx, r, c);
    var other := if c == dim - 1 then c else c + 1;
    assert rows <= {0, other};
    assert other in rows;
    if 0 in rows {
      assert rows == {0, other};
    } else {
      assert rows == {other};
    }
  }

  /** A matrix built by MakeLeslieMatrix multiplies like the reference definition. */
  lemma {:induction false} MatVecOfLeslie(m: SparseMatrix, sx: seq<real>, fx: seq<real>, fertK: real, fxIdx: nat, v: seq<real>)
    requires LeslieDims(sx, fx, fxIdx)
    requires m.rows == |sx| - 1 && m.cols == |sx| - 1 && |v| == |sx| - 1
    requires forall r, c :: 0 <= r < |sx| - 1 && 0 <= c < |sx| - 1 ==> Entry(m, r, c) == LeslieAt(sx, fx, fertK, fxIdx, r, c)
    ensures MatVec(m, v) == LeslieTimes(sx, fx, fertK, fxIdx, v)
  {
    forall r | 0 <= r < |v|
      ensures MatVec(m, v)[r] == LeslieTimes(sx, fx, fertK, fxIdx, v)[r]
    {
      assert Row(m, r) == LeslieRow(sx, fx, fertK, fxIdx, r);
    }
  }

  /** Row r (between the first and the open age group) of `L * v`: the
      survivors of the age group below. */
  lemma {:induction false} LeslieSurvivalRow(sx: seq<real>, fx: seq<real>, fertK: real, fxIdx: nat, v: seq<real>, r: nat)
    requires LeslieDims(sx, fx, fxIdx) && |v| == |sx| - 1
    requires 1 <= r < |sx| - 2
    ensures LeslieTimes(sx, fx, fertK, fxIdx, v)[r] == sx[r] * v[r - 1]
  {
    var p := Products(LeslieRow(sx, fx, fertK, fxIdx, r), v);
    SumSingle(p, r - 1);
  }

  /** The last row of `L * v`: survivors aging into the open age group plus the
      open age group's own survivors. */
  lemma {:induction false} LeslieOpenAgeRow(sx: seq<real>, fx: seq<real>, fertK: real, fxIdx: nat, v: seq<real>)
    requires LeslieDims(sx, fx, fxIdx) && |v| == |sx| - 1
    ensures var n := |v|;
      LeslieTimes(sx, fx, fertK, fxIdx, v)[n - 1] == sx[n - 1] * v[n - 2] + sx[n] * v[n - 1]
  {
    var n := |v|;
    var p := Products(LeslieRow(sx, fx, fertK, fxIdx, n - 1), v);
    SumAdjacentPair(p, n - 2);
  }

  /** Per fertile age j, the rate `fx[j]` applied to the women at age
      `fxIdx + j` at the start of the period. */
  function StartBirths(fx: seq<real>, fxIdx: nat, v: seq<real>): (b: seq<real>)
    requires fxIdx + |fx| <= |v|
    ensures |b| == |fx|
    ensures forall j {:trigger b[j]} :: 0 <= j < |fx| ==> b[j] == fx[j] * v[fxIdx + j]
  {
    seq(|fx|, j requires 0 <= j < |fx| => fx[j] * v[fxIdx + j])
  }

  /** Per fertile age j, the rate `fx[j]` applied to the women who survive
      from age `fxIdx + j - 1` into age `fxIdx + j` during the period. */
  function SurvivorBirths(sx: seq<real>, fx: seq<real>, fxIdx: nat, v: seq<real>): (b: seq<real>)
    requires 1 <= fxIdx && fxIdx + |fx| <= |sx| && fxIdx + |fx| <= |v|
    ensures |b| == |fx|
    ensures forall j {:trigger b[j]} :: 0 <= j < |fx| ==> b[j] == fx[j] * sx[fxIdx + j] * v[fxIdx - 1 + j]
  {
    seq(|fx|, j requires 0 <= j < |fx| => fx[j] * sx[fxIdx + j] * v[fxIdx - 1 + j])
  }

  /** Row 0 of the Leslie matrix without the factor `fertK`, multiplied by `v`
      over the fertile columns `fxIdx - 1 .. fxIdx + |fx| - 1`: column
      `fxIdx - 1 + i` feeds fertile age i through its survivors and fertile
      age i - 1 directly. */
  function FertilityTerms(sx: seq<real>, fx: seq<real>, fxIdx: nat, v: seq<real>): (t: seq<real>)
    requires 1 <= fxIdx && fxIdx + |fx| <= |sx| && fxIdx + |fx| <= |v|
    ensures |t| == |fx| + 1
    ensures forall i {:trigger t[i]} :: 0 <= i <= |fx| ==>
      t[i] == (if i < |fx| then fx[i] * sx[fxIdx + i] else 0.0) * v[fxIdx - 1 + i] +
              (if i >= 1 then fx[i - 1] else 0.0) * v[fxIdx - 1 + i]
  {
    seq(|fx| + 1, i requires 0 <= i <= |fx| =>
      (if i < |fx| then fx[i] * sx[fxIdx + i] else 0.0) * v[fxIdx - 1 + i] +
      (if i >= 1 then fx[i - 1] else 0.0) * v[fxIdx - 1 + i])
  }

  /** Distributing a row-0 entry over the vector entry it multiplies. */
  lemma {:induction false} EntryArith(k: real, a: real, b: real, x: real)
    ensures (k * (a + b)) * x == k * (a * x + b * x)
  {
  }

  /** One fertile column of row 0 of `L * v`. */
  lemma {:induction false} FertilityRowEntry(sx: seq<real>, fx: seq<real>, fertK: real, fxIdx: nat, v: seq<real>, i: nat)
    requires LeslieDims(sx, fx, fxIdx) && |v| == |sx| - 1 && i <= |fx|
    ensures Products(LeslieRow(sx, fx, fertK, fxIdx, 0), v)[fxIdx - 1..fxIdx + |fx|][i] ==
      fertK * FertilityTerms(sx, fx, fxIdx, v)[i]
  {
    var row := LeslieRow(sx, fx, fertK, fxIdx, 0);
    var p := Products(row, v);
    assert p[fxIdx - 1..fxIdx + |fx|][i] == p[fxIdx - 1 + i] == row[fxIdx - 1 + i] * v[fxIdx - 1 + i];
    assert row[fxIdx - 1 + i] == FertLeslie(sx, fx, fertK, fxIdx)[i];
    EntryArith(fertK, if i < |fx| then fx[i] * sx[fxIdx + i] else 0.0, if i >= 1 then fx[i - 1] else 0.0, v[fxIdx - 1 + i]);
  }

  /** Row 0 of `L * v` only involves the fertile columns. */
  lemma {:induction false} FertilityRowWindow(sx: seq<real>, fx: seq<real>, fertK: real, fxIdx: nat, v: seq<real>)
    requires LeslieDims(sx, fx, fxIdx) && |v| == |sx| - 1
    ensures LeslieTimes(sx, fx, fertK, fxIdx, v)[0] ==
      Sum(Products(LeslieRow(sx, fx, fertK, fxIdx, 0), v)[fxIdx - 1..fxIdx + |fx|])
  {
    var p := Products(LeslieRow(sx, fx, fertK, fxIdx, 0), v);
    var lo := fxIdx - 1;
    var hi := fxIdx + |fx|;
    forall c | 0 <= c < |p| && (c < lo || hi <= c)
      ensures p[c] == 0.0
    {
      FertilityRowZero(sx, fx, fertK, fxIdx, v, c);
    }
    SumWindow(p, lo, hi);
  }

  /** Outside the fertile columns, row 0 of the Leslie matrix is zero. */
  lemma {:induction false} FertilityRowZero(sx: seq<real>, fx: seq<real>, fertK: real, fxIdx: nat, v: seq<real>, c: nat)
    requires LeslieDims(sx, fx, fxIdx) && |v| == |sx| - 1
    requires c < |sx| - 1 && (c < fxIdx - 1 || fxIdx + |fx| <= c)
    ensures Products(LeslieRow(sx, fx, fertK, fxIdx, 0), v)[c] == 0.0
  {
    assert LeslieAt(sx, fx, fertK, fxIdx, 0, c) == 0.0;
  }

  /** Over the fertile columns, row 0 of `L * v` is `fertK` times FertilityTerms. */
  lemma {:induction false} FertilityRowScaled(sx: seq<real>, fx: seq<real>, fertK: real, fxIdx: nat, v: seq<real>)
    requires LeslieDims(sx, fx, fxIdx) && |v| == |sx| - 1
    ensures Sum(Products(LeslieRow(sx, fx, fertK, fxIdx, 0), v)[fxIdx - 1..fxIdx + |fx|]) ==
      fertK * Sum(FertilityTerms(sx, fx, fxIdx, v))
  {
    var w := Products(LeslieRow(sx, fx, fertK, fxIdx, 0), v)[fxIdx - 1..fxIdx + |fx|];
    var t := FertilityTerms(sx, fx, fxIdx, v);
    forall i | 0 <= i < |t|
      ensures w[i] == fertK * t[i]
    {
      FertilityRowEntry(sx, fx, fertK, fxIdx, v, i);
    }
    SumScale(fertK, t, w);
  }

  /** Summed over the fertile columns, the fertility terms regroup by fertile
      age into the births to survivors and the births to starting women. */
  lemma {:induction false} FertilityTermsTotal(sx: seq<real>, fx: seq<real>, fxIdx: nat, v: seq<real>)
    requires 1 <= fxIdx && fxIdx + |fx| <= |sx| && fxIdx + |fx| <= |v|
    ensures Sum(FertilityTerms(sx, fx, fxIdx, v)) ==
      Sum(SurvivorBirths(sx, fx, fxIdx, v)) + Sum(StartBirths(fx, fxIdx, v))
  {
    var t := FertilityTerms(sx, fx, fxIdx, v);
    var survivors := SurvivorBirths(sx, fx, fxIdx, v);
    var starters := StartBirths(fx, fxIdx, v);
    var u1 := survivors + [0.0];
    var u2 := [0.0] + starters;
    forall i | 0 <= i < |t|
      ensures t[i] == u1[i] + u2[i]
    {
      if i < |fx| {
        assert u1[i] == survivors[i];
      } else {
        assert u1[i] == 0.0;
      }
      if i >= 1 {
        assert u2[i] == starters[i - 1];
      } else {
        assert u2[i] == 0.0;
      }
    }
    SumAdd(u1, u2, t);
    SumConcat(survivors, [0.0]);
    SumConcat([0.0], starters);
    assert [0.0][..0] == [];
  }

  /** Row 0 of `L * v`: `fertK` times the fertility terms of the fertile
      columns (which FertilityTermsTotal regroups by fertile age). */
  lemma {:induction false} LeslieFertilityRow(sx: seq<real>, fx: seq<real>, fertK: real, fxIdx: nat, v: seq<real>)
    requires LeslieDims(sx, fx, fxIdx) && |v| == |sx| - 1
    ensures LeslieTimes(sx, fx, fertK, fxIdx, v)[0] == fertK * Sum(FertilityTerms(sx, fx, fxIdx, v))
  {
    FertilityRowWindow(sx, fx, fertK, fxIdx, v);
    FertilityRowScaled(sx, fx, fertK, fxIdx, v);
  }

  /** The shapes the Leslie projection of one period needs, for `n` age groups. */
  predicate LeslieFits(s: AgeSchedule, n: nat, fxIdx: nat)
  {
    |s.sx| == n + 1 && |s.gx| == n && LeslieDims(s.sx, s.fx, fxIdx) && 1.0 + s.srb != 0.0
  }

  /** Every period fits the Leslie projection of `n` age groups. */
  predicate AllLeslieFit(n: nat, scheds: seq<AgeSchedule>, fxIdx: nat)
  {
    forall t :: 0 <= t < |scheds| ==> LeslieFits(scheds[t], n, fxIdx)
  }

  /** One period of the Leslie projection: `L * (P + m/2) + m/2` with `m = P ⊙ gx`. */
  function LeslieStep(pop: seq<real>, s: AgeSchedule, interval: real, fxIdx: nat): (next: seq<real>)
    requires LeslieFits(s, |pop|, fxIdx)
    ensures |next| == |pop|
  {
    var m := Migrants(pop, s.gx);
    AddHalf(LeslieTimes(s.sx, s.fx, FertK(s.sx[0], s.srb, interval), fxIdx, AddHalf(pop, m)), m)
  }

  /** The population at the start of period `t` of the Leslie projection. */
  function LesliePopulationAt(basepop: seq<real>, scheds: seq<AgeSchedule>, interval: real, fxIdx: nat, t: nat): (pop: seq<real>)
    requires AllLeslieFit(|basepop|, scheds, fxIdx) && t <= |scheds|
    ensures |pop| == |basepop|
  {
    if t == 0 then basepop
    else LeslieStep(LesliePopulationAt(basepop, scheds, interval, fxIdx, t - 1), scheds[t - 1], interval, fxIdx)
  }

  /** Population columns 0 .. k of the Leslie projection. */
  function LeslieTrajectory(basepop: seq<real>, scheds: seq<AgeSchedule>, interval: real, fxIdx: nat, k: nat): (pops: seq<seq<real>>)
    requires AllLeslieFit(|basepop|, scheds, fxIdx) && k <= |scheds|
    ensures |pops| == k + 1 && pops[0] == basepop
    ensures forall t {:trigger pops[t]} :: 0 <= t <= k ==> pops[t] == LesliePopulationAt(basepop, scheds, interval, fxIdx, t)
  {
    seq(k + 1, t requires 0 <= t <= k => LesliePopulationAt(basepop, scheds, interval, fxIdx, t))
  }

  /** Projects `basepop` through every period with a freshly built Leslie
      matrix, column `step + 1` computed from column `step`. The result holds
      the population columns 0 .. |sx|. */
  method CcmppLeslie(basepop: seq<real>, sx: seq<seq<real>>, fx: seq<seq<real>>, gx: seq<seq<real>>,
                     srb: seq<real>, interval: real, fxIdx: nat)
    returns (population: seq<seq<real>>)
    requires |fx| == |sx| && |gx| == |sx| && |srb| == |sx|
    requires AllLeslieFit(|basepop|, Schedules(sx, fx, gx, srb), fxIdx)
    ensures population == LeslieTrajectory(basepop, Schedules(sx, fx, gx, srb), interval, fxIdx, |sx|)
  {
    ghost var scheds := Schedules(sx, fx, gx, srb);
    population := [basepop];
    for step := 0 to |sx|
      invariant population == LeslieTrajectory(basepop, scheds, interval, fxIdx, step)
    {
      assert scheds[step] == AgeSchedule(sx[step], fx[step], gx[step], srb[step]);
      var migrants := Migrants(population[step], gx[step]);
      var leslie := MakeLeslieMatrix(sx[step], fx[step], srb[step], interval, fxIdx);
      MatVecOfLeslie(leslie, sx[step], fx[step], FertK(sx[step][0], srb[step], interval), fxIdx,
                     AddHalf(population[step], migrants));
      population := population + [AddHalf(MatVec(leslie, AddHalf(population[step], migrants)), migrants)];
    }
  }
}
