/** The two formulations of one period agree: the population column the
    recursion writes equals `L * (P + m/2) + m/2` for the Leslie matrix `L`
    of the period, as long as the open age group is not fertile. */
module Equivalence {
  import opened Sums
  import opened Schedule
  import opened Projection
  import opened Leslie
  import opened StepLaws

  /** The fertile ages end below the open age group. */
  predicate InfertileOpenAge(s: AgeSchedule, n: nat, fxIdx: nat)
  {
    fxIdx + |s.fx| <= n - 1
  }

  /** No period's fertile ages reach the open age group. */
  predicate AllInfertileOpenAge(n: nat, scheds: seq<AgeSchedule>, fxIdx: nat)
  {
    forall t :: 0 <= t < |scheds| ==> InfertileOpenAge(scheds[t], n, fxIdx)
  }

  /** Every schedule the Leslie projection accepts, the recursion accepts. */
  lemma {:induction false} LeslieFitsFit(s: AgeSchedule, n: nat, fxIdx: nat)
    requires LeslieFits(s, n, fxIdx)
    ensures Fits(s, n, fxIdx)
  {
  }

  /** Above the first age group, the recursion's aging is the survival part
      of the Leslie matrix. */
  lemma {:induction false} AgingMatchesLeslie(h: seq<real>, sx: seq<real>, fx: seq<real>, fertK: real, fxIdx: nat, a: nat)
    requires LeslieDims(sx, fx, fxIdx) && |sx| == |h| + 1 && 1 <= a < |h|
    ensures LeslieTimes(sx, fx, fertK, fxIdx, h)[a] == Aged(h, Deaths(h, sx))[a]
  {
    if a < |h| - 1 {
      LeslieSurvivalRow(sx, fx, fertK, fxIdx, h, a);
      AgedSurvivors(h, sx, a);
    } else {
      LeslieOpenAgeRow(sx, fx, fertK, fxIdx, h);
      AgedOpenAge(h, sx);
    }
  }

  /** The first half of the period's births is half a period of the Leslie
      matrix's births to the women who start at a fertile age. */
  lemma {:induction false} StartBirthsMatch(h: seq<real>, fx: seq<real>, interval: real, fxIdx: nat)
    requires fxIdx + |fx| <= |h|
    ensures Sum(HalfBirths(fx, h, interval, fxIdx)) == 0.5 * interval * Sum(StartBirths(fx, fxIdx, h))
  {
    var start := StartBirths(fx, fxIdx, h);
    var half := HalfBirths(fx, h, interval, fxIdx);
    forall i | 0 <= i < |fx|
      ensures half[i] == 0.5 * interval * start[i]
    {
      assert half[i] == 0.5 * interval * fx[i] * h[fxIdx + i];
    }
    SumScale(0.5 * interval, start, half);
  }

  /** Half a period of births among survivors, regrouped as the Leslie
      matrix's fertility term `fx * sx` times the women before aging. */
  lemma {:induction false} SurvivorBirthArith(interval: real, rate: real, women: real, survival: real)
    ensures HalfPeriodBirths(interval, rate, Survived(women, survival)) == 0.5 * interval * (rate * survival * women)
  {
  }

  /** Aging moves the survivors of every group from `lo - 1` to `hi - 2` one
      group up, as long as none of them reaches the open age group. */
  lemma {:induction false} AgedRange(h: seq<real>, sx: seq<real>, lo: nat, hi: nat)
    requires |sx| == |h| + 1 && 1 <= lo <= hi <= |h| - 1
    ensures forall k {:trigger Aged(h, Deaths(h, sx))[k]} :: lo <= k < hi ==>
      Aged(h, Deaths(h, sx))[k] == Survived(h[k - 1], sx[k])
  {
    forall k | lo <= k < hi
      ensures Aged(h, Deaths(h, sx))[k] == Survived(h[k - 1], sx[k])
    {
      AgedSurvivors(h, sx, k);
    }
  }

  /** When the women `g` of every fertile age are the survivors of the age
      below, the births over half of the period are half a period of the
      Leslie matrix's births to the women who survive into a fertile age. */
  lemma {:induction false} SurvivorBirthsMatch(g: seq<real>, h: seq<real>, sx: seq<real>, fx: seq<real>, interval: real, fxIdx: nat)
    requires |g| == |h| && 1 <= fxIdx && fxIdx + |fx| <= |h| && fxIdx + |fx| <= |sx|
    requires forall k {:trigger g[k]} :: fxIdx <= k < fxIdx + |fx| ==> g[k] == Survived(h[k - 1], sx[k])
    ensures Sum(HalfBirths(fx, g, interval, fxIdx)) == 0.5 * interval * Sum(SurvivorBirths(sx, fx, fxIdx, h))
  {
    var survivors := SurvivorBirths(sx, fx, fxIdx, h);
    var half := HalfBirths(fx, g, interval, fxIdx);
    forall i | 0 <= i < |fx|
      ensures half[i] == 0.5 * interval * survivors[i]
    {
      assert g[fxIdx + i] == Survived(h[fxIdx + i - 1], sx[fxIdx + i]);
      SurvivorBirthArith(interval, fx[i], h[fxIdx + i - 1], sx[fxIdx + i]);
    }
    SumScale(0.5 * interval, survivors, half);
  }

  /** The recursion's births over the whole period, regrouped as the Leslie
      matrix counts them. */
  lemma {:induction false} BirthsTotal(h: seq<real>, s: AgeSchedule, interval: real, fxIdx: nat)
    requires LeslieFits(s, |h|, fxIdx) && InfertileOpenAge(s, |h|, fxIdx)
    ensures Sum(Plus(HalfBirths(s.fx, h, interval, fxIdx), HalfBirths(s.fx, Aged(h, Deaths(h, s.sx)), interval, fxIdx))) ==
      0.5 * interval * Sum(StartBirths(s.fx, fxIdx, h)) + 0.5 * interval * Sum(SurvivorBirths(s.sx, s.fx, fxIdx, h))
  {
    var g := Aged(h, Deaths(h, s.sx));
    var first := HalfBirths(s.fx, h, interval, fxIdx);
    var second := HalfBirths(s.fx, g, interval, fxIdx);
    SumAdd(first, second, Plus(first, second));
    StartBirthsMatch(h, s.fx, interval, fxIdx);
    AgedRange(h, s.sx, fxIdx, fxIdx + |s.fx|);
    SurvivorBirthsMatch(g, h, s.sx, s.fx, interval, fxIdx);
  }

  /** Row 0 of the Leslie matrix times `h`, by fertile age. */
  lemma {:induction false} LeslieBirthsTotal(h: seq<real>, s: AgeSchedule, interval: real, fxIdx: nat)
    requires LeslieFits(s, |h|, fxIdx)
    ensures LeslieTimes(s.sx, s.fx, FertK(s.sx[0], s.srb, interval), fxIdx, h)[0] ==
      FertK(s.sx[0], s.srb, interval) * (Sum(SurvivorBirths(s.sx, s.fx, fxIdx, h)) + Sum(StartBirths(s.fx, fxIdx, h)))
  {
    LeslieFertilityRow(s.sx, s.fx, FertK(s.sx[0], s.srb, interval), fxIdx, h);
    FertilityTermsTotal(s.sx, s.fx, fxIdx, h);
  }

  /** Dividing out the sex ratio and keeping the infants who survive, from
      the births of both halves of the period, is applying the factor `fertK`
      of the Leslie matrix to the births at the full rate. */
  lemma {:induction false} NewbornArith(sx0: real, srb: real, interval: real, total: real, newborns: real,
                                        survivors: real, start: real)
    requires 1.0 + srb != 0.0
    requires total == 0.5 * interval * start + 0.5 * interval * survivors && newborns == FemaleBirths(total, srb)
    ensures newborns - NonSurvivors(newborns, sx0) == FertK(sx0, srb, interval) * (survivors + start)
  {
    var q := 1.0 / (1.0 + srb);
    assert newborns == (0.5 * interval * (survivors + start)) * q;
    assert FertK(sx0, srb, interval) == (sx0 * 0.5 * interval) * q;
  }

  /** Row 0: the infants of the recursion who survive the period are the
      Leslie matrix's births at the full rate scaled by `fertK`, which
      LeslieBirthsTotal shows to be row 0 of the Leslie matrix times the
      population after the first half of the migrants. */
  lemma {:induction false} NewbornsMatchLeslie(h: seq<real>, s: AgeSchedule, interval: real, fxIdx: nat, newborns: real)
    requires LeslieFits(s, |h|, fxIdx) && InfertileOpenAge(s, |h|, fxIdx)
    requires newborns == FemaleBirths(Sum(Plus(HalfBirths(s.fx, h, interval, fxIdx),
                                               HalfBirths(s.fx, Aged(h, Deaths(h, s.sx)), interval, fxIdx))), s.srb)
    ensures newborns - NonSurvivors(newborns, s.sx[0]) ==
      FertK(s.sx[0], s.srb, interval) * (Sum(SurvivorBirths(s.sx, s.fx, fxIdx, h)) + Sum(StartBirths(s.fx, fxIdx, h)))
  {
    BirthsTotal(h, s, interval, fxIdx);
    var b := Plus(HalfBirths(s.fx, h, interval, fxIdx), HalfBirths(s.fx, Aged(h, Deaths(h, s.sx)), interval, fxIdx));
    NewbornArith(s.sx[0], s.srb, interval, Sum(b), newborns,
                 Sum(SurvivorBirths(s.sx, s.fx, fxIdx, h)), Sum(StartBirths(s.fx, fxIdx, h)));
  }

  /** Before the second half of the migrants, the recursion's column (aged
      cohorts with the surviving infants in front) is the Leslie matrix times
      the population after the first half. */
  lemma {:induction false} AgedMatchesLeslie(h: seq<real>, s: AgeSchedule, interval: real, fxIdx: nat, newborns: real)
    requires LeslieFits(s, |h|, fxIdx) && InfertileOpenAge(s, |h|, fxIdx)
    requires newborns == FemaleBirths(Sum(Plus(HalfBirths(s.fx, h, interval, fxIdx),
                                               HalfBirths(s.fx, Aged(h, Deaths(h, s.sx)), interval, fxIdx))), s.srb)
    ensures Aged(h, Deaths(h, s.sx))[0 := newborns - NonSurvivors(newborns, s.sx[0])] ==
      LeslieTimes(s.sx, s.fx, FertK(s.sx[0], s.srb, interval), fxIdx, h)
  {
    var fertK := FertK(s.sx[0], s.srb, interval);
    var g := Aged(h, Deaths(h, s.sx))[0 := newborns - NonSurvivors(newborns, s.sx[0])];
    var lh := LeslieTimes(s.sx, s.fx, fertK, fxIdx, h);
    forall a | 0 <= a < |h|
      ensures g[a] == lh[a]
    {
      if a == 0 {
        NewbornsMatchLeslie(h, s, interval, fxIdx, newborns);
        LeslieBirthsTotal(h, s, interval, fxIdx);
      } else {
        AgingMatchesLeslie(h, s.sx, s.fx, fertK, fxIdx, a);
      }
    }
  }

  /** One period: the recursion's next population column equals the Leslie
      projection's, `L * (P + m/2) + m/2`. */
  lemma {:induction false} StepMatchesLeslie(pop: seq<real>, s: AgeSchedule, interval: real, fxIdx: nat)
    requires LeslieFits(s, |pop|, fxIdx) && InfertileOpenAge(s, |pop|, fxIdx)
    ensures Fits(s, |pop|, fxIdx)
    ensures ProjectStep(pop, s, interval, fxIdx).population == LeslieStep(pop, s, interval, fxIdx)
  {
    LeslieFitsFit(s, |pop|, fxIdx);
    var m := Migrants(pop, s.gx);
    var h := AddHalf(pop, m);
    var d := Deaths(h, s.sx);
    var g := Aged(h, d);
    var b := Plus(HalfBirths(s.fx, h, interval, fxIdx), HalfBirths(s.fx, g, interval, fxIdx));
    var newborns := FemaleBirths(Sum(b), s.srb);
    var infantDeaths := NonSurvivors(newborns, s.sx[0]);
    StepParts(pop, s, interval, fxIdx, m, d, g, b, newborns, infantDeaths);
    AgedMatchesLeslie(h, s, interval, fxIdx, newborns);
  }

  /** Every schedule sequence the Leslie projection accepts, the recursion accepts. */
  lemma {:induction false} AllLeslieFitAllFit(n: nat, scheds: seq<AgeSchedule>, fxIdx: nat)
    requires AllLeslieFit(n, scheds, fxIdx)
    ensures AllFit(n, scheds, fxIdx)
  {
    forall t | 0 <= t < |scheds|
      ensures Fits(scheds[t], n, fxIdx)
    {
      LeslieFitsFit(scheds[t], n, fxIdx);
    }
  }

  /** `pops` are consecutive population columns of the Leslie projection
      of `n` age groups, starting at period 0. */
  predicate LeslieChain(n: nat, pops: seq<seq<real>>, scheds: seq<AgeSchedule>, interval: real, fxIdx: nat)
  {
    AllLeslieFit(n, scheds, fxIdx) && 1 <= |pops| <= |scheds| + 1 &&
    (forall t :: 0 <= t < |pops| ==> |pops[t]| == n) &&
    forall t :: 0 <= t < |pops| - 1 ==> pops[t + 1] == LeslieStep(pops[t], scheds[t], interval, fxIdx)
  }

  /** The same step applied to the same population gives the same population.
      Dafny knows this congruence; stating it over plain variables keeps
      ChainsAgree from unfolding the step. */
  lemma {:induction false} SameStep(lt: seq<real>, lp: seq<real>, pt: seq<real>, pp: seq<real>,
                                    s: AgeSchedule, interval: real, fxIdx: nat)
    requires LeslieFits(s, |lp|, fxIdx) && lp == pp
    requires lt == LeslieStep(lp, s, interval, fxIdx) && pt == LeslieStep(pp, s, interval, fxIdx)
    ensures lt == pt
  {
  }

  /** Two Leslie chains of the same length from the same base population
      are the same chain. */
  lemma {:induction false} ChainsAgree(n: nat, p: seq<seq<real>>, q: seq<seq<real>>, scheds: seq<AgeSchedule>,
                                       interval: real, fxIdx: nat)
    requires LeslieChain(n, p, scheds, interval, fxIdx) && LeslieChain(n, q, scheds, interval, fxIdx)
    requires |p| == |q| && p[0] == q[0]
    ensures p == q
  {
    var t := 1;
    while t < |p|
      invariant 1 <= t <= |p|
      invariant forall u :: 0 <= u < t ==> p[u] == q[u]
    {
      SameStep(p[t], p[t - 1], q[t], q[t - 1], scheds[t - 1], interval, fxIdx);
      t := t + 1;
    }
  }

  /** The Leslie projection's columns form a Leslie chain. */
  lemma {:induction false} LeslieTrajectoryChain(basepop: seq<real>, scheds: seq<AgeSchedule>, interval: real,
                                                 fxIdx: nat, k: nat)
    requires AllLeslieFit(|basepop|, scheds, fxIdx) && k <= |scheds|
    ensures LeslieChain(|basepop|, LeslieTrajectory(basepop, scheds, interval, fxIdx, k), scheds, interval, fxIdx)
  {
    var pops := LeslieTrajectory(basepop, scheds, interval, fxIdx, k);
    forall t | 0 <= t < |pops| - 1
      ensures pops[t + 1] == LeslieStep(pops[t], scheds[t], interval, fxIdx)
    {
      assert pops[t + 1] == LesliePopulationAt(basepop, scheds, interval, fxIdx, t + 1);
    }
  }

  /** One period of the recursion is one Leslie step, as long as the open
      age group of that period is not fertile. */
  lemma {:induction false} PeriodMatchesLeslie(basepop: seq<real>, scheds: seq<AgeSchedule>, interval: real,
                                               fxIdx: nat, t: nat)
    requires AllLeslieFit(|basepop|, scheds, fxIdx) && AllInfertileOpenAge(|basepop|, scheds, fxIdx)
    requires t < |scheds|
    ensures AllFit(|basepop|, scheds, fxIdx)
    ensures PopulationAt(basepop, scheds, interval, fxIdx, t + 1) ==
      LeslieStep(PopulationAt(basepop, scheds, interval, fxIdx, t), scheds[t], interval, fxIdx)
  {
    AllLeslieFitAllFit(|basepop|, scheds, fxIdx);
    StepMatchesLeslie(PopulationAt(basepop, scheds, interval, fxIdx, t), scheds[t], interval, fxIdx);
  }

  /** Without a fertile open age group, the recursion's columns form a
      Leslie chain. */
  lemma {:induction false} TrajectoryChain(basepop: seq<real>, scheds: seq<AgeSchedule>, interval: real,
                                           fxIdx: nat, k: nat)
    requires AllLeslieFit(|basepop|, scheds, fxIdx) && AllInfertileOpenAge(|basepop|, scheds, fxIdx)
    requires k <= |scheds|
    ensures AllFit(|basepop|, scheds, fxIdx)
    ensures LeslieChain(|basepop|, Trajectory(basepop, scheds, interval, fxIdx, k), scheds, interval, fxIdx)
  {
    AllLeslieFitAllFit(|basepop|, scheds, fxIdx);
    var pops := Trajectory(basepop, scheds, interval, fxIdx, k);
    forall t | 0 <= t < |pops| - 1
      ensures pops[t + 1] == LeslieStep(pops[t], scheds[t], interval, fxIdx)
    {
      PeriodMatchesLeslie(basepop, scheds, interval, fxIdx, t);
    }
  }

  /** The population columns 0 .. k of the recursion are those of the
      Leslie projection. */
  lemma {:induction false} TrajectoryMatchesLeslie(basepop: seq<real>, scheds: seq<AgeSchedule>, interval: real,
                                                   fxIdx: nat, k: nat)
    requires AllLeslieFit(|basepop|, scheds, fxIdx) && AllInfertileOpenAge(|basepop|, scheds, fxIdx)
    requires k <= |scheds|
    ensures AllFit(|basepop|, scheds, fxIdx)
    ensures LeslieTrajectory(basepop, scheds, interval, fxIdx, k) == Trajectory(basepop, scheds, interval, fxIdx, k)
  {
    AllLeslieFitAllFit(|basepop|, scheds, fxIdx);
    LeslieTrajectoryChain(basepop, scheds, interval, fxIdx, k);
    TrajectoryChain(basepop, scheds, interval, fxIdx, k);
    ChainsAgree(|basepop|, LeslieTrajectory(basepop, scheds, interval, fxIdx, k),
                Trajectory(basepop, scheds, interval, fxIdx, k), scheds, interval, fxIdx);
  }

  /** Without the infertile open age group the formulations part: two age
      groups, the second (open) one fertile and holding one woman, everyone
      surviving, no migration, `srb = 0` and `interval = 2`. The recursion
      also counts the second-half births of the women who stay in the open
      age group, and finds 2 infants. Row 0 of the Leslie matrix counts
      births to women who start the period at a fertile age and to those who
      age into one, but not the second-half births of women who stay in the
      open age group, and finds 1. */
  lemma {:induction false} FertileOpenAgeDiffers()
    ensures var s := AgeSchedule([1.0, 1.0, 1.0], [1.0], [0.0, 0.0], 0.0);
      LeslieFits(s, 2, 1) && !InfertileOpenAge(s, 2, 1) &&
      ProjectStep([0.0, 1.0], s, 2.0, 1).population[0] == 2.0 &&
      LeslieStep([0.0, 1.0], s, 2.0, 1)[0] == 1.0
  {
    var s := AgeSchedule([1.0, 1.0, 1.0], [1.0], [0.0, 0.0], 0.0);
    var pop := [0.0, 1.0];
    var m := Migrants(pop, s.gx);
    var h := AddHalf(pop, m);
    assert h == [0.0, 1.0];
    var r := ProjectStep(pop, s, 2.0, 1);
    StepOpenAge(pop, s, 2.0, 1);
    assert r.population[1] == 1.0;
    StepBirths(pop, s, 2.0, 1, 0);
    assert r.births == [2.0];
    SumOne(2.0);
    StepInfants(pop, s, 2.0, 1);
    StepNewborns(pop, s, 2.0, 1);
    var terms := FertilityTerms(s.sx, s.fx, 1, h);
    assert terms == [0.0, 1.0];
    SumAdjacentPair(terms, 0);
    LeslieFertilityRow(s.sx, s.fx, FertK(1.0, 0.0, 2.0), 1, h);
  }
}
