/** What one period of the recursion promises about the record it writes:
    migrants and cohort deaths, survivors aging one group up, births over
    both halves of the period, the newborns, and the balance of the whole
    population. */
module StepLaws {
  import opened Sums
  import opened Schedule
  import opened Projection

  /** Survivors among `count` people of whom the proportion `survival` survives. */
  function Survived(count: real, survival: real): real
  {
    count * survival
  }

  /** Those who do not die survive. */
  lemma {:induction false} Survivors(count: real, survival: real)
    ensures count - NonSurvivors(count, survival) == Survived(count, survival)
  {
  }

  /** The migrants of the period are the starting population times `gx`,
      and each cohort's deaths are those among its population after the
      first half of the migrants arrived. */
  lemma {:induction false} StepDeaths(pop: seq<real>, s: AgeSchedule, interval: real, fxIdx: nat)
    requires Fits(s, |pop|, fxIdx)
    ensures var r := ProjectStep(pop, s, interval, fxIdx);
      var h := AddHalf(pop, r.migrations);
      r.migrations == Migrants(pop, s.gx) &&
      forall a {:trigger r.cohortDeaths[a + 1]} :: 0 <= a < |pop| ==>
        r.cohortDeaths[a + 1] == NonSurvivors(h[a], s.sx[a + 1])
  {
  }

  /** Aging: above the first age group and below the open one, each group
      receives the survivors of the group below. */
  lemma {:induction false} AgedSurvivors(h: seq<real>, sx: seq<real>, a: nat)
    requires |sx| == |h| + 1 && 1 <= a < |h| - 1
    ensures Aged(h, Deaths(h, sx))[a] == Survived(h[a - 1], sx[a])
  {
    Survivors(h[a - 1], sx[a]);
  }

  /** Aging: the open age group receives the survivors of the group below
      and keeps its own survivors. */
  lemma {:induction false} AgedOpenAge(h: seq<real>, sx: seq<real>)
    requires |sx| == |h| + 1 && |h| >= 2
    ensures var n := |h|;
      Aged(h, Deaths(h, sx))[n - 1] == Survived(h[n - 2], sx[n - 1]) + Survived(h[n - 1], sx[n])
  {
    var n := |h|;
    Survivors(h[n - 2], sx[n - 1]);
    Survivors(h[n - 1], sx[n]);
  }

  /** Age group `a`, above the first and below the open one, ends the period
      with the survivors of the group below (after the first half of the
      migrants) plus the second half of its own migrants. */
  lemma {:induction false} StepSurvivors(pop: seq<real>, s: AgeSchedule, interval: real, fxIdx: nat, a: nat)
    requires Fits(s, |pop|, fxIdx) && 1 <= a < |pop| - 1
    ensures var r := ProjectStep(pop, s, interval, fxIdx);
      var h := AddHalf(pop, r.migrations);
      r.population[a] == Survived(h[a - 1], s.sx[a]) + 0.5 * r.migrations[a]
  {
    var h := AddHalf(pop, Migrants(pop, s.gx));
    AgedSurvivors(h, s.sx, a);
  }

  /** The open age group ends the period with the survivors of the group
      below it and its own survivors, plus the second half of its migrants. */
  lemma {:induction false} StepOpenAge(pop: seq<real>, s: AgeSchedule, interval: real, fxIdx: nat)
    requires Fits(s, |pop|, fxIdx) && |pop| >= 2
    ensures var r := ProjectStep(pop, s, interval, fxIdx);
      var h := AddHalf(pop, r.migrations);
      var n := |pop|;
      r.population[n - 1] == Survived(h[n - 2], s.sx[n - 1]) + Survived(h[n - 1], s.sx[n]) + 0.5 * r.migrations[n - 1]
  {
    var n := |pop|;
    var h := AddHalf(pop, Migrants(pop, s.gx));
    var r := ProjectStep(pop, s, interval, fxIdx);
    assert r.population[n - 1] == Aged(h, Deaths(h, s.sx))[n - 1] + 0.5 * r.migrations[n - 1];
    AgedOpenAge(h, s.sx);
  }

  /** Births at fertile age `i` (age group `k = fxIdx + i`, not the first):
      half a period at the rate `fx[i]` for the women of that group after
      the first half of the migrants, and half a period for the women of
      that group after aging, who are the next population of the group less
      the second half of its migrants. */
  lemma {:induction false} StepBirths(pop: seq<real>, s: AgeSchedule, interval: real, fxIdx: nat, i: nat)
    requires Fits(s, |pop|, fxIdx) && i < |s.fx| && fxIdx + i >= 1
    ensures var r := ProjectStep(pop, s, interval, fxIdx);
      var h := AddHalf(pop, r.migrations);
      var k := fxIdx + i;
      r.births[i] == HalfPeriodBirths(interval, s.fx[i], h[k]) +
                     HalfPeriodBirths(interval, s.fx[i], r.population[k] - 0.5 * r.migrations[k])
  {
    var m := Migrants(pop, s.gx);
    var h := AddHalf(pop, m);
    var g := Aged(h, Deaths(h, s.sx));
    var r := ProjectStep(pop, s, interval, fxIdx);
    assert r.population[fxIdx + i] - 0.5 * m[fxIdx + i] == g[fxIdx + i];
  }

  /** Undoing the division by `1 + srb`: the female births and `srb` males
      per female make up all births. */
  lemma {:induction false} FemaleShare(births: real, srb: real)
    requires 1.0 + srb != 0.0
    ensures FemaleBirths(births, srb) * (1.0 + srb) == births
  {
  }

  /** The infants are the female share of all births of the period, so
      that `infants * (1 + srb)` is the total; those of them who die are the
      first cohort deaths. */
  lemma {:induction false} StepInfants(pop: seq<real>, s: AgeSchedule, interval: real, fxIdx: nat)
    requires Fits(s, |pop|, fxIdx)
    ensures var r := ProjectStep(pop, s, interval, fxIdx);
      r.infants == FemaleBirths(Sum(r.births), s.srb) && r.infants * (1.0 + s.srb) == Sum(r.births) &&
      r.cohortDeaths[0] == NonSurvivors(r.infants, s.sx[0])
  {
    var r := ProjectStep(pop, s, interval, fxIdx);
    FemaleShare(Sum(r.births), s.srb);
  }

  /** The first age group ends the period with the surviving infants plus
      the second half of its migrants. */
  lemma {:induction false} StepNewborns(pop: seq<real>, s: AgeSchedule, interval: real, fxIdx: nat)
    requires Fits(s, |pop|, fxIdx)
    ensures var r := ProjectStep(pop, s, interval, fxIdx);
      r.population[0] == Survived(r.infants, s.sx[0]) + 0.5 * r.migrations[0]
  {
    var r := ProjectStep(pop, s, interval, fxIdx);
    Survivors(r.infants, s.sx[0]);
  }

  /** Adding half of the migrants adds half of their total. */
  lemma {:induction false} SumAddHalf(v: seq<real>, m: seq<real>)
    requires |m| == |v|
    ensures Sum(AddHalf(v, m)) == Sum(v) + 0.5 * Sum(m)
  {
    var half := seq(|m|, a requires 0 <= a < |m| => 0.5 * m[a]);
    SumScale(0.5, m, half);
    SumAdd(v, half, AddHalf(v, m));
  }

  /** Aging loses nobody but the dead: above the first age group, the aged
      population totals the starting population less its deaths. */
  lemma {:induction false} AgedTotal(h: seq<real>, d: seq<real>)
    requires |d| == |h| >= 2
    ensures Sum(Aged(h, d)[1..]) == Sum(h) - Sum(d)
  {
    var n := |h|;
    var g := Aged(h, d);
    var u := seq(n, a requires 0 <= a < n => h[a] - d[a]);
    SumAdd(u, d, h);
    var front := u[..n - 1];
    assert |front| == n - 1;
    forall a | 0 <= a < n - 1
      ensures g[1..][a] == front[a] + 0.0 + (if a == n - 2 then u[n - 1] else 0.0)
    {
      assert g[1..][a] == g[a + 1];
    }
    SumEnds(front, g[1..], 0.0, u[n - 1]);
  }

  /** The demographic balance of a period: the population at its end is the
      population at its start, plus the migrants, plus the infants, less every
      cohort death (infants included). It needs a second age group, because
      with a single one the newborns overwrite the survivors of the open age
      group. */
  lemma {:induction false} StepBalance(pop: seq<real>, s: AgeSchedule, interval: real, fxIdx: nat)
    requires Fits(s, |pop|, fxIdx) && |pop| >= 2
    ensures var r := ProjectStep(pop, s, interval, fxIdx);
      Sum(r.population) == Sum(pop) + Sum(r.migrations) + r.infants - Sum(r.cohortDeaths)
  {
    var m := Migrants(pop, s.gx);
    var h := AddHalf(pop, m);
    var d := Deaths(h, s.sx);
    var g := Aged(h, d);
    var b := Plus(HalfBirths(s.fx, h, interval, fxIdx), HalfBirths(s.fx, g, interval, fxIdx));
    var newborns := FemaleBirths(Sum(b), s.srb);
    var infantDeaths := NonSurvivors(newborns, s.sx[0]);
    StepParts(pop, s, interval, fxIdx, m, d, g, b, newborns, infantDeaths);
    var first := g[0 := newborns - infantDeaths];
    SumAddHalf(first, m);
    SumAddHalf(pop, m);
    SumFront(first);
    assert first[1..] == g[1..];
    AgedTotal(h, d);
    // Cohort deaths: the infant deaths first, then one entry per age group.
    SumFront([infantDeaths] + d);
    assert ([infantDeaths] + d)[1..] == d;
  }
}
