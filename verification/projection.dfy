/** The recursive (cohort-component) formulation of the projection: the
    `PopulationProjection` object that owns the population, cohort deaths,
    births, infants and migrations matrices, fills one period at a time in
    place, and reports period deaths; and `ccmpp`, which seeds and runs it. */
module Projection {
  import opened Sums
  import opened Schedule

  /** Deaths among `count` people of whom the proportion `survival` survives. */
  function NonSurvivors(count: real, survival: real): real
  {
    count * (1.0 - survival)
  }

  /** Deaths in each cohort during the period, `h[a] * (1 - sx[a + 1])`, for
      the population `h` that received the first half of the migrants. */
  function Deaths(h: seq<real>, sx: seq<real>): (d: seq<real>)
    requires |sx| == |h| + 1
    ensures |d| == |h|
    ensures forall a {:trigger d[a]} :: 0 <= a < |h| ==> d[a] == NonSurvivors(h[a], sx[a + 1])
  {
    seq(|h|, a requires 0 <= a < |h| => NonSurvivors(h[a], sx[a + 1]))
  }

  /** The population after aging, before the newborns are placed: every age
      group above the first receives the survivors of the group below, and the
      open (last) age group also keeps its own survivors. The first entry is
      still the pre-aging value; the step replaces it afterwards. */
  function Aged(h: seq<real>, d: seq<real>): (g: seq<real>)
    requires |d| == |h| >= 1
    ensures |g| == |h|
    ensures forall a {:trigger g[a]} :: 0 <= a < |h| ==>
      g[a] == (if a == 0 then h[0] else h[a - 1] - d[a - 1]) + (if a == |h| - 1 then h[|h| - 1] - d[|h| - 1] else 0.0)
  {
    var n := |h|;
    seq(n, a requires 0 <= a < n =>
      (if a == 0 then h[0] else h[a - 1] - d[a - 1]) + (if a == n - 1 then h[n - 1] - d[n - 1] else 0.0))
  }

  /** Births to `women` at fertility rate `rate` over half of a period of
      length `interval`. */
  function HalfPeriodBirths(interval: real, rate: real, women: real): real
  {
    0.5 * interval * rate * women
  }

  /** Births over half of the period from the women `v` of the fertile ages,
      which start at age group `fxIdx`. */
  function HalfBirths(fx: seq<real>, v: seq<real>, interval: real, fxIdx: nat): (b: seq<real>)
    requires fxIdx + |fx| <= |v|
    ensures |b| == |fx|
    ensures forall i {:trigger b[i]} :: 0 <= i < |fx| ==> b[i] == HalfPeriodBirths(interval, fx[i], v[fxIdx + i])
  {
    seq(|fx|, i requires 0 <= i < |fx| => HalfPeriodBirths(interval, fx[i], v[fxIdx + i]))
  }

  /** The female share of `births` when `srb` males are born per female. */
  function FemaleBirths(births: real, srb: real): real
    requires 1.0 + srb != 0.0
  {
    births / (1.0 + srb)
  }

  /** Everything one period writes: the next population column and this
      period's migrations, cohort deaths (infants first, then one row per age
      group), births by fertile age and the number of infants. */
  datatype StepResult = StepResult(population: seq<real>, migrations: seq<real>, cohortDeaths: seq<real>,
                                   births: seq<real>, infants: real)

  /** One period of the recursion, from population `pop` under schedule `s`. */
  function ProjectStep(pop: seq<real>, s: AgeSchedule, interval: real, fxIdx: nat): (r: StepResult)
    requires Fits(s, |pop|, fxIdx)
    ensures |r.population| == |pop| && |r.migrations| == |pop|
    ensures |r.cohortDeaths| == |pop| + 1 && |r.births| == |s.fx|
  {
    var m := Migrants(pop, s.gx);
    var h := AddHalf(pop, m);
    var d := Deaths(h, s.sx);
    var g := Aged(h, d);
    var b := Plus(HalfBirths(s.fx, h, interval, fxIdx), HalfBirths(s.fx, g, interval, fxIdx));
    var infants := FemaleBirths(Sum(b), s.srb);
    var infantDeaths := NonSurvivors(infants, s.sx[0]);
    StepResult(AddHalf(g[0 := infants - infantDeaths], m), m, [infantDeaths] + d, b, infants)
  }

  /** What period `t` of the recursion records: the population at its end,
      and its migrations, cohort deaths, births and infants. Each period
      starts from the population the previous one ended with, the first from
      `basepop`. */
  function PeriodRecord(basepop: seq<real>, scheds: seq<AgeSchedule>, interval: real, fxIdx: nat, t: nat): (r: StepResult)
    requires AllFit(|basepop|, scheds, fxIdx) && t < |scheds|
    ensures |r.population| == |basepop|
    decreases t, 1
  {
    ProjectStep(PopulationAt(basepop, scheds, interval, fxIdx, t), scheds[t], interval, fxIdx)
  }

  /** The population at the start of period `t`. */
  function PopulationAt(basepop: seq<real>, scheds: seq<AgeSchedule>, interval: real, fxIdx: nat, t: nat): (pop: seq<real>)
    requires AllFit(|basepop|, scheds, fxIdx) && t <= |scheds|
    ensures |pop| == |basepop|
    decreases t, 0
  {
    if t == 0 then basepop else PeriodRecord(basepop, scheds, interval, fxIdx, t - 1).population
  }

  /** Population columns 0 .. k of the recursion. */
  function Trajectory(basepop: seq<real>, scheds: seq<AgeSchedule>, interval: real, fxIdx: nat, k: nat): (pops: seq<seq<real>>)
    requires AllFit(|basepop|, scheds, fxIdx) && k <= |scheds|
    ensures |pops| == k + 1 && pops[0] == basepop
    ensures forall t {:trigger pops[t]} :: 0 <= t <= k ==> pops[t] == PopulationAt(basepop, scheds, interval, fxIdx, t)
  {
    seq(k + 1, t requires 0 <= t <= k => PopulationAt(basepop, scheds, interval, fxIdx, t))
  }

  /** Periods run in order: the population at the start of period `t`
      depends on the schedules of the periods before `t` only. */
  lemma {:induction false} PopulationAtPrefix(basepop: seq<real>, scheds: seq<AgeSchedule>, other: seq<AgeSchedule>,
                                              interval: real, fxIdx: nat, t: nat)
    requires AllFit(|basepop|, scheds, fxIdx) && AllFit(|basepop|, other, fxIdx)
    requires t <= |scheds| && t <= |other| && scheds[..t] == other[..t]
    ensures PopulationAt(basepop, scheds, interval, fxIdx, t) == PopulationAt(basepop, other, interval, fxIdx, t)
    decreases t
  {
    if t > 0 {
      assert scheds[..t - 1] == scheds[..t][..t - 1];
      assert other[..t - 1] == other[..t][..t - 1];
      PopulationAtPrefix(basepop, scheds, other, interval, fxIdx, t - 1);
      assert scheds[t - 1] == scheds[..t][t - 1];
    }
  }

  /** Running all periods and keeping columns 0 .. k is running the first
      `k` periods only. */
  lemma {:induction false} TrajectoryPrefix(basepop: seq<real>, scheds: seq<AgeSchedule>, interval: real,
                                            fxIdx: nat, k: nat)
    requires AllFit(|basepop|, scheds, fxIdx) && k <= |scheds|
    ensures AllFit(|basepop|, scheds[..k], fxIdx)
    ensures Trajectory(basepop, scheds, interval, fxIdx, |scheds|)[..k + 1] ==
      Trajectory(basepop, scheds[..k], interval, fxIdx, k)
  {
    var all := Trajectory(basepop, scheds, interval, fxIdx, |scheds|);
    var first := Trajectory(basepop, scheds[..k], interval, fxIdx, k);
    forall t | 0 <= t <= k
      ensures all[..k + 1][t] == first[t]
    {
      assert scheds[..t] == scheds[..k][..t];
      PopulationAtPrefix(basepop, scheds, scheds[..k], interval, fxIdx, t);
    }
  }

  /** Period deaths of one period from its `n + 1` cohort deaths: each age
      group takes half of the deaths of the two cohorts that pass through it,
      the first age group also the other half of the infant deaths and the
      open age group the other half of its own survivors' deaths. */
  function PeriodDeathsColumn(cd: seq<real>): (pd: seq<real>)
    requires |cd| >= 2
    ensures |pd| == |cd| - 1
    ensures forall a {:trigger pd[a]} :: 0 <= a < |cd| - 1 ==>
      pd[a] == 0.5 * cd[a] + 0.5 * cd[a + 1] + (if a == 0 then 0.5 * cd[0] else 0.0)
                                              + (if a == |cd| - 2 then 0.5 * cd[|cd| - 1] else 0.0)
  {
    var n := |cd| - 1;
    var halves := seq(n, a requires 0 <= a < n => 0.5 * cd[a] + 0.5 * cd[a + 1]);
    var withInfants := halves[0 := halves[0] + 0.5 * cd[0]];
    withInfants[n - 1 := withInfants[n - 1] + 0.5 * cd[n]]
  }

  /** The contents of a matrix stored column by column. */
  ghost function Columns(cols: seq<array<real>>): (m: seq<seq<real>>)
    reads cols
    ensures |m| == |cols|
    ensures forall t {:trigger m[t]} :: 0 <= t < |cols| ==> m[t] == cols[t][..]
  {
    seq(|cols|, t requires 0 <= t < |cols| reads cols => cols[t][..])
  }

  /** No column is stored twice. */
  ghost predicate Distinct(cols: seq<array<real>>)
  {
    forall s, t :: 0 <= s < t < |cols| ==> cols[s] != cols[t]
  }

  /** No column of `a` is a column of `b`. */
  ghost predicate Apart(a: seq<array<real>>, b: seq<array<real>>)
  {
    forall s, t :: 0 <= s < |a| && 0 <= t < |b| ==> a[s] != b[t]
  }

  /** Allocates a `rows` by `count` matrix as `count` new columns. */
  method NewColumns(rows: nat, count: nat) returns (cols: seq<array<real>>)
    ensures |cols| == count && Distinct(cols)
    ensures forall t :: 0 <= t < count ==> fresh(cols[t]) && cols[t].Length == rows
  {
    cols := [];
    for t := 0 to count
      invariant |cols| == t && Distinct(cols)
      invariant forall s :: 0 <= s < t ==> fresh(cols[s]) && cols[s].Length == rows
    {
      var col := new real[rows];
      cols := cols + [col];
    }
  }

  /** `dst := src`, entry by entry. */
  method CopyColumn(src: array<real>, dst: array<real>)
    requires src.Length == dst.Length && src != dst
    modifies dst
    ensures dst[..] == src[..]
  {
    forall a | 0 <= a < dst.Length {
      dst[a] := src[a];
    }
  }

  /** The migrants of the period: `dst := pop ⊙ gx`. */
  method SetMigrants(dst: array<real>, pop: array<real>, gx: seq<real>)
    requires dst.Length == pop.Length == |gx| && dst != pop
    modifies dst
    ensures dst[..] == Migrants(pop[..], gx)
  {
    forall a | 0 <= a < dst.Length {
      dst[a] := pop[a] * gx[a];
    }
    assert forall a :: 0 <= a < dst.Length ==> dst[a] == Migrants(pop[..], gx)[a];
  }

  /** Half of the migrants join the population: `pop += 0.5 * mig`. */
  method AddHalfMigrants(pop: array<real>, mig: array<real>)
    requires pop.Length == mig.Length && pop != mig
    modifies pop
    ensures pop[..] == AddHalf(old(pop[..]), mig[..])
  {
    forall a | 0 <= a < pop.Length {
      pop[a] := pop[a] + 0.5 * mig[a];
    }
  }

  /** Cohort deaths of every age group, into rows 1 .. n; row 0 (infants)
      is left for later. */
  method SetCohortDeaths(cd: array<real>, pop: array<real>, sx: seq<real>)
    requires cd.Length == pop.Length + 1 == |sx| && cd != pop
    modifies cd
    ensures cd[1..] == Deaths(pop[..], sx) && cd[0] == old(cd[0])
  {
    forall a | 1 <= a < cd.Length {
      cd[a] := NonSurvivors(pop[a - 1], sx[a]);
    }
    assert forall a :: 0 <= a < pop.Length ==> cd[1..][a] == cd[a + 1] == Deaths(pop[..], sx)[a];
  }

  /** Births over the first half of the period. */
  method SetBirths(births: array<real>, fx: seq<real>, pop: array<real>, interval: real, fxIdx: nat)
    requires births.Length == |fx| && fxIdx + |fx| <= pop.Length && births != pop
    modifies births
    ensures births[..] == HalfBirths(fx, pop[..], interval, fxIdx)
  {
    forall i | 0 <= i < births.Length {
      births[i] := HalfPeriodBirths(interval, fx[i], pop[fxIdx + i]);
    }
    assert forall i :: 0 <= i < births.Length ==> births[i] == HalfBirths(fx, pop[..], interval, fxIdx)[i];
  }

  /** Births over the second half of the period are added. */
  method AddBirths(births: array<real>, fx: seq<real>, pop: array<real>, interval: real, fxIdx: nat)
    requires births.Length == |fx| && fxIdx + |fx| <= pop.Length && births != pop
    modifies births
    ensures births[..] == Plus(old(births[..]), HalfBirths(fx, pop[..], interval, fxIdx))
  {
    forall i | 0 <= i < births.Length {
      births[i] := births[i] + HalfPeriodBirths(interval, fx[i], pop[fxIdx + i]);
    }
    assert forall i :: 0 <= i < births.Length ==>
      births[i] == Plus(old(births[..]), HalfBirths(fx, pop[..], interval, fxIdx))[i];
  }

  /** Aging: from the oldest age group down, each group receives the
      survivors of the group below it (`pop[a - 1] - cd[a]`); then the open
      age group adds its own survivors, taken before the loop. */
  method AgeCohorts(pop: array<real>, cd: array<real>)
    requires pop.Length >= 1 && cd.Length == pop.Length + 1 && pop != cd
    modifies pop
    ensures pop[..] == Aged(old(pop[..]), cd[1..])
  {
    ghost var h := pop[..];
    ghost var d := cd[1..];
    var n := pop.Length;
    var openAgeSurvivors := pop[n - 1] - cd[n];
    var age := n - 1;
    while age > 0
      invariant 0 <= age <= n - 1
      invariant forall a :: 0 <= a <= age ==> pop[a] == h[a]
      invariant forall a {:trigger pop[a]} :: age < a < n ==> pop[a] == h[a - 1] - d[a - 1]
      decreases age
    {
      pop[age] := pop[age - 1] - cd[age];
      age := age - 1;
    }
    pop[n - 1] := pop[n - 1] + openAgeSurvivors;
    assert forall a :: 0 <= a < n ==> pop[a] == Aged(h, d)[a];
  }

  /** ProjectStep assembled from its intermediate values. */
  lemma StepParts(pop: seq<real>, s: AgeSchedule, interval: real, fxIdx: nat, m: seq<real>, d: seq<real>,
                  g: seq<real>, b: seq<real>, newborns: real, infantDeaths: real)
    requires Fits(s, |pop|, fxIdx)
    requires m == Migrants(pop, s.gx) && d == Deaths(AddHalf(pop, m), s.sx) && g == Aged(AddHalf(pop, m), d)
    requires b == Plus(HalfBirths(s.fx, AddHalf(pop, m), interval, fxIdx), HalfBirths(s.fx, g, interval, fxIdx))
    requires newborns == FemaleBirths(Sum(b), s.srb) && infantDeaths == NonSurvivors(newborns, s.sx[0])
    ensures var r := ProjectStep(pop, s, interval, fxIdx);
      r.population == AddHalf(g[0 := newborns - infantDeaths], m) && r.migrations == m &&
      r.cohortDeaths == [infantDeaths] + d && r.births == b && r.infants == newborns
  {
    var h := AddHalf(pop, m);
    var r := ProjectStep(pop, s, interval, fxIdx);
    assert r.migrations == m;
    assert r.births == b;
    assert r.infants == newborns;
    assert r.cohortDeaths == [infantDeaths] + d;
    assert Aged(h, Deaths(h, s.sx)) == g;
    assert r.population == AddHalf(g[0 := newborns - infantDeaths], m);
  }

  /** The part of a period before the newborns are known: the migrants,
      the first half of them joining, cohort deaths, births over the first
      half of the period, aging, and births over the second half. */
  method AgeAndBear(current: array<real>, populationT: array<real>, migrationsT: array<real>,
                    cohortDeathsT: array<real>, birthsT: array<real>, s: AgeSchedule, interval: real, fxIdx: nat)
    requires Fits(s, current.Length, fxIdx)
    requires populationT.Length == migrationsT.Length == current.Length
    requires cohortDeathsT.Length == current.Length + 1 && birthsT.Length == |s.fx|
    requires current != populationT && current != migrationsT && current != cohortDeathsT && current != birthsT
    requires populationT != migrationsT && populationT != cohortDeathsT && populationT != birthsT
    requires migrationsT != cohortDeathsT && migrationsT != birthsT && cohortDeathsT != birthsT
    modifies populationT, migrationsT, cohortDeathsT, birthsT
    ensures var m := Migrants(old(current[..]), s.gx);
      var h := AddHalf(old(current[..]), m);
      var d := Deaths(h, s.sx);
      var g := Aged(h, d);
      migrationsT[..] == m && cohortDeathsT[1..] == d && populationT[..] == g &&
      birthsT[..] == Plus(HalfBirths(s.fx, h, interval, fxIdx), HalfBirths(s.fx, g, interval, fxIdx))
  {
    CopyColumn(current, populationT);
    SetMigrants(migrationsT, populationT, s.gx);
    AddHalfMigrants(populationT, migrationsT);
    ghost var h := populationT[..];
    SetCohortDeaths(cohortDeathsT, populationT, s.sx);
    SetBirths(birthsT, s.fx, populationT, interval, fxIdx);
    AgeCohorts(populationT, cohortDeathsT);
    AddBirths(birthsT, s.fx, populationT, interval, fxIdx);
  }

  /** One period on the columns of a projection: reads the population
      column `current`, writes the next population column, the period's
      migrations, cohort deaths and births columns and entry `step` of
      `infants`. */
  method ProjectColumns(current: array<real>, populationT: array<real>, migrationsT: array<real>,
                        cohortDeathsT: array<real>, birthsT: array<real>, infants: array<real>,
                        step: nat, s: AgeSchedule, interval: real, fxIdx: nat)
    requires Fits(s, current.Length, fxIdx)
    requires populationT.Length == migrationsT.Length == current.Length
    requires cohortDeathsT.Length == current.Length + 1 && birthsT.Length == |s.fx| && step < infants.Length
    requires current != populationT && current != migrationsT && current != cohortDeathsT && current != birthsT
    requires populationT != migrationsT && populationT != cohortDeathsT && populationT != birthsT
    requires migrationsT != cohortDeathsT && migrationsT != birthsT && cohortDeathsT != birthsT
    requires infants != current && infants != populationT && infants != migrationsT
    requires infants != cohortDeathsT && infants != birthsT
    modifies populationT, migrationsT, cohortDeathsT, birthsT, infants
    ensures var r := ProjectStep(old(current[..]), s, interval, fxIdx);
      populationT[..] == r.population && migrationsT[..] == r.migrations &&
      cohortDeathsT[..] == r.cohortDeaths && birthsT[..] == r.births &&
      infants[..] == old(infants[..])[step := r.infants]
  {
    AgeAndBear(current, populationT, migrationsT, cohortDeathsT, birthsT, s, interval, fxIdx);
    var newborns := FemaleBirths(Sum(birthsT[..]), s.srb);
    var infantDeaths := NonSurvivors(newborns, s.sx[0]);
    ghost var g := populationT[..];
    ghost var d := cohortDeathsT[1..];
    PlaceNewborns(populationT, migrationsT, cohortDeathsT, infants, step, newborns, infantDeaths);
    StepParts(old(current[..]), s, interval, fxIdx, migrationsT[..], d, g, birthsT[..], newborns, infantDeaths);
  }

  /** The end of a period: the newborns and their deaths are recorded, the
      survivors fill the first age group, and the second half of the
      migrants joins. */
  method PlaceNewborns(populationT: array<real>, migrationsT: array<real>, cohortDeathsT: array<real>,
                       infants: array<real>, step: nat, newborns: real, infantDeaths: real)
    requires populationT.Length == migrationsT.Length >= 1 && cohortDeathsT.Length >= 1 && step < infants.Length
    requires populationT != migrationsT && populationT != cohortDeathsT && migrationsT != cohortDeathsT
    requires infants != populationT && infants != migrationsT && infants != cohortDeathsT
    modifies populationT, cohortDeathsT, infants
    ensures infants[..] == old(infants[..])[step := newborns]
    ensures cohortDeathsT[..] == [infantDeaths] + old(cohortDeathsT[1..])
    ensures populationT[..] == AddHalf(old(populationT[..])[0 := newborns - infantDeaths], migrationsT[..])
  {
    infants[step] := newborns;
    cohortDeathsT[0] := infantDeaths;
    assert cohortDeathsT[..] == [infantDeaths] + old(cohortDeathsT[1..]);
    populationT[0] := newborns - infantDeaths;
    AddHalfMigrants(populationT, migrationsT);
  }

  /** The projection of `nAges` age groups over `nPeriods` periods. Every
      matrix is stored column-major, as one array per period, so that a step
      works on the columns of its period in place. */
  class PopulationProjection {
    const nAges: nat
    const nPeriods: nat
    const nFx: nat
    const fxIdx: nat
    const interval: real

    /** Schedules, one column per period. */
    const sx: seq<seq<real>>
    const fx: seq<seq<real>>
    const gx: seq<seq<real>>
    const srb: seq<real>

    const population: seq<array<real>>
    const cohortDeaths: seq<array<real>>
    const births: seq<array<real>>
    const infants: array<real>
    const migrations: seq<array<real>>

    /** The matrices have the shapes the constructor gives them, and no
        column is shared. */
    ghost predicate Valid()
      reads this
    {
      |population| == nPeriods + 1 && |cohortDeaths| == nPeriods && |births| == nPeriods &&
      |migrations| == nPeriods && infants.Length == nPeriods &&
      (forall t :: 0 <= t < |population| ==> population[t].Length == nAges) &&
      (forall t :: 0 <= t < nPeriods ==> cohortDeaths[t].Length == nAges + 1) &&
      (forall t :: 0 <= t < nPeriods ==> births[t].Length == nFx) &&
      (forall t :: 0 <= t < nPeriods ==> migrations[t].Length == nAges) &&
      Distinct(population) && Distinct(cohortDeaths) && Distinct(births) && Distinct(migrations) &&
      Apart(population, cohortDeaths) && Apart(population, births) && Apart(population, migrations) &&
      Apart(cohortDeaths, births) && Apart(cohortDeaths, migrations) && Apart(births, migrations) &&
      infants !in population && infants !in cohortDeaths && infants !in births && infants !in migrations
    }

    /** The schedule of period `t`. */
    function Sched(t: nat): AgeSchedule
      reads this
      requires t < |sx| && t < |fx| && t < |gx| && t < |srb|
    {
      AgeSchedule(sx[t], fx[t], gx[t], srb[t])
    }

    /** What step `t` relies on: the schedules reach period `t`, whose shapes
        fit the age groups, and the fertility column has `nFx` rates. */
    ghost predicate StepFits(t: nat)
      reads this
    {
      t < nPeriods && t < |sx| && t < |fx| && t < |gx| && t < |srb| &&
      Fits(Sched(t), nAges, fxIdx) && |fx[t]| == nFx
    }

    /** Allocates the matrices and sets column 0 of the population to `basepop`. */
    constructor(nAges: nat, nPeriods: nat, nFx: nat, fxIdx: nat, interval: real, basepop: seq<real>,
                sx: seq<seq<real>>, fx: seq<seq<real>>, gx: seq<seq<real>>, srb: seq<real>)
      requires |basepop| == nAges
      ensures Valid()
      ensures this.nAges == nAges && this.nPeriods == nPeriods && this.nFx == nFx && this.fxIdx == fxIdx
      ensures this.interval == interval
      ensures this.sx == sx && this.fx == fx && this.gx == gx && this.srb == srb
      ensures population[0][..] == basepop
      ensures fresh(infants)
      ensures forall t :: 0 <= t <= nPeriods ==> fresh(population[t])
      ensures forall t :: 0 <= t < nPeriods ==>
        fresh(cohortDeaths[t]) && fresh(births[t]) && fresh(migrations[t])
    {
      this.nAges := nAges;
      this.nPeriods := nPeriods;
      this.nFx := nFx;
      this.fxIdx := fxIdx;
      this.interval := interval;
      this.sx := sx;
      this.fx := fx;
      this.gx := gx;
      this.srb := srb;
      var pop := NewColumns(nAges, nPeriods + 1);
      var deaths := NewColumns(nAges + 1, nPeriods);
      var bir := NewColumns(nFx, nPeriods);
      var mig := NewColumns(nAges, nPeriods);
      population := pop;
      cohortDeaths := deaths;
      births := bir;
      migrations := mig;
      infants := new real[nPeriods];
      new;
      var base := pop[0];
      forall a | 0 <= a < nAges {
        base[a] := basepop[a];
      }
    }

    /** Everything period `t` has written: the population at its end and its
        migrations, cohort deaths, births and infants. */
    ghost function Recorded(t: nat): StepResult
      reads this, infants, population, migrations, cohortDeaths, births
      requires Valid() && t < nPeriods
    {
      StepResult(population[t + 1][..], migrations[t][..], cohortDeaths[t][..], births[t][..], infants[t])
    }

    /** Projects period `step`: fills column `step + 1` of the population and
        column `step` of migrations, cohort deaths, births and infants, as
        ProjectStep does from column `step`, and touches nothing else. */
    method StepProjection(step: nat)
      requires Valid() && StepFits(step)
      modifies population[step + 1], migrations[step], cohortDeaths[step], births[step], infants
      ensures Recorded(step) == ProjectStep(old(population[step][..]), Sched(step), interval, fxIdx)
      ensures forall t :: 0 <= t < nPeriods && t != step ==> Recorded(t) == old(Recorded(t))
      ensures population[step][..] == old(population[step][..])
    {
      assert population[step] != population[step + 1];
      ProjectColumns(population[step], population[step + 1], migrations[step], cohortDeaths[step], births[step],
                     infants, step, Sched(step), interval, fxIdx);
    }

    /** Period deaths, one column per period, from the cohort deaths. */
    function PeriodDeaths(): (pd: seq<seq<real>>)
      reads this, cohortDeaths
      requires Valid() && nAges >= 1
      ensures |pd| == nPeriods
      ensures forall t {:trigger pd[t]} :: 0 <= t < nPeriods ==>
        pd[t] == PeriodDeathsColumn(cohortDeaths[t][..]) && Sum(pd[t]) == Sum(cohortDeaths[t][..])
    {
      var pd := seq(nPeriods, t requires 0 <= t < nPeriods reads cohortDeaths => PeriodDeathsColumn(cohortDeaths[t][..]));
      assert forall t :: 0 <= t < nPeriods ==> Sum(pd[t]) == Sum(cohortDeaths[t][..]) by {
        forall t | 0 <= t < nPeriods {
          PeriodDeathsTotal(cohortDeaths[t][..]);
        }
      }
      pd
    }
  }

  /** Period deaths redistribute the cohort deaths without losing or adding any. */
  lemma {:induction false} PeriodDeathsTotal(cd: seq<real>)
    requires |cd| >= 2
    ensures Sum(PeriodDeathsColumn(cd)) == Sum(cd)
  {
    var n := |cd| - 1;
    var halves := seq(n, a requires 0 <= a < n => 0.5 * cd[a] + 0.5 * cd[a + 1]);
    SumNeighbourAverages(cd, halves);
    SumEnds(halves, PeriodDeathsColumn(cd), 0.5 * cd[0], 0.5 * cd[n]);
  }

  /** The columns of a schedule matrix have `Rows(m)` entries each; a matrix
      without columns is taken to have none. */
  function Rows(m: seq<seq<real>>): nat
  {
    if |m| == 0 then 0 else |m[0]|
  }

  /** Projects `basepop` over one period per column of `sx`, filling a new
      PopulationProjection period by period. */
  method Ccmpp(basepop: seq<real>, sx: seq<seq<real>>, fx: seq<seq<real>>, gx: seq<seq<real>>, srb: seq<real>,
               interval: real, fxIdx: nat) returns (proj: PopulationProjection)
    requires |fx| == |sx| && |gx| == |sx| && |srb| == |sx|
    requires forall t :: 0 <= t < |fx| ==> |fx[t]| == Rows(fx)
    requires AllFit(|basepop|, Schedules(sx, fx, gx, srb), fxIdx)
    ensures proj.Valid() && proj.nAges == |basepop| && proj.nPeriods == |sx| && proj.nFx == Rows(fx)
    ensures proj.fxIdx == fxIdx && proj.interval == interval
    ensures proj.sx == sx && proj.fx == fx && proj.gx == gx && proj.srb == srb
    ensures Columns(proj.population) == Trajectory(basepop, Schedules(sx, fx, gx, srb), interval, fxIdx, |sx|)
    ensures Filled(proj, basepop, Schedules(sx, fx, gx, srb), |sx|)
  {
    ghost var scheds := Schedules(sx, fx, gx, srb);
    proj := new PopulationProjection(|basepop|, |sx|, Rows(fx), fxIdx, interval, basepop, sx, fx, gx, srb);
    for step := 0 to |sx|
      invariant proj.Valid() && proj.nAges == |basepop| && proj.nPeriods == |sx| && proj.nFx == Rows(fx)
      invariant proj.fxIdx == fxIdx && proj.interval == interval
      invariant proj.sx == sx && proj.fx == fx && proj.gx == gx && proj.srb == srb
      invariant fresh(proj.infants)
      invariant forall t :: 0 <= t <= |sx| ==> fresh(proj.population[t])
      invariant forall t :: 0 <= t < |sx| ==>
        fresh(proj.cohortDeaths[t]) && fresh(proj.births[t]) && fresh(proj.migrations[t])
      invariant proj.population[0][..] == basepop
      invariant Filled(proj, basepop, scheds, step)
    {
      assert proj.Sched(step) == scheds[step];
      Advance(proj, step, basepop, scheds);
    }
    PopulationFromRecords(proj, basepop, scheds);
  }

  /** Periods 0 .. k - 1 of `proj` hold what the recursion records for them. */
  ghost predicate Filled(proj: PopulationProjection, basepop: seq<real>, scheds: seq<AgeSchedule>, k: nat)
    reads proj, proj.infants, proj.population, proj.migrations, proj.cohortDeaths, proj.births
    requires proj.Valid() && AllFit(|basepop|, scheds, proj.fxIdx) && k <= proj.nPeriods && k <= |scheds|
  {
    forall t :: 0 <= t < k ==> proj.Recorded(t) == PeriodRecord(basepop, scheds, proj.interval, proj.fxIdx, t)
  }

  /** Once every period is recorded, the population columns are the
      trajectory of the recursion. */
  lemma PopulationFromRecords(proj: PopulationProjection, basepop: seq<real>, scheds: seq<AgeSchedule>)
    requires proj.Valid() && AllFit(|basepop|, scheds, proj.fxIdx)
    requires proj.nPeriods == |scheds| && proj.population[0][..] == basepop
    requires Filled(proj, basepop, scheds, proj.nPeriods)
    ensures Columns(proj.population) == Trajectory(basepop, scheds, proj.interval, proj.fxIdx, proj.nPeriods)
  {
    forall k | 1 <= k <= proj.nPeriods
      ensures Columns(proj.population)[k] == PopulationAt(basepop, scheds, proj.interval, proj.fxIdx, k)
    {
      assert proj.Recorded(k - 1) == PeriodRecord(basepop, scheds, proj.interval, proj.fxIdx, k - 1);
    }
  }

  /** Period `step` of `ccmpp`: the projection holds the records of the
      periods before it, and afterwards those of one period more. */
  method Advance(proj: PopulationProjection, step: nat, ghost basepop: seq<real>, ghost scheds: seq<AgeSchedule>)
    requires proj.Valid() && proj.StepFits(step) && proj.nAges == |basepop|
    requires AllFit(|basepop|, scheds, proj.fxIdx) && step < |scheds| && scheds[step] == proj.Sched(step)
    requires proj.population[0][..] == basepop
    requires Filled(proj, basepop, scheds, step)
    modifies proj.population[step + 1], proj.migrations[step], proj.cohortDeaths[step], proj.births[step], proj.infants
    ensures proj.population[0][..] == basepop
    ensures Filled(proj, basepop, scheds, step + 1)
  {
    ghost var start := PopulationAt(basepop, scheds, proj.interval, proj.fxIdx, step);
    assert proj.population[step][..] == start by {
      if step > 0 {
        assert proj.Recorded(step - 1) == PeriodRecord(basepop, scheds, proj.interval, proj.fxIdx, step - 1);
      }
    }
    ghost var r := PeriodRecord(basepop, scheds, proj.interval, proj.fxIdx, step);
    assert r == ProjectStep(start, proj.Sched(step), proj.interval, proj.fxIdx);
    proj.StepProjection(step);
    assert proj.Recorded(step) == r;
  }
}
