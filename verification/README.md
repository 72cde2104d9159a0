# Cohort-component population projection (ccmpp)

A Dafny model of the deterministic projection engine in `src/ccmpp.h`. The
engine projects a female population by age group through a sequence of
periods. Each period has its own survival proportions `sx`, fertility rates
`fx` over a contiguous fertile range starting at 0-based age group `fxIdx`,
migration proportions `gx` and sex ratio at birth `srb`. The engine computes
the next population in two independent ways:

- **Leslie formulation.** `make_leslie_matrix` builds a sparse age-transition
  (Leslie) matrix for one period. `ccmpp_leslie` projects with
  `L * (P + m/2) + m/2`, where `m = P ⊙ gx` are the period's migrants.
- **Recursion.** A `PopulationProjection` object owns the population, cohort
  deaths, births, infants and migrations matrices. `step_projection` fills one
  period in place: the first half of the migrants joins, cohort deaths are
  taken, births over the first half of the period are counted, the cohorts age
  (the open age group keeps its own survivors), births over the second half
  are added, the infants and their deaths are recorded, and the second half
  of the migrants joins. `period_deaths` redistributes the cohort deaths over
  the age groups. `ccmpp` seeds the base population and steps through the
  periods in order.

The engine's scalar type is modelled as `real`, so every identity below is
exact, not "up to rounding". Matrices are stored column by column, one column
per period. The schedules of one period are an `AgeSchedule`.

What is proved:

- **The matrix builder.** `Leslie.MakeLeslieMatrix` inserts every coefficient
  at a fresh position. It yields a `dim × dim` matrix whose stored positions
  are exactly the fertility row, the subdiagonal and the open-age self-loop.
  Each entry equals an entry-by-entry definition (`Leslie.LeslieAt`). That
  definition is independent of the builder for the matrix's layout. Row 0's
  values are the fertility coefficients `Leslie.FertLeslie`, which the builder
  also computes; their closed form is proved as that function's contract.
  No column holds more than two coefficients.
- **The recursion, one period.**
  - `Projection.PopulationProjection.StepProjection` writes what the
    closed-form step `Projection.ProjectStep` computes, and leaves every other
    column unchanged.
  - The `StepLaws` module derives from that step each relation the code
    establishes: the migrants, the cohort deaths, aging, the open age group,
    births, infants, the newborns, and a demographic balance for the whole
    period.
- **The whole projection.**
  - `Projection.Ccmpp` produces the recursion's trajectory.
  - `Leslie.CcmppLeslie` produces the Leslie trajectory.
  - A trajectory column depends only on the periods before it.
- **The equivalence.** Period by period and over whole trajectories, the two
  formulations agree, provided no period's open age group is fertile
  (`fxIdx + |fx| <= nAges - 1`).
- **Where the equivalence stops.** When the open age group is fertile, the
  code's two formulations differ. The recursion counts second-half births to
  the women who survive and stay in the open age group. Row 0 of the Leslie
  matrix has no term for those births (a term `fx[last] * sx[n] * v[n-1]`
  would be needed). It only counts births to women who start the period at a
  fertile age and to those who age into one. The model
  follows the code, and `Equivalence.FertileOpenAgeDiffers` proves a concrete
  input on which the two disagree: 2 infants against 1. An equivalence "for
  any valid schedule" therefore holds only with the infertile open age group
  as a precondition.

Files:

- `sums.dfy`: finite sums and the summation lemmas.
- `schedule.dfy`: the period schedule and the migration half-steps.
- `leslie.dfy`: the sparse matrix, the builder and `ccmpp_leslie`.
- `projection.dfy`: the closed-form step, the `PopulationProjection` class
  and `ccmpp`.
- `step_laws.dfy`: the per-period properties of the recursion.
- `equivalence.dfy`: recursion = Leslie.

## Model

| member | source | states |
|---|---|---|
| Leslie.FertLeslie | src/ccmpp.h:16-23 | the builder's fertility coefficients: entry `i` is `fertK * (fx[i] * sx[fxIdx + i] + fx[i - 1])`, without the first term for `i = |fx|` and without the second for `i = 0` |
| Leslie.MakeLeslieMatrix | src/ccmpp.h:8-40 | `dim × dim` with `dim = |sx| - 1`; every insert hits a fresh position; the stored positions are exactly row 0 over columns `fxIdx - 1 .. fxIdx - 1 + |fx|`, the subdiagonal and `(dim-1, dim-1)`; entry `(i, i-1) = sx[i]`; the self-loop is `sx[dim]`; every entry equals the reference `LeslieAt` with `fertK = sx[0] * 0.5 * interval / (1 + srb)` |
| Leslie.LeslieColumnNonZeros | src/ccmpp.h:27 | each column of the Leslie matrix has at most 2 stored coefficients, the bound the builder reserves |
| Leslie.MatVecOfLeslie | src/ccmpp.h:60 | the sparse product `L * v` of a built matrix equals the dense product with the reference matrix |
| Leslie.LeslieSurvivalRow | src/ccmpp.h:33-35 | row `r` of `L * v` (first < r < open age group) is `sx[r] * v[r - 1]` |
| Leslie.LeslieOpenAgeRow | src/ccmpp.h:33-36 | the last row of `L * v` is the survivors aging in plus the open age group's own survivors: `sx[n-1] * v[n-2] + sx[n] * v[n-1]` |
| Leslie.LeslieFertilityRow | src/ccmpp.h:16-31 | row 0 of `L * v` is `fertK` times the sum of the fertility terms over the fertile columns; all other columns of row 0 are zero |
| Leslie.FertilityTermsTotal | src/ccmpp.h:21-22 | the fertility terms regroup by fertile age into births to survivors (`fx[j] * sx[fxIdx+j] * v[fxIdx-1+j]`) plus births to women already at that age (`fx[j] * v[fxIdx+j]`) |
| Leslie.LeslieStep | src/ccmpp.h:57-60 | one period of `ccmpp_leslie`, `L * (P + m/2) + m/2` with `m = P ⊙ gx`; its contract states only that the column keeps its length, and its values are characterised by Equivalence.StepMatchesLeslie and the Leslie row lemmas |
| Leslie.CcmppLeslie | src/ccmpp.h:42-64 | the returned columns are the Leslie trajectory: column 0 is `basepop` and column `t + 1` is `L_t * (P_t + m_t/2) + m_t/2` with `m_t = P_t ⊙ gx_t` |
| Projection.ProjectStep | src/ccmpp.h:142-161 | the pure form of one `step_projection`; its contract states the shapes of what a period writes (`n` population entries and migrations, `n + 1` cohort deaths, `|fx|` births); the values are characterised by the StepLaws rows |
| Projection.PeriodDeathsColumn | src/ccmpp.h:169-172 | period deaths of age group `a` are `0.5 * (cd[a] + cd[a+1])`, plus `0.5 * cd[0]` on the first group and `0.5 * cd[n]` on the open group |
| Projection.PeriodDeathsTotal | src/ccmpp.h:169-172 | each column of period deaths sums to the total of the same column of cohort deaths (all `n + 1` rows) |
| Projection.PopulationProjection.PeriodDeaths | src/ccmpp.h:164-175 | one column per period, each the period-deaths column of that period's cohort deaths, with the same total |
| Projection.PopulationProjection.constructor | src/ccmpp.h:92-118 | the matrices get their shapes (`nAges × nPeriods+1`, `nAges+1 × nPeriods`, `nFx × nPeriods`, `nPeriods`, `nAges × nPeriods`) as fresh, unshared columns; column 0 of the population is `basepop` |
| Projection.PopulationProjection.StepProjection | src/ccmpp.h:126-162 | column `step + 1` of the population and column `step` of migrations, cohort deaths, births and infants become what `ProjectStep` computes from population column `step`; every other period's record and population column `step` are unchanged |
| Projection.NewColumns | src/ccmpp.h:111-115 | allocates `count` fresh, pairwise distinct columns of `rows` entries, one matrix of the constructor |
| Projection.CopyColumn | src/ccmpp.h:142 | the next population column becomes a copy of column `step` |
| Projection.SetMigrants | src/ccmpp.h:144 | the migrations column becomes `population_t ⊙ gx_t` (`Migrants`) |
| Projection.AddHalfMigrants | src/ccmpp.h:145 | the population column becomes `old + 0.5 * migrations` (`AddHalf`); also used for the second half on line 161 |
| Projection.SetBirths | src/ccmpp.h:148 | the births column becomes half a period of births at `fx` to the fertile age groups `fxIdx .. fxIdx + nFx - 1` |
| Projection.AddBirths | src/ccmpp.h:156 | the births column becomes its old value plus half a period of births to the post-aging fertile age groups |
| Projection.AgeCohorts | src/ccmpp.h:150-154 | the descending aging loop with the open-age survivors taken first yields `Aged`: each group receives `pop[a-1] - cd[a]`; the open group also keeps `pop[n-1] - cd[n]` |
| Projection.AgeAndBear | src/ccmpp.h:142-156 | the part of a period before the newborns: the migrations column is `P ⊙ gx`, cohort-deaths rows `1..n` are `Deaths` of `P + m/2`, the next population column is `Aged`, and births are the first-half births plus the post-aging second-half births |
| Projection.ProjectColumns | src/ccmpp.h:142-161 | one period on the columns: the next population column, the migrations, cohort deaths and births columns and infants entry `step` equal what `ProjectStep` computes from the current column; the other infants entries are unchanged |
| Projection.SetCohortDeaths | src/ccmpp.h:147 | rows `1 .. n` of the cohort deaths are `pop[a] * (1 - sx[a+1])`, and row 0 is untouched |
| Projection.PlaceNewborns | src/ccmpp.h:157-161 | infants entry `step` and cohort-deaths row 0 are written, the first age group is the surviving infants, and the second half of the migrants is added |
| Projection.Ccmpp | src/ccmpp.h:178-200 | the projection has the source's shapes, and its population columns are the recursion's trajectory; every period holds that period's record |
| Projection.Advance | src/ccmpp.h:195-197 | stepping period `step` after periods `0 .. step-1` extends the recorded periods by one |
| Projection.PopulationAtPrefix | src/ccmpp.h:195-197 | periods run in increasing order: the population at the start of period `t` depends only on the schedules of periods `< t` |
| Projection.TrajectoryPrefix | src/ccmpp.h:188-197 | running all periods and keeping columns `0 .. k` equals running only the first `k` periods |
| StepLaws.StepDeaths | src/ccmpp.h:142-147 | `migrations[:,t] = population[:,t] ⊙ gx[:,t]`, and `cohort_deaths[a+1,t] = H[a] * (1 - sx[a+1,t])` with `H = population[:,t] + migrations[:,t] / 2` |
| StepLaws.StepSurvivors | src/ccmpp.h:150-161 | for `1 ≤ a < nAges - 1`, `population[a,t+1] = H[a-1] * sx[a,t] + migrations[a,t] / 2` |
| StepLaws.StepOpenAge | src/ccmpp.h:150-161 | `population[n-1,t+1] = H[n-2] * sx[n-1,t] + H[n-1] * sx[n,t] + migrations[n-1,t] / 2` |
| StepLaws.StepBirths | src/ccmpp.h:148-156 | `births[i,t]` is half a period of births at rate `fx[i,t]` to the women of age group `fxIdx + i` before aging, plus half a period to those after aging |
| StepLaws.StepInfants | src/ccmpp.h:157-158 | `infants[t] = sum(births[:,t]) / (1 + srb[t])`, so `infants[t] * (1 + srb[t])` gives back all births of the period; `cohort_deaths[0,t] = infants[t] * (1 - sx[0,t])` |
| StepLaws.StepNewborns | src/ccmpp.h:158-161 | `population[0,t+1] = infants[t] * sx[0,t] + migrations[0,t] / 2` |
| StepLaws.AgedTotal | src/ccmpp.h:150-154 | aging loses only the dead: above the first group, the aged population totals the pre-aging population less the cohort deaths |
| StepLaws.StepBalance | src/ccmpp.h:142-161 | balance of one period (`nAges ≥ 2`): the total population at its end is the total at its start, plus migrants, plus infants, less all cohort deaths |
| Equivalence.AgingMatchesLeslie | src/ccmpp.h:150-154 | above the first age group, the recursion's aging is the survival part of the Leslie matrix applied to `H` |
| Equivalence.BirthsTotal | src/ccmpp.h:148-157 | with an infertile open age group, the period's births total half a period of births to the women at the fertile ages plus half a period to those who survive into them |
| Equivalence.LeslieBirthsTotal | src/ccmpp.h:16-23 | row 0 of `L * H` is `fertK` times those same births at the full rate |
| Equivalence.NewbornsMatchLeslie | src/ccmpp.h:156-159 | the surviving infants of the recursion are `fertK` times the births at the full rate |
| Equivalence.AgedMatchesLeslie | src/ccmpp.h:150-159 | before the second half of the migrants, the recursion's column equals `L * H` |
| Equivalence.StepMatchesLeslie | src/ccmpp.h:142-161 | with an infertile open age group, the recursion's next population column equals `L * (P + m/2) + m/2` |
| Equivalence.PeriodMatchesLeslie | src/ccmpp.h:195-197 | every period of the recursion is one Leslie step from the population at its start |
| Equivalence.ChainsAgree | src/ccmpp.h:56-61 | two sequences of columns with the same base, each column a Leslie step of the previous one, are equal |
| Equivalence.TrajectoryMatchesLeslie | src/ccmpp.h:56-61 | with no fertile open age group, every population column `0 .. k` of the recursion (`ccmpp`) equals that of `ccmpp_leslie` |
| Equivalence.FertileOpenAgeDiffers | src/ccmpp.h:150-156 | when the open age group is fertile, the formulations part. Two age groups, the open one fertile and holding one woman, everyone surviving, no migration, `srb = 0`, `interval = 2`: the recursion finds 2 infants, the Leslie matrix 1 |

## Left out

- The TMB objectives (`src/TMB/ccmpp_vr_tmb.hpp`, `src/TMB/ccmpp_tmb.hpp`, `src/ccmpp_tmb.cpp`) and the R binding (`src/ccmppR.cpp`) are not part of this model. They hold statistical densities, transcendental transforms and host-framework glue. The binding's only logic is the 1-based to 0-based conversion of the first fertile index. That conversion appears here as `fxIdx ≥ 1` wherever the Leslie matrix is built.
- Floating-point rounding: `Type` is `real`, so bit-for-bit behaviour under IEEE arithmetic is not modelled.
- Eigen storage details are not modelled: `reserve`, `makeCompressed`, and the contiguous column-major buffer behind each matrix. The sparse matrix is its dimensions plus a map of inserted coefficients. Each dense matrix is one array per column. The `Map` views of `step_projection` become those column arrays, which the model proves distinct.
- Dimensions are preconditions, not runtime checks, since the code does not check them:
  - `|sx| = nAges + 1`;
  - `|gx| = nAges`;
  - `fxIdx + |fx| ≤ nAges`;
  - `nAges ≥ 1` for a step;
  - `nAges ≥ 2` for the builder, because otherwise the self-loop is inserted twice;
  - one fertility column length `nFx` for the class.
- Steps are requested in range (`step < nPeriods`): the code indexes out of range otherwise.
- `1 + srb ≠ 0` is required wherever the code divides by it. The code would produce an infinity or NaN instead.
- A step with `fxIdx = 0` is modelled as the code runs it: the second half of births reads the first age group before the newborns are placed. Building the Leslie matrix requires `fxIdx ≥ 1`.
- StepLaws.StepBalance: stated only for `nAges ≥ 2`. With a single age group the newborns overwrite the open age group's survivors, so the balance does not hold.
- Equivalence.TrajectoryMatchesLeslie: stated only when no period's open age group is fertile. Without that condition the code's formulations differ (`Equivalence.FertileOpenAgeDiffers`).
- `ccmpp` returns the projection object by value; the model returns a reference to the freshly allocated object.
