/** One period's demographic inputs, and the migration half-steps that both
    projection formulations apply to them. */
module Schedule {

  /** The inputs of one projection period: column `t` of the survival
      proportions `sx` (one entry per age group plus one for survival within
      the open age group), of the fertility rates `fx` (fertile ages only) and
      of the migration proportions `gx`, and entry `t` of the sex ratio at
      birth `srb`. */
  datatype AgeSchedule = AgeSchedule(sx: seq<real>, fx: seq<real>, gx: seq<real>, srb: real)

  /** The shapes one recursive projection step relies on for `n` age groups
      whose fertile ages start at `fxIdx` (0-based): `n + 1` survival entries,
      `n` migration entries, a fertile range inside the age groups, and a sex
      ratio whose `1 + srb` can be divided by. */
  predicate Fits(s: AgeSchedule, n: nat, fxIdx: nat)
  {
    n >= 1 && |s.sx| == n + 1 && |s.gx| == n && fxIdx + |s.fx| <= n && 1.0 + s.srb != 0.0
  }

  /** Every period fits the recursion for `n` age groups. */
  predicate AllFit(n: nat, scheds: seq<AgeSchedule>, fxIdx: nat)
  {
    forall t :: 0 <= t < |scheds| ==> Fits(scheds[t], n, fxIdx)
  }

  /** Pairs up the columns of the schedule matrices, one AgeSchedule per period. */
  function Schedules(sx: seq<seq<real>>, fx: seq<seq<real>>, gx: seq<seq<real>>, srb: seq<real>): (s: seq<AgeSchedule>)
    requires |fx| == |sx| && |gx| == |sx| && |srb| == |sx|
    ensures |s| == |sx|
    ensures forall t :: 0 <= t < |sx| ==> s[t] == AgeSchedule(sx[t], fx[t], gx[t], srb[t])
  {
    seq(|sx|, t requires 0 <= t < |sx| => AgeSchedule(sx[t], fx[t], gx[t], srb[t]))
  }

  /** Migrants of the period, `population ⊙ gx`. */
  function Migrants(pop: seq<real>, gx: seq<real>): (m: seq<real>)
    requires |gx| == |pop|
    ensures |m| == |pop|
    ensures forall a {:trigger m[a]} :: 0 <= a < |pop| ==> m[a] == pop[a] * gx[a]
  {
    seq(|pop|, a requires 0 <= a < |pop| => pop[a] * gx[a])
  }

  /** `v + 0.5 * m`: half of the period's migrants added to a population. */
  function AddHalf(v: seq<real>, m: seq<real>): (w: seq<real>)
    requires |m| == |v|
    ensures |w| == |v|
    ensures forall a {:trigger w[a]} :: 0 <= a < |v| ==> w[a] == v[a] + 0.5 * m[a]
  {
    seq(|v|, a requires 0 <= a < |v| => v[a] + 0.5 * m[a])
  }
}
