/**
  The three headline figures of the dashboard, computed from the filtered records: how many
  accidents, how many deaths, and deaths per accident as a percentage.
 */
module Metrics {
  import opened Masking
  import opened Accidents
  import opened Filters

  /** Accident count, death count and death rate in percent (exact, before display rounding). */
  datatype Summary = Summary(totalAcidentes: nat, totalMortos: nat, taxaMortalidade: real)

  /** The sum of the `mortos` column; 0 for no records. */
  function SumMortos(rs: seq<Record>): (total: nat)
    ensures forall i :: 0 <= i < |rs| ==> rs[i].mortos <= total
  {
    if rs == [] then 0 else rs[0].mortos + SumMortos(rs[1..])
  }

  /** The death sum is 0 exactly when no record has a death. */
  lemma {:induction false} SumMortosZero(rs: seq<Record>)
    ensures SumMortos(rs) == 0 <==> forall i :: 0 <= i < |rs| ==> rs[i].mortos == 0
  {
    if rs != [] {
      SumMortosZero(rs[1..]);
      assert forall i :: 1 <= i < |rs| ==> rs[i] == rs[1..][i - 1];
    }
  }

  /** Deaths per accident in percent, and exactly 0 when there are no accidents (no division). */
  function FatalityRate(totalMortos: nat, totalAcidentes: nat): (taxa: real)
    ensures taxa >= 0.0
    ensures totalAcidentes == 0 ==> taxa == 0.0
    ensures totalAcidentes > 0 ==> taxa * (totalAcidentes as real) == 100.0 * (totalMortos as real)
  {
    if totalAcidentes > 0 then (totalMortos as real / totalAcidentes as real) * 100.0 else 0.0
  }

  /** The metrics of a record set. */
  function Summarize(rs: seq<Record>): (s: Summary)
    ensures s.totalAcidentes == |rs|
    ensures s.totalMortos == SumMortos(rs)
    ensures rs == [] ==> s == Summary(0, 0, 0.0)
    ensures rs != [] ==> s.taxaMortalidade * (|rs| as real) == 100.0 * (SumMortos(rs) as real)
  {
    var totalAcidentes := |rs|;
    var totalMortos := SumMortos(rs);
    Summary(totalAcidentes, totalMortos, FatalityRate(totalMortos, totalAcidentes))
  }

  /** Masking splits the death count: the kept rows and the dropped rows account for all of it. */
  lemma {:induction false} SumMortosSplits(rs: seq<Record>, keep: Record -> bool, drop: Record -> bool)
    requires forall r :: drop(r) == !keep(r)
    ensures SumMortos(Where(rs, keep)) + SumMortos(Where(rs, drop)) == SumMortos(rs)
  {
    if rs != [] {
      SumMortosSplits(rs[1..], keep, drop);
    }
  }

  /** If no accident has more than `k` deaths, the rate is at most `100 * k` percent. */
  lemma RateBounded(rs: seq<Record>, k: nat)
    requires forall r :: r in rs ==> r.mortos <= k
    ensures Summarize(rs).taxaMortalidade <= 100.0 * (k as real)
  {
    SumMortosAtMost(rs, k);
    FatalityRateAtMost(SumMortos(rs), |rs|, k);
  }

  /** A death count of at most `k` per accident gives a rate of at most `100 * k` percent. */
  lemma FatalityRateAtMost(totalMortos: nat, totalAcidentes: nat, k: nat)
    requires totalMortos <= totalAcidentes * k
    ensures FatalityRate(totalMortos, totalAcidentes) <= 100.0 * (k as real)
  {
    if totalAcidentes > 0 {
      var n := totalAcidentes as real;
      var s := totalMortos as real;
      assert s <= n * (k as real);
      QuotientAtMost(s, n, k as real);
    }
  }

  /** Dividing by a positive count keeps a bound that holds per unit. */
  lemma QuotientAtMost(s: real, n: real, k: real)
    requires n > 0.0 && s <= n * k
    ensures s / n <= k
  {
    var q := s / n;
    assert q * n == s;
    assert (k - q) * n == n * k - s;
  }

  lemma {:induction false} SumMortosAtMost(rs: seq<Record>, k: nat)
    requires forall r :: r in rs ==> r.mortos <= k
    ensures SumMortos(rs) <= |rs| * k
  {
    if rs != [] {
      assert rs[0] in rs;
      SumMortosAtMost(rs[1..], k);
      MulSucc(|rs| - 1, k);
    }
  }

  lemma MulSucc(a: nat, k: nat)
    ensures (a + 1) * k == a * k + k
  {
  }

  /** Filtering never raises the totals: at most as many accidents and as many deaths as in the
      full record set. */
  lemma FilteringNeverIncreasesTotals(rs: seq<Record>, sel: Selection)
    ensures Summarize(Filtered(rs, sel)).totalAcidentes <= Summarize(rs).totalAcidentes
    ensures Summarize(Filtered(rs, sel)).totalMortos <= Summarize(rs).totalMortos
  {
    SumMortosSplits(rs, r => Matches(r, sel), r => !Matches(r, sel));
  }
}
