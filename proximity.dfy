/**
 * `closest_idx` (metafilter.py): the negative volume nearest to a positive
 * one by date, gender and nationality. The source adds 0.6 per demographic
 * mismatch to a whole number of years; here every proximity is multiplied
 * by ten, so it is a natural number and comparisons and ties are exact.
 */
module Proximity {
  import opened Records

  /** The nationalities that must agree for two volumes to be a perfect match. */
  const KnownNations: set<string> := {"us", "uk"}

  function Abs(x: int): nat {
    if x < 0 then -x else x
  }

  /** A gender penalty needs two non-empty genders that differ. */
  predicate GenderMismatch(target: DocRecord, candidate: DocRecord) {
    target.gender != candidate.gender && target.gender != "" && candidate.gender != ""
  }

  /** A nation penalty needs two known nations that differ. */
  predicate NationMismatch(target: DocRecord, candidate: DocRecord) {
    target.nation != candidate.nation && target.nation in KnownNations && candidate.nation in KnownNations
  }

  /** Ten times the source's proximity of `candidate` to `target`. */
  function ProximityTenths(candidate: DocRecord, target: DocRecord, field: DateField): nat {
    10 * Abs(DateOf(candidate, field) - DateOf(target, field))
      + (if GenderMismatch(target, candidate) then 6 else 0)
      + (if NationMismatch(target, candidate) then 6 else 0)
  }

  /** The source's proximity, `abs(targetdate - date)` plus 0.6 per mismatch, as an exact real. */
  function ProximityReal(candidate: DocRecord, target: DocRecord, field: DateField): real {
    Abs(DateOf(candidate, field) - DateOf(target, field)) as real
      + (if GenderMismatch(target, candidate) then 0.6 else 0.0)
      + (if NationMismatch(target, candidate) then 0.6 else 0.0)
  }

  /** The integer tenths are exactly ten times the real proximity ... */
  lemma TenthsAreExact(candidate: DocRecord, target: DocRecord, field: DateField)
    ensures ProximityTenths(candidate, target, field) as real == 10.0 * ProximityReal(candidate, target, field)
  {
  }

  /** ... so they order and tie candidates exactly as the real proximities do. */
  lemma TenthsPreserveOrder(a: DocRecord, b: DocRecord, target: DocRecord, field: DateField)
    ensures ProximityTenths(a, target, field) < ProximityTenths(b, target, field)
            <==> ProximityReal(a, target, field) < ProximityReal(b, target, field)
    ensures ProximityTenths(a, target, field) == ProximityTenths(b, target, field)
            <==> ProximityReal(a, target, field) == ProximityReal(b, target, field)
  {
    TenthsAreExact(a, target, field);
    TenthsAreExact(b, target, field);
  }

  /**
   * A candidate one year nearer wins even with one demographic mismatch:
   * date matters more than gender or nationality alone.
   */
  lemma NearerDateBeatsOneMismatch(a: DocRecord, b: DocRecord, target: DocRecord, field: DateField)
    requires Abs(DateOf(a, field) - DateOf(target, field)) < Abs(DateOf(b, field) - DateOf(target, field))
    requires !(GenderMismatch(target, a) && NationMismatch(target, a))
    ensures ProximityTenths(a, target, field) < ProximityTenths(b, target, field)
  {
  }

  /**
   * A perfect gender-and-nation match one year away beats a same-year
   * volume that fails on both: date does not outweigh both together.
   */
  lemma PerfectMatchOneYearAwayBeatsDoubleMismatch(a: DocRecord, b: DocRecord, target: DocRecord, field: DateField)
    requires Abs(DateOf(a, field) - DateOf(target, field)) == Abs(DateOf(b, field) - DateOf(target, field)) + 1
    requires !GenderMismatch(target, a) && !NationMismatch(target, a)
    requires GenderMismatch(target, b) && NationMismatch(target, b)
    ensures ProximityTenths(a, target, field) < ProximityTenths(b, target, field)
  {
  }

  /** Only a same-date volume with no penalty is at proximity 0. */
  lemma ZeroProximityIsPerfectMatch(candidate: DocRecord, target: DocRecord, field: DateField)
    ensures ProximityTenths(candidate, target, field) == 0 <==>
            DateOf(candidate, field) == DateOf(target, field)
            && !GenderMismatch(target, candidate) && !NationMismatch(target, candidate)
  {
  }

  /**
   * `closest_idx(negative_volumes, positive_volume, datetype)`: the list of
   * proximities, then `proximities.index(min(proximities))`, the first index
   * at which the least proximity occurs.
   */
  method ClosestIdx(pool: seq<DocRecord>, target: DocRecord, field: DateField) returns (idx: nat)
    requires |pool| > 0
    ensures idx < |pool|
    ensures forall j | 0 <= j < |pool| ::
      ProximityTenths(pool[idx], target, field) <= ProximityTenths(pool[j], target, field)
    ensures forall j | 0 <= j < idx ::
      ProximityTenths(pool[j], target, field) > ProximityTenths(pool[idx], target, field)
  {
    var proximities: seq<nat> := [];
    for i := 0 to |pool|
      invariant |proximities| == i
      invariant forall k | 0 <= k < i :: proximities[k] == ProximityTenths(pool[k], target, field)
    {
      proximities := proximities + [ProximityTenths(pool[i], target, field)];
    }
    var least := proximities[0];
    for i := 1 to |proximities|
      invariant least in proximities
      invariant forall k | 0 <= k < i :: least <= proximities[k]
    {
      if proximities[i] < least {
        least := proximities[i];
      }
    }
    idx := 0;
    while proximities[idx] != least
      invariant idx < |proximities|
      invariant forall k | 0 <= k < idx :: proximities[k] != least
      invariant least in proximities[idx..]
      decreases |proximities| - idx
    {
      idx := idx + 1;
    }
  }
}
