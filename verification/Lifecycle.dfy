/**
 The saturating expiry and grace arithmetic shared by the registrar and the registry.
 */
module Lifecycle {
  import opened Common

  const YEAR_SECONDS: U64 := 31_536_000
  const DEFAULT_GRACE: U64 := 2_592_000
  const MIN_GRACE: U64 := 86_400
  const MAX_GRACE: U64 := 31_536_000
  const MIN_YEARS: U64 := 1
  const MAX_YEARS: U64 := 10

  function ExpiryFrom(base: U64, years: U64): U64 {
    SatAdd(base, SatMul(YEAR_SECONDS, years))
  }

  function GraceEnd(expiry: U64, grace: U64): U64 {
    SatAdd(expiry, grace)
  }

  predicate ActiveAt(expiresAt: U64, now: U64) {
    now <= expiresAt
  }

  predicate ClaimableAt(graceEndsAt: U64, now: U64) {
    now > graceEndsAt
  }

  datatype Phase = Missing | Active | GracePeriod | Claimable

  function PhaseAt(expiresAt: U64, graceEndsAt: U64, now: U64): Phase {
    if ActiveAt(expiresAt, now) then Active
    else if ClaimableAt(graceEndsAt, now) then Claimable
    else GracePeriod
  }

  /** Whatever grace periods were configured before and after, a renewal by at least one
      year moves neither the expiry nor the grace end backwards, saturation included: one
      year is the largest grace period there is. */
  lemma RenewalNeverShrinks(expiresAt: U64, oldGrace: U64, newGrace: U64, now: U64, years: U64)
    requires oldGrace <= MAX_GRACE && MIN_YEARS <= years <= MAX_YEARS
    ensures var base: U64 := if expiresAt > now then expiresAt else now;
            var renewed := ExpiryFrom(base, years);
            && expiresAt <= renewed && now <= renewed
            && GraceEnd(expiresAt, oldGrace) <= GraceEnd(renewed, newGrace)
            && renewed <= GraceEnd(renewed, newGrace)
  {
  }
}
