/** The activation-code record (backend/app/Models/ActivationCode.php) and its
    three derived flags. Times are integer seconds; `now` is passed in. */
module ActivationCodes {
  import opened Common

  /** One row of `activation_codes`. `deviceId` and `usedAt` are the nullable
      columns that redemption fills in. */
  datatype ActivationCode = ActivationCode(
    id: nat,
    userId: nat,
    code: string,
    deviceId: Option<nat>,
    expiresAt: int,
    usedAt: Option<int>,
    createdAt: int)

  /** `isValid`: never used and `expires_at` is in the future. */
  predicate IsValid(c: ActivationCode, now: int) {
    c.usedAt.None? && c.expiresAt > now
  }

  /** `isExpired`: `expires_at` is in the past. */
  predicate IsExpired(c: ActivationCode, now: int) {
    c.expiresAt < now
  }

  /** `isUsed`: `used_at` is set. */
  predicate IsUsed(c: ActivationCode) {
    c.usedAt.Some?
  }

  /** A valid code is neither used nor expired; an expired code is invalid
      whether or not it was used; a used code is never valid. */
  lemma FlagsExclusive(c: ActivationCode, now: int)
    ensures IsValid(c, now) ==> !IsUsed(c) && !IsExpired(c, now)
    ensures IsExpired(c, now) ==> !IsValid(c, now)
    ensures IsUsed(c) ==> !IsValid(c, now)
  {
  }

  /** Away from the expiry instant, validity is exactly "unused and not expired". */
  lemma ValidIffUnusedAndUnexpired(c: ActivationCode, now: int)
    requires c.expiresAt != now
    ensures IsValid(c, now) <==> !IsUsed(c) && !IsExpired(c, now)
  {
  }

  /** At the instant `expires_at == now`, an unused code is neither valid nor
      expired: `isFuture` and `isPast` are both strict. */
  lemma ExpiryInstant(c: ActivationCode, now: int)
    requires c.expiresAt == now && c.usedAt.None?
    ensures !IsValid(c, now) && !IsExpired(c, now) && !IsUsed(c)
  {
  }
}
