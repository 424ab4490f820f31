/** The code validator: `validate_code` in votes/views.py. */
module Validation {
  import opened Wrappers
  import opened Models

  /** The three messages `validate_code` can produce instead of a code. */
  datatype CodeError = NotFound | AlreadyUsed | Expired

  /**
    Looks `token` up among the codes and returns its row when it is valid at
    `now`. An unknown string is `NotFound`; a used code is `AlreadyUsed` even
    when it has also expired; an unused code past its expiry is `Expired`.
    The store is only read.
   */
  function ValidateCode(s: Store, token: string, now: Time): (r: Result<Code, CodeError>)
    requires WellFormed(s)
    ensures r == Failure(NotFound) <==> !TokenTaken(s.codes, token)
    ensures r.Success? ==> r.value in s.codes && r.value.token == token && IsValid(r.value, now)
    ensures forall i :: 0 <= i < |s.codes| && s.codes[i].token == token ==>
      && (r.Success? <==> IsValid(s.codes[i], now))
      && (r.Success? ==> r.value == s.codes[i])
      && (r == Failure(AlreadyUsed) <==> s.codes[i].isUsed)
      && (r == Failure(Expired) <==> !s.codes[i].isUsed && s.codes[i].expiresAt <= now)
  {
    match FindToken(s.codes, token)
    case None => Failure(NotFound)
    case Some(i) =>
      var c := s.codes[i];
      if IsValid(c, now) then Success(c)
      else if c.isUsed then Failure(AlreadyUsed)
      else Failure(Expired)
  }

  /** Validation never succeeds for a used or expired code. */
  lemma InvalidCodeRejected(s: Store, token: string, now: Time, i: nat)
    requires WellFormed(s)
    requires i < |s.codes| && s.codes[i].token == token
    requires s.codes[i].isUsed || s.codes[i].expiresAt <= now
    ensures ValidateCode(s, token, now).Failure?
    ensures s.codes[i].isUsed ==> ValidateCode(s, token, now) == Failure(AlreadyUsed)
  {
  }
}
