/** Code generation: the store effect of `generate_code` in votes/views.py. */
module Generation {
  import opened Wrappers
  import opened Models
  import opened Validation

  /**
    `Unauthenticated` is the redirect to the login page; `ExpiryOutOfRange`
    is the `OverflowError` of a creation time plus `hours` hours that no
    datetime can hold; `DuplicateToken` is the unique constraint on the code
    string rejecting a random token that is already taken.
   */
  datatype GenerateError = Unauthenticated | ExpiryOutOfRange | DuplicateToken(token: string)

  datatype GenerateResult = GenerateResult(store: Store, outcome: Outcome<GenerateError>)

  /** The tokens are pairwise different and none is already a code. */
  predicate Fresh(codes: seq<Code>, tokens: seq<string>) {
    && (forall i, j :: 0 <= i < j < |tokens| ==> tokens[i] != tokens[j])
    && (forall i :: 0 <= i < |tokens| ==> !TokenTaken(codes, tokens[i]))
  }

  /** Inserting a new code with the next key and an untaken token keeps the schema's integrity. */
  lemma InsertPreservesWellFormed(s: Store, token: string, expiresAt: Time)
    requires WellFormed(s)
    requires !TokenTaken(s.codes, token)
    ensures WellFormed(s.(codes := s.codes + [NewCode(s.nextCodeId, token, expiresAt)], nextCodeId := s.nextCodeId + 1))
  {
    var codes := s.codes + [NewCode(s.nextCodeId, token, expiresAt)];
    forall k | 0 <= k < |s.votes| ensures HasCode(codes, s.votes[k].voterCode) {
      var j :| 0 <= j < |s.codes| && s.codes[j].id == s.votes[k].voterCode;
      assert codes[j] == s.codes[j];
    }
  }

  /** A token is taken after an insertion exactly when it was taken before or is the new code's. */
  lemma TokenTakenAppend(codes: seq<Code>, c: Code, token: string)
    ensures TokenTaken(codes + [c], token) <==> TokenTaken(codes, token) || c.token == token
  {
    var codes' := codes + [c];
    if TokenTaken(codes, token) {
      var m :| 0 <= m < |codes| && codes[m].token == token;
      assert codes'[m] == codes[m];
    }
    if c.token == token {
      assert codes'[|codes|] == c;
    }
    if TokenTaken(codes', token) {
      var m :| 0 <= m < |codes'| && codes'[m].token == token;
      assert m < |codes| ==> codes[m] == codes'[m];
    }
  }

  /** Freshness of a token list splits into its first token and the rest after the first is inserted. */
  lemma FreshStep(codes: seq<Code>, tokens: seq<string>, c: Code)
    requires |tokens| > 0 && c.token == tokens[0]
    ensures Fresh(codes, tokens) <==> !TokenTaken(codes, tokens[0]) && Fresh(codes + [c], tokens[1..])
  {
    forall i | 0 <= i < |tokens| {
      TokenTakenAppend(codes, c, tokens[i]);
    }
    assert forall i :: 0 <= i < |tokens[1..]| ==> tokens[1..][i] == tokens[i + 1];
  }

  /**
    The creation loop: one new unused code per token, keyed by the next
    auto-increment key and expiring at `expiresAt`. A token that is already
    taken stops the loop; the codes created before it remain.
   */
  function AddCodes(s: Store, tokens: seq<string>, expiresAt: Time): (r: GenerateResult)
    ensures r.store.categories == s.categories && r.store.candidates == s.candidates && r.store.votes == s.votes
    ensures |s.codes| <= |r.store.codes| <= |s.codes| + |tokens|
    ensures r.store.codes[..|s.codes|] == s.codes
    ensures forall k :: |s.codes| <= k < |r.store.codes| ==>
      r.store.codes[k] == NewCode(s.nextCodeId + (k - |s.codes|), tokens[k - |s.codes|], expiresAt)
    ensures r.store.nextCodeId == s.nextCodeId + (|r.store.codes| - |s.codes|)
    ensures r.outcome.Pass? <==> |r.store.codes| == |s.codes| + |tokens|
    ensures r.outcome.Fail? ==>
      && |r.store.codes| < |s.codes| + |tokens|
      && r.outcome.error == DuplicateToken(tokens[|r.store.codes| - |s.codes|])
      && TokenTaken(r.store.codes, tokens[|r.store.codes| - |s.codes|])
    decreases |tokens|
  {
    if |tokens| == 0 then GenerateResult(s, Pass)
    else if TokenTaken(s.codes, tokens[0]) then GenerateResult(s, Fail(DuplicateToken(tokens[0])))
    else
      var c := NewCode(s.nextCodeId, tokens[0], expiresAt);
      var s1 := s.(codes := s.codes + [c], nextCodeId := s.nextCodeId + 1);
      var r := AddCodes(s1, tokens[1..], expiresAt);
      var n := |r.store.codes| - |s.codes|;
      CreatedCodesStep(s.codes, r.store.codes, tokens, s.nextCodeId, expiresAt);
      assert n < |tokens| ==> tokens[n] == tokens[1..][n - 1];
      r
  }

  /** The creation loop keeps the schema's integrity: it inserts only untaken tokens under fresh keys. */
  lemma {:induction false} AddCodesWellFormed(s: Store, tokens: seq<string>, expiresAt: Time)
    requires WellFormed(s)
    ensures WellFormed(AddCodes(s, tokens, expiresAt).store)
    decreases |tokens|
  {
    if |tokens| > 0 && !TokenTaken(s.codes, tokens[0]) {
      var c := NewCode(s.nextCodeId, tokens[0], expiresAt);
      var s1 := s.(codes := s.codes + [c], nextCodeId := s.nextCodeId + 1);
      InsertPreservesWellFormed(s, tokens[0], expiresAt);
      AddCodesWellFormed(s1, tokens[1..], expiresAt);
    }
  }

  /** Every token yields a code exactly when the tokens are pairwise different and none was taken. */
  lemma {:induction false} AddCodesAllFresh(s: Store, tokens: seq<string>, expiresAt: Time)
    ensures AddCodes(s, tokens, expiresAt).outcome.Pass? <==> Fresh(s.codes, tokens)
    decreases |tokens|
  {
    if |tokens| > 0 && !TokenTaken(s.codes, tokens[0]) {
      var c := NewCode(s.nextCodeId, tokens[0], expiresAt);
      var s1 := s.(codes := s.codes + [c], nextCodeId := s.nextCodeId + 1);
      FreshStep(s.codes, tokens, c);
      AddCodesAllFresh(s1, tokens[1..], expiresAt);
    }
  }

  /** One more code created in front of the codes created from the remaining tokens. */
  lemma CreatedCodesStep(codes: seq<Code>, after: seq<Code>, tokens: seq<string>, next: CodeId, expiresAt: Time)
    requires |tokens| > 0 && |codes| + 1 <= |after| <= |codes| + |tokens|
    requires after[..|codes| + 1] == codes + [NewCode(next, tokens[0], expiresAt)]
    requires forall k :: |codes| + 1 <= k < |after| ==>
      after[k] == NewCode(next + 1 + (k - (|codes| + 1)), tokens[1..][k - (|codes| + 1)], expiresAt)
    ensures after[..|codes|] == codes
    ensures forall k :: |codes| <= k < |after| ==>
      after[k] == NewCode(next + (k - |codes|), tokens[k - |codes|], expiresAt)
  {
    assert after[..|codes|] == after[..|codes| + 1][..|codes|];
    forall k | |codes| <= k < |after|
      ensures after[k] == NewCode(next + (k - |codes|), tokens[k - |codes|], expiresAt)
    {
      if k == |codes| {
        assert after[k] == after[..|codes| + 1][k];
      } else {
        assert tokens[k - |codes|] == tokens[1..][k - (|codes| + 1)];
      }
    }
  }

  /**
    `generate_code`: an unauthenticated request changes nothing; otherwise
    `count` codes (none when `count` is not positive) are created from the
    first `count` random tokens, each unused and expiring `hours` hours
    after `now`. The expiry time is computed before the first row is
    written, so when it overflows the datetime range no code is created.
   */
  function GenerateCodes(s: Store, authenticated: bool, count: int, hours: int, now: Time,
                         tokens: seq<string>): (r: GenerateResult)
    requires WellFormed(s)
    requires count <= |tokens|
    ensures WellFormed(r.store)
    ensures !authenticated ==> r == GenerateResult(s, Fail(Unauthenticated))
    ensures r.store.categories == s.categories && r.store.candidates == s.candidates && r.store.votes == s.votes
    ensures |s.codes| <= |r.store.codes| <= |s.codes| + Created(count)
    ensures r.store.codes[..|s.codes|] == s.codes
    ensures r.outcome == Fail(ExpiryOutOfRange) <==>
      authenticated && Created(count) > 0 && !InDateRange(now + hours * SecondsPerHour)
    ensures r.outcome == Fail(ExpiryOutOfRange) ==> r.store == s
    ensures r.outcome.Fail? && authenticated ==> r.outcome.error.DuplicateToken? || r.outcome.error.ExpiryOutOfRange?
    ensures r.outcome.Pass? ==> authenticated
    ensures forall k :: |s.codes| <= k < |r.store.codes| ==> InDateRange(r.store.codes[k].expiresAt)
    ensures authenticated && (count <= 0 || InDateRange(now + hours * SecondsPerHour)) &&
            Fresh(s.codes, tokens[..Created(count)]) ==>
      && r.outcome.Pass?
      && |r.store.codes| == |s.codes| + Created(count)
      && forall k :: 0 <= k < Created(count) ==>
           r.store.codes[|s.codes| + k] == NewCode(s.nextCodeId + k, tokens[k], now + hours * SecondsPerHour)
  {
    if !authenticated then GenerateResult(s, Fail(Unauthenticated))
    else if Created(count) > 0 && !InDateRange(now + hours * SecondsPerHour) then
      GenerateResult(s, Fail(ExpiryOutOfRange))
    else
      var batch := tokens[..Created(count)];
      var expiresAt := now + hours * SecondsPerHour;
      AddCodesAllFresh(s, batch, expiresAt);
      AddCodesWellFormed(s, batch, expiresAt);
      var r := AddCodes(s, batch, expiresAt);
      assert forall k :: |s.codes| <= k < |r.store.codes| ==> r.store.codes[k].expiresAt == expiresAt;
      assert forall k :: 0 <= k < |batch| ==> batch[k] == tokens[k];
      r
  }

  /** How many codes `range(count)` asks for. */
  function Created(count: int): nat {
    if count > 0 then count else 0
  }

  /**
    A freshly generated code is accepted by the validator from its creation
    time until just before its expiry, and reported expired from then on.
   */
  lemma {:induction false} GeneratedCodeValidUntilExpiry(s: Store, count: int, hours: int, now: Time,
                                                        tokens: seq<string>, k: nat, t: Time)
    requires WellFormed(s)
    requires count <= |tokens|
    requires GenerateCodes(s, true, count, hours, now, tokens).outcome.Pass?
    requires k < Created(count)
    ensures var r := GenerateCodes(s, true, count, hours, now, tokens);
      && (t < now + hours * SecondsPerHour ==> ValidateCode(r.store, tokens[k], t).Success?)
      && (t >= now + hours * SecondsPerHour ==> ValidateCode(r.store, tokens[k], t) == Failure(Expired))
  {
    var r := GenerateCodes(s, true, count, hours, now, tokens);
    var n := Created(count);
    var add := AddCodes(s, tokens[..n], now + hours * SecondsPerHour);
    assert r == add;
    var i := |s.codes| + k;
    assert r.store.codes[i] == NewCode(s.nextCodeId + k, tokens[k], now + hours * SecondsPerHour);
    assert r.store.codes[i].token == tokens[k];
  }
}
