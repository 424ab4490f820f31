/**
  Properties of the code lifecycle that span several operations: a code is
  created unused, validated, and consumed by one stored ballot; on the
  resulting store it is refused by the validator and, when there is at least
  one category, by the submission.
  The submission guard looks only at the votes, so a deletion that removes
  the code's votes lets the code vote again.
 */
module Lifecycle {
  import opened Wrappers
  import opened Seqs
  import opened Models
  import opened Validation
  import opened Submission
  import opened Generation
  import opened Cascade

  /** Every code that some vote references is marked used. */
  predicate UsedIfVoted(s: Store) {
    forall k, i :: 0 <= k < |s.votes| && 0 <= i < |s.codes| && s.codes[i].id == s.votes[k].voterCode ==>
      s.codes[i].isUsed
  }

  /** After a ballot is stored, the validator reports its code as already used, at any time. */
  lemma ValidateAfterSubmit(s: Store, codeId: CodeId, sel: Selections, now: Time, i: nat, later: Time)
    requires WellFormed(s)
    requires SubmitVote(s, codeId, sel, now).outcome.Pass?
    requires i < |s.codes| && s.codes[i].id == codeId
    ensures ValidateCode(SubmitVote(s, codeId, sel, now).store, s.codes[i].token, later) == Failure(AlreadyUsed)
  {
    var t := SubmitVote(s, codeId, sel, now).store;
    assert Recorded(s, t, codeId, sel, now);
    assert t.codes[i].token == s.codes[i].token && t.codes[i].isUsed;
  }

  /** Under the invariant, a code that has votes is refused by the validator as already used. */
  lemma VotedCodeRejected(s: Store, k: nat, i: nat, now: Time)
    requires WellFormed(s) && UsedIfVoted(s)
    requires k < |s.votes| && i < |s.codes| && s.codes[i].id == s.votes[k].voterCode
    ensures ValidateCode(s, s.codes[i].token, now) == Failure(AlreadyUsed)
  {
  }

  /** A stored ballot keeps the invariant: the votes it adds belong to the code it marks used. */
  lemma SubmitKeepsUsedIfVoted(s: Store, codeId: CodeId, sel: Selections, now: Time)
    requires WellFormed(s) && UsedIfVoted(s)
    ensures UsedIfVoted(SubmitVote(s, codeId, sel, now).store)
  {
    var r := SubmitVote(s, codeId, sel, now);
    if r.outcome.Pass? {
      RecordedKeepsUsedIfVoted(s, r.store, codeId, sel, now);
    }
  }

  /** Appending votes for one code while marking exactly that code used keeps the invariant. */
  lemma RecordedKeepsUsedIfVoted(s: Store, t: Store, codeId: CodeId, sel: Selections, now: Time)
    requires Recorded(s, t, codeId, sel, now) && UsedIfVoted(s)
    ensures UsedIfVoted(t)
  {
    forall k, i | 0 <= k < |t.votes| && 0 <= i < |t.codes| && t.codes[i].id == t.votes[k].voterCode
      ensures t.codes[i].isUsed
    {
      if k < |s.votes| {
        assert t.votes[k] == t.votes[..|s.votes|][k];
      } else {
        var m := k - |s.votes|;
        assert t.votes[|s.votes| + m] == Vote(codeId, sel[s.categories[m].id], now);
      }
    }
  }

  /** Generation keeps the invariant: the new codes carry fresh keys no vote references. */
  lemma GenerateKeepsUsedIfVoted(s: Store, authenticated: bool, count: int, hours: int, now: Time,
                                 tokens: seq<string>)
    requires WellFormed(s) && UsedIfVoted(s)
    requires count <= |tokens|
    ensures UsedIfVoted(GenerateCodes(s, authenticated, count, hours, now, tokens).store)
  {
    var t := GenerateCodes(s, authenticated, count, hours, now, tokens).store;
    if authenticated && (Created(count) == 0 || InDateRange(now + hours * SecondsPerHour)) {
      var add := AddCodes(s, tokens[..Created(count)], now + hours * SecondsPerHour);
      assert t == add.store;
      forall k, i | 0 <= k < |t.votes| && 0 <= i < |t.codes| && t.codes[i].id == t.votes[k].voterCode
        ensures t.codes[i].isUsed
      {
        var j :| 0 <= j < |s.codes| && s.codes[j].id == s.votes[k].voterCode;
        assert s.codes[j].id < s.nextCodeId;
        assert i < |s.codes|;
        assert t.codes[i] == t.codes[..|s.codes|][i];
      }
    }
  }

  /** Deleting rows keeps the invariant: every remaining vote and code was there before. */
  lemma DeleteKeepsUsedIfVoted(s: Store, code: CodeId, candidate: CandidateId, category: CategoryId)
    requires WellFormed(s) && UsedIfVoted(s)
    ensures UsedIfVoted(DeleteCode(s, code))
    ensures UsedIfVoted(DeleteCandidate(s, candidate))
    ensures UsedIfVoted(DeleteCategory(s, category))
  {
    var t := DeleteCode(s, code);
    forall k, i | 0 <= k < |t.votes| && 0 <= i < |t.codes| && t.codes[i].id == t.votes[k].voterCode
      ensures t.codes[i].isUsed
    {
      assert t.votes[k] in s.votes && t.codes[i] in s.codes;
    }
  }

  /** Under a stored ballot, every vote of `code` comes from that ballot when the code had none before. */
  lemma RecordedVotesOfCode(s: Store, t: Store, code: CodeId, sel: Selections, now: Time, x: CandidateId)
    requires Recorded(s, t, code, sel, now) && !HasVoted(s.votes, code)
    requires forall i :: 0 <= i < |s.categories| ==> sel[s.categories[i].id] == x
    ensures forall k :: 0 <= k < |t.votes| && t.votes[k].voterCode == code ==> t.votes[k].candidate == x
  {
    forall k | 0 <= k < |t.votes| && t.votes[k].voterCode == code ensures t.votes[k].candidate == x {
      if k < |s.votes| {
        assert false;
      } else {
        var m := k - |s.votes|;
        assert t.votes[|s.votes| + m] == Vote(code, sel[s.categories[m].id], now);
      }
    }
  }

  /**
    Deleting a candidate re-opens a code whose every vote was for it: the
    code voted for `x` in every category, `x` is deleted with its votes, and
    the same code then casts a new ballot for `y`, although it is still
    marked used.
   */
  lemma CandidateDeletionReopensCode(s: Store, codeId: CodeId, x: CandidateId, y: CandidateId,
                                     sel: Selections, sel2: Selections, now: Time, later: Time)
    requires WellFormed(s)
    requires HasCode(s.codes, codeId) && !HasVoted(s.votes, codeId)
    requires HasCandidate(s.candidates, x) && HasCandidate(s.candidates, y) && x != y
    requires forall i :: 0 <= i < |s.categories| ==> s.categories[i].id in sel && sel[s.categories[i].id] == x
    requires forall i :: 0 <= i < |s.categories| ==> s.categories[i].id in sel2 && sel2[s.categories[i].id] == y
    ensures SubmitVote(s, codeId, sel, now).outcome.Pass?
    ensures SubmitVote(DeleteCandidate(SubmitVote(s, codeId, sel, now).store, x), codeId, sel2, later).outcome.Pass?
  {
    assert Complete(s.categories, sel) && Resolves(s.categories, s.candidates, sel);
    var t := SubmitVote(s, codeId, sel, now).store;
    assert Recorded(s, t, codeId, sel, now);
    RecordedVotesOfCode(s, t, codeId, sel, now, x);
    var i :| 0 <= i < |s.codes| && s.codes[i].id == codeId;
    assert t.codes[i].id == codeId;
    ReopenAfterDelete(t, codeId, x, y, sel2, later);
  }

  /** A code whose every vote is for `x` may submit again once `x` is deleted. */
  lemma ReopenAfterDelete(t: Store, codeId: CodeId, x: CandidateId, y: CandidateId, sel2: Selections, later: Time)
    requires WellFormed(t)
    requires HasCode(t.codes, codeId)
    requires forall k :: 0 <= k < |t.votes| && t.votes[k].voterCode == codeId ==> t.votes[k].candidate == x
    requires HasCandidate(t.candidates, y) && x != y
    requires forall i :: 0 <= i < |t.categories| ==> t.categories[i].id in sel2 && sel2[t.categories[i].id] == y
    ensures SubmitVote(DeleteCandidate(t, x), codeId, sel2, later).outcome.Pass?
  {
    var u := DeleteCandidate(t, x);
    assert HasCode(u.codes, codeId);
    forall k | 0 <= k < |u.votes| ensures u.votes[k].voterCode != codeId {
      var m :| 0 <= m < |t.votes| && t.votes[m] == u.votes[k];
    }
    assert !HasVoted(u.votes, codeId);
    var j :| 0 <= j < |t.candidates| && t.candidates[j].id == y;
    FilterKeeps(t.candidates, KeepCandidate(x), j);
    var n :| 0 <= n < |u.candidates| && u.candidates[n] == t.candidates[j];
    assert HasCandidate(u.candidates, y);
    assert Resolves(u.categories, u.candidates, sel2) && Complete(u.categories, sel2);
  }

  /**
    The submission is addressed by the code's primary key alone and never
    asks for the code string: every code row without votes can cast a
    complete ballot, even one the validator refuses.
   */
  lemma SubmitByKeyAlone(s: Store, i: nat, sel: Selections, now: Time)
    requires WellFormed(s)
    requires i < |s.codes| && !HasVoted(s.votes, s.codes[i].id)
    requires Resolves(s.categories, s.candidates, sel) && Complete(s.categories, sel)
    ensures SubmitVote(s, s.codes[i].id, sel, now).outcome.Pass?
    ensures !IsValid(s.codes[i], now) ==> ValidateCode(s, s.codes[i].token, now).Failure?
  {
  }
}
