/** The vote submission transition: `submit_vote` in votes/views.py. */
module Submission {
  import opened Wrappers
  import opened Models

  /**
    Why a submission records nothing. `NoSuchCode` and `NoSuchCandidate` are
    the lookups by key that raise in the source and abort the request before
    anything is written.
   */
  datatype SubmitError = NoSuchCode | AlreadyVoted | NoSuchCandidate | IncompleteBallot

  /** The posted form: the candidate key chosen for each answered category. */
  type Selections = map<CategoryId, CandidateId>

  datatype SubmitResult = SubmitResult(store: Store, outcome: Outcome<SubmitError>)

  /** Some vote already references the code. */
  predicate HasVoted(votes: seq<Vote>, code: CodeId) {
    exists k :: 0 <= k < |votes| && votes[k].voterCode == code
  }

  /** Every category has a selection. */
  predicate Complete(categories: seq<Category>, sel: Selections) {
    forall i :: 0 <= i < |categories| ==> categories[i].id in sel
  }

  /** Every selection made for one of the categories names an existing candidate. */
  predicate Resolves(categories: seq<Category>, candidates: seq<Candidate>, sel: Selections) {
    forall i :: 0 <= i < |categories| && categories[i].id in sel ==>
      HasCandidate(candidates, sel[categories[i].id])
  }

  /**
    The ballot built from the form: one vote per category that has a
    selection, in category order. The candidate is looked up by key only;
    whether it belongs to that category is not checked.
   */
  function CollectVotes(categories: seq<Category>, candidates: seq<Candidate>, sel: Selections,
                        code: CodeId, now: Time): (r: Result<seq<Vote>, SubmitError>)
    ensures r.Success? <==> Resolves(categories, candidates, sel)
    ensures r.Failure? ==> r.error == NoSuchCandidate
    ensures r.Success? ==> |r.value| <= |categories|
    ensures r.Success? ==> (|r.value| == |categories| <==> Complete(categories, sel))
    ensures r.Success? ==> forall k :: 0 <= k < |r.value| ==>
      && r.value[k].voterCode == code
      && r.value[k].votedAt == now
      && HasCandidate(candidates, r.value[k].candidate)
    ensures r.Success? && Complete(categories, sel) ==> forall k :: 0 <= k < |categories| ==>
      r.value[k].candidate == sel[categories[k].id]
  {
    if |categories| == 0 then Success([])
    else
      var rest := CollectVotes(categories[1..], candidates, sel, code, now);
      if categories[0].id in sel then
        match FindCandidate(candidates, sel[categories[0].id])
        case None => Failure(NoSuchCandidate)
        case Some(_) =>
          if rest.Failure? then rest
          else Success([Vote(code, sel[categories[0].id], now)] + rest.value)
      else rest
  }

  /**
    `t` is `s` after the complete ballot `sel` of `code` was stored at `now`:
    one vote per category appended in category order, the code marked used,
    and nothing else changed.
   */
  predicate Recorded(s: Store, t: Store, code: CodeId, sel: Selections, now: Time) {
    && t.categories == s.categories
    && t.candidates == s.candidates
    && t.nextCodeId == s.nextCodeId
    && |t.votes| == |s.votes| + |s.categories|
    && t.votes[..|s.votes|] == s.votes
    && (forall k :: 0 <= k < |s.categories| ==>
          s.categories[k].id in sel && t.votes[|s.votes| + k] == Vote(code, sel[s.categories[k].id], now))
    && |t.codes| == |s.codes|
    && (forall i :: 0 <= i < |s.codes| ==>
          t.codes[i] == if s.codes[i].id == code then s.codes[i].(isUsed := true) else s.codes[i])
  }

  /**
    Submits the ballot `sel` for the code with key `codeId`. It is refused
    when the code is unknown, when a vote already references the code, when a
    selection names no candidate, or when some category is unanswered; a
    refusal leaves the store untouched. Otherwise all votes and the used flag
    are written together. Neither `is_used` nor the expiry time is consulted.
   */
  function SubmitVote(s: Store, codeId: CodeId, sel: Selections, now: Time): (r: SubmitResult)
    requires WellFormed(s)
    ensures WellFormed(r.store)
    ensures r.outcome.Fail? ==> r.store == s
    ensures r.outcome == Fail(NoSuchCode) <==> !HasCode(s.codes, codeId)
    ensures r.outcome == Fail(AlreadyVoted) <==> HasCode(s.codes, codeId) && HasVoted(s.votes, codeId)
    ensures r.outcome == Fail(NoSuchCandidate) <==>
      HasCode(s.codes, codeId) && !HasVoted(s.votes, codeId) && !Resolves(s.categories, s.candidates, sel)
    ensures r.outcome == Fail(IncompleteBallot) <==>
      && HasCode(s.codes, codeId) && !HasVoted(s.votes, codeId)
      && Resolves(s.categories, s.candidates, sel) && !Complete(s.categories, sel)
    ensures r.outcome.Pass? <==>
      && HasCode(s.codes, codeId) && !HasVoted(s.votes, codeId)
      && Resolves(s.categories, s.candidates, sel) && Complete(s.categories, sel)
    ensures r.outcome.Pass? ==> Recorded(s, r.store, codeId, sel, now)
  {
    match FindCode(s.codes, codeId)
    case None => SubmitResult(s, Fail(NoSuchCode))
    case Some(i) =>
      if HasVoted(s.votes, codeId) then SubmitResult(s, Fail(AlreadyVoted))
      else match CollectVotes(s.categories, s.candidates, sel, codeId, now)
        case Failure(e) => SubmitResult(s, Fail(e))
        case Success(ballot) =>
          if |ballot| == |s.categories| then
            StoreBallot(s, i, ballot, codeId, sel, now);
            SubmitResult(s.(votes := s.votes + ballot, codes := s.codes[i := s.codes[i].(isUsed := true)]), Pass)
          else SubmitResult(s, Fail(IncompleteBallot))
  }

  /** Storing a complete ballot for the code at position `i` records it and keeps the schema's integrity. */
  lemma StoreBallot(s: Store, i: nat, ballot: seq<Vote>, codeId: CodeId, sel: Selections, now: Time)
    requires WellFormed(s)
    requires i < |s.codes| && s.codes[i].id == codeId
    requires CollectVotes(s.categories, s.candidates, sel, codeId, now) == Success(ballot)
    requires |ballot| == |s.categories|
    ensures Complete(s.categories, sel)
    ensures var t := s.(votes := s.votes + ballot, codes := s.codes[i := s.codes[i].(isUsed := true)]);
      WellFormed(t) && Recorded(s, t, codeId, sel, now)
  {
    var t := s.(votes := s.votes + ballot, codes := s.codes[i := s.codes[i].(isUsed := true)]);
    RecordPreservesWellFormed(s, i, ballot);
    assert t.votes[..|s.votes|] == s.votes;
    forall k | 0 <= k < |s.categories|
      ensures s.categories[k].id in sel && t.votes[|s.votes| + k] == Vote(codeId, sel[s.categories[k].id], now)
    {
      assert t.votes[|s.votes| + k] == ballot[k];
    }
    forall j | 0 <= j < |s.codes|
      ensures t.codes[j] == if s.codes[j].id == codeId then s.codes[j].(isUsed := true) else s.codes[j]
    {
      if j != i {
        assert CodeKey(s.codes[j]) != CodeKey(s.codes[i]);
      }
    }
  }

  /** Appending votes for an existing code and existing candidates, and marking a code used, keeps the schema's integrity. */
  lemma RecordPreservesWellFormed(s: Store, i: nat, ballot: seq<Vote>)
    requires WellFormed(s)
    requires i < |s.codes|
    requires forall k :: 0 <= k < |ballot| ==>
      ballot[k].voterCode == s.codes[i].id && HasCandidate(s.candidates, ballot[k].candidate)
    ensures WellFormed(s.(votes := s.votes + ballot, codes := s.codes[i := s.codes[i].(isUsed := true)]))
  {
    var codes := s.codes[i := s.codes[i].(isUsed := true)];
    var t := s.(votes := s.votes + ballot, codes := codes);
    assert forall j :: 0 <= j < |codes| ==> codes[j].id == s.codes[j].id && codes[j].token == s.codes[j].token;
    forall k | 0 <= k < |t.votes| ensures HasCode(codes, t.votes[k].voterCode) {
      if k < |s.votes| {
        var j :| 0 <= j < |s.codes| && s.codes[j].id == s.votes[k].voterCode;
        assert codes[j].id == t.votes[k].voterCode;
      } else {
        assert t.votes[k] == ballot[k - |s.votes|];
        assert codes[i].id == t.votes[k].voterCode;
      }
    }
  }

  /**
    No double vote: when a submission is accepted (the conditions of
    `SubmitVote`'s success) and there is at least one category, a further
    submission with that code on the store the accepted one produced is
    refused as `AlreadyVoted` and changes nothing.
   */
  lemma SecondSubmissionRefused(s: Store, codeId: CodeId, sel: Selections, now: Time,
                                sel2: Selections, later: Time)
    requires WellFormed(s)
    requires |s.categories| > 0
    requires HasCode(s.codes, codeId) && !HasVoted(s.votes, codeId)
    requires Resolves(s.categories, s.candidates, sel) && Complete(s.categories, sel)
    ensures var t := SubmitVote(s, codeId, sel, now).store;
      SubmitVote(t, codeId, sel2, later) == SubmitResult(t, Fail(AlreadyVoted))
  {
    var t := SubmitVote(s, codeId, sel, now).store;
    RecordedMarksVoted(s, t, codeId, sel, now);
  }

  /** A stored non-empty ballot leaves its code in place and referenced by a vote. */
  lemma RecordedMarksVoted(s: Store, t: Store, code: CodeId, sel: Selections, now: Time)
    requires Recorded(s, t, code, sel, now)
    requires |s.categories| > 0 && HasCode(s.codes, code)
    ensures HasCode(t.codes, code) && HasVoted(t.votes, code)
  {
    assert t.votes[|s.votes| + 0] == Vote(code, sel[s.categories[0].id], now);
    var j :| 0 <= j < |s.codes| && s.codes[j].id == code;
    assert t.codes[j].id == code;
  }

  /**
    The double-vote guard looks at votes only: with no categories a stored
    ballot adds no vote, so the same code is accepted again.
   */
  lemma EmptyBallotCanBeResubmitted(s: Store, codeId: CodeId, sel: Selections, now: Time,
                                    sel2: Selections, later: Time)
    requires WellFormed(s)
    requires |s.categories| == 0
    requires SubmitVote(s, codeId, sel, now).outcome.Pass?
    ensures var t := SubmitVote(s, codeId, sel, now).store;
      && t.votes == s.votes
      && SubmitVote(t, codeId, sel2, later).outcome.Pass?
  {
    var t := SubmitVote(s, codeId, sel, now).store;
    assert Recorded(s, t, codeId, sel, now);
    assert t.votes == s.votes[..|s.votes|];
    var j :| 0 <= j < |s.codes| && s.codes[j].id == codeId;
    assert t.codes[j].id == codeId;
  }

  /**
    Submission does not re-check the code: changing its used flag or its
    expiry time does not change the outcome.
   */
  lemma SubmitIgnoresCodeState(s: Store, i: nat, used: bool, expiresAt: Time,
                               codeId: CodeId, sel: Selections, now: Time)
    requires WellFormed(s)
    requires i < |s.codes|
    ensures var s' := s.(codes := s.codes[i := s.codes[i].(isUsed := used, expiresAt := expiresAt)]);
      && WellFormed(s')
      && SubmitVote(s', codeId, sel, now).outcome == SubmitVote(s, codeId, sel, now).outcome
  {
    var codes := s.codes[i := s.codes[i].(isUsed := used, expiresAt := expiresAt)];
    var s' := s.(codes := codes);
    assert forall j :: 0 <= j < |codes| ==> codes[j].id == s.codes[j].id && codes[j].token == s.codes[j].token;
    assert forall id :: HasCode(codes, id) <==> HasCode(s.codes, id) by {
      forall id ensures HasCode(codes, id) <==> HasCode(s.codes, id) {
        if HasCode(s.codes, id) {
          var j :| 0 <= j < |s.codes| && s.codes[j].id == id;
          assert codes[j].id == id;
        }
        if HasCode(codes, id) {
          var j :| 0 <= j < |codes| && codes[j].id == id;
          assert s.codes[j].id == id;
        }
      }
    }
    assert WellFormed(s');
  }
}
