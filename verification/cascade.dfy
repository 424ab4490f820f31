/**
  Row deletion with the `on_delete=CASCADE` foreign keys of votes/models.py:
  deleting a category deletes its candidates, and deleting a candidate or a
  code deletes the votes that reference it.
 */
module Cascade {
  import opened Seqs
  import opened Models
  import opened Tally

  // The rows that survive each deletion.
  function KeepCode(id: CodeId): Code -> bool { (c: Code) => c.id != id }
  function KeepVoteOfCode(id: CodeId): Vote -> bool { (v: Vote) => v.voterCode != id }
  function KeepCandidate(id: CandidateId): Candidate -> bool { (c: Candidate) => c.id != id }
  function KeepVoteOfCandidate(id: CandidateId): Vote -> bool { (v: Vote) => v.candidate != id }
  function KeepCategory(id: CategoryId): Category -> bool { (c: Category) => c.id != id }
  function KeepCandidateOfCategory(id: CategoryId): Candidate -> bool { (c: Candidate) => c.category != id }
  function KeepVoteOfCategory(candidates: seq<Candidate>, id: CategoryId): Vote -> bool {
    (v: Vote) => !InCategory(candidates, v.candidate, id)
  }

  /** Some candidate with key `c` belongs to category `cat`. */
  predicate InCategory(candidates: seq<Candidate>, c: CandidateId, cat: CategoryId) {
    exists j :: 0 <= j < |candidates| && candidates[j].id == c && candidates[j].category == cat
  }

  /** Deletes the code with key `id` and every vote cast with it. */
  function DeleteCode(s: Store, id: CodeId): (r: Store)
    requires WellFormed(s)
    ensures WellFormed(r)
    ensures !HasCode(r.codes, id)
    ensures forall k :: 0 <= k < |r.votes| ==> r.votes[k].voterCode != id
    ensures forall i :: 0 <= i < |r.codes| ==> r.codes[i] in s.codes
    ensures forall k :: 0 <= k < |r.votes| ==> r.votes[k] in s.votes
    ensures r.categories == s.categories && r.candidates == s.candidates && r.nextCodeId == s.nextCodeId
  {
    DeleteCodeWellFormed(s, id);
    s.(codes := Filter(s.codes, KeepCode(id)), votes := Filter(s.votes, KeepVoteOfCode(id)))
  }

  lemma DeleteCodeWellFormed(s: Store, id: CodeId)
    requires WellFormed(s)
    ensures WellFormed(s.(codes := Filter(s.codes, KeepCode(id)), votes := Filter(s.votes, KeepVoteOfCode(id))))
  {
    var r := s.(codes := Filter(s.codes, KeepCode(id)), votes := Filter(s.votes, KeepVoteOfCode(id)));
    FilterKeepsDistinct(s.codes, KeepCode(id), CodeKey);
    FilterKeepsDistinct(s.codes, KeepCode(id), CodeToken);
    forall k | 0 <= k < |r.votes| ensures HasCode(r.codes, r.votes[k].voterCode) {
      var j :| 0 <= j < |s.codes| && s.codes[j].id == r.votes[k].voterCode;
      FilterKeeps(s.codes, KeepCode(id), j);
    }
  }

  /** Deleting a code keeps every other code, and every copy of every vote cast with another code. */
  lemma DeleteCodeKeeps(s: Store, id: CodeId)
    requires WellFormed(s)
    ensures forall i :: 0 <= i < |s.codes| && s.codes[i].id != id ==> s.codes[i] in DeleteCode(s, id).codes
    ensures forall k :: 0 <= k < |s.votes| && s.votes[k].voterCode != id ==> s.votes[k] in DeleteCode(s, id).votes
    ensures forall v: Vote :: v.voterCode != id ==> multiset(DeleteCode(s, id).votes)[v] == multiset(s.votes)[v]
  {
    forall i | 0 <= i < |s.codes| && s.codes[i].id != id ensures s.codes[i] in DeleteCode(s, id).codes {
      FilterKeeps(s.codes, KeepCode(id), i);
    }
    forall k | 0 <= k < |s.votes| && s.votes[k].voterCode != id ensures s.votes[k] in DeleteCode(s, id).votes {
      FilterKeeps(s.votes, KeepVoteOfCode(id), k);
    }
    forall v: Vote | v.voterCode != id ensures multiset(DeleteCode(s, id).votes)[v] == multiset(s.votes)[v] {
      FilterKeepsCopies(s.votes, KeepVoteOfCode(id), v);
    }
  }

  /** Deletes the candidate with key `id` and every vote for it. */
  function DeleteCandidate(s: Store, id: CandidateId): (r: Store)
    requires WellFormed(s)
    ensures WellFormed(r)
    ensures !HasCandidate(r.candidates, id)
    ensures forall k :: 0 <= k < |r.votes| ==> r.votes[k].candidate != id
    ensures forall j :: 0 <= j < |r.candidates| ==> r.candidates[j] in s.candidates
    ensures forall k :: 0 <= k < |r.votes| ==> r.votes[k] in s.votes
    ensures r.codes == s.codes && r.categories == s.categories && r.nextCodeId == s.nextCodeId
  {
    DeleteCandidateWellFormed(s, id);
    s.(candidates := Filter(s.candidates, KeepCandidate(id)), votes := Filter(s.votes, KeepVoteOfCandidate(id)))
  }

  lemma DeleteCandidateWellFormed(s: Store, id: CandidateId)
    requires WellFormed(s)
    ensures WellFormed(s.(candidates := Filter(s.candidates, KeepCandidate(id)),
                          votes := Filter(s.votes, KeepVoteOfCandidate(id))))
  {
    var r := s.(candidates := Filter(s.candidates, KeepCandidate(id)), votes := Filter(s.votes, KeepVoteOfCandidate(id)));
    FilterKeepsDistinct(s.candidates, KeepCandidate(id), CandidateKey);
    forall k | 0 <= k < |r.votes| ensures HasCandidate(r.candidates, r.votes[k].candidate) {
      var j :| 0 <= j < |s.candidates| && s.candidates[j].id == r.votes[k].candidate;
      FilterKeeps(s.candidates, KeepCandidate(id), j);
    }
  }

  /** Deleting a candidate keeps every other candidate, and every copy of every vote for another candidate. */
  lemma DeleteCandidateKeeps(s: Store, id: CandidateId)
    requires WellFormed(s)
    ensures forall j :: 0 <= j < |s.candidates| && s.candidates[j].id != id ==>
      s.candidates[j] in DeleteCandidate(s, id).candidates
    ensures forall k :: 0 <= k < |s.votes| && s.votes[k].candidate != id ==> s.votes[k] in DeleteCandidate(s, id).votes
    ensures forall v: Vote :: v.candidate != id ==> multiset(DeleteCandidate(s, id).votes)[v] == multiset(s.votes)[v]
  {
    forall j | 0 <= j < |s.candidates| && s.candidates[j].id != id
      ensures s.candidates[j] in DeleteCandidate(s, id).candidates
    {
      FilterKeeps(s.candidates, KeepCandidate(id), j);
    }
    forall k | 0 <= k < |s.votes| && s.votes[k].candidate != id ensures s.votes[k] in DeleteCandidate(s, id).votes {
      FilterKeeps(s.votes, KeepVoteOfCandidate(id), k);
    }
    forall v: Vote | v.candidate != id ensures multiset(DeleteCandidate(s, id).votes)[v] == multiset(s.votes)[v] {
      FilterKeepsCopies(s.votes, KeepVoteOfCandidate(id), v);
    }
  }

  /** Deletes the category with key `id`, its candidates, and every vote for one of them. */
  function DeleteCategory(s: Store, id: CategoryId): (r: Store)
    requires WellFormed(s)
    ensures WellFormed(r)
    ensures !HasCategory(r.categories, id)
    ensures forall j :: 0 <= j < |r.candidates| ==> r.candidates[j].category != id
    ensures forall k :: 0 <= k < |r.votes| ==> !InCategory(s.candidates, r.votes[k].candidate, id)
    ensures forall i :: 0 <= i < |r.categories| ==> r.categories[i] in s.categories
    ensures forall j :: 0 <= j < |r.candidates| ==> r.candidates[j] in s.candidates
    ensures forall k :: 0 <= k < |r.votes| ==> r.votes[k] in s.votes
    ensures r.codes == s.codes && r.nextCodeId == s.nextCodeId
  {
    DeleteCategoryWellFormed(s, id);
    s.(categories := Filter(s.categories, KeepCategory(id)),
       candidates := Filter(s.candidates, KeepCandidateOfCategory(id)),
       votes := Filter(s.votes, KeepVoteOfCategory(s.candidates, id)))
  }

  lemma DeleteCategoryWellFormed(s: Store, id: CategoryId)
    requires WellFormed(s)
    ensures WellFormed(s.(categories := Filter(s.categories, KeepCategory(id)),
                          candidates := Filter(s.candidates, KeepCandidateOfCategory(id)),
                          votes := Filter(s.votes, KeepVoteOfCategory(s.candidates, id))))
  {
    var cands := s.candidates;
    var r := s.(categories := Filter(s.categories, KeepCategory(id)),
                candidates := Filter(cands, KeepCandidateOfCategory(id)),
                votes := Filter(s.votes, KeepVoteOfCategory(cands, id)));
    FilterKeepsDistinct(s.categories, KeepCategory(id), CategoryKey);
    FilterKeepsDistinct(cands, KeepCandidateOfCategory(id), CandidateKey);
    forall j | 0 <= j < |r.candidates| ensures HasCategory(r.categories, r.candidates[j].category) {
      var i :| 0 <= i < |s.categories| && s.categories[i].id == r.candidates[j].category;
      FilterKeeps(s.categories, KeepCategory(id), i);
    }
    forall k | 0 <= k < |r.votes| ensures HasCandidate(r.candidates, r.votes[k].candidate) {
      var j :| 0 <= j < |cands| && cands[j].id == r.votes[k].candidate;
      assert cands[j].category != id;
      FilterKeeps(cands, KeepCandidateOfCategory(id), j);
    }
  }

  /**
    Deleting a category keeps every other category, every candidate of
    another category, and every vote for a candidate outside it.
   */
  lemma DeleteCategoryKeeps(s: Store, id: CategoryId)
    requires WellFormed(s)
    ensures forall i :: 0 <= i < |s.categories| && s.categories[i].id != id ==>
      s.categories[i] in DeleteCategory(s, id).categories
    ensures forall j :: 0 <= j < |s.candidates| && s.candidates[j].category != id ==>
      s.candidates[j] in DeleteCategory(s, id).candidates
    ensures forall k :: 0 <= k < |s.votes| && !InCategory(s.candidates, s.votes[k].candidate, id) ==>
      s.votes[k] in DeleteCategory(s, id).votes
    ensures forall v: Vote :: !InCategory(s.candidates, v.candidate, id) ==>
      multiset(DeleteCategory(s, id).votes)[v] == multiset(s.votes)[v]
  {
    forall i | 0 <= i < |s.categories| && s.categories[i].id != id
      ensures s.categories[i] in DeleteCategory(s, id).categories
    {
      FilterKeeps(s.categories, KeepCategory(id), i);
    }
    forall j | 0 <= j < |s.candidates| && s.candidates[j].category != id
      ensures s.candidates[j] in DeleteCategory(s, id).candidates
    {
      FilterKeeps(s.candidates, KeepCandidateOfCategory(id), j);
    }
    forall k | 0 <= k < |s.votes| && !InCategory(s.candidates, s.votes[k].candidate, id)
      ensures s.votes[k] in DeleteCategory(s, id).votes
    {
      FilterKeeps(s.votes, KeepVoteOfCategory(s.candidates, id), k);
    }
    forall v: Vote | !InCategory(s.candidates, v.candidate, id)
      ensures multiset(DeleteCategory(s, id).votes)[v] == multiset(s.votes)[v]
    {
      FilterKeepsCopies(s.votes, KeepVoteOfCategory(s.candidates, id), v);
    }
  }

  /** Deleting a candidate zeroes its count and leaves every other candidate's count unchanged. */
  lemma DeleteCandidateCounts(s: Store, id: CandidateId, c: CandidateId)
    requires WellFormed(s)
    ensures VotesFor(DeleteCandidate(s, id).votes, c) == if c == id then 0 else VotesFor(s.votes, c)
  {
    if c != id {
      FilterKeepsCount(s.votes, KeepVoteOfCandidate(id), c);
    }
  }

  /** Dropping the votes for a category's candidates keeps the count of every candidate outside it. */
  lemma FilterCategoryKeepsCount(candidates: seq<Candidate>, votes: seq<Vote>, id: CategoryId, j: nat)
    requires Distinct(candidates, CandidateKey)
    requires j < |candidates| && candidates[j].category != id
    ensures VotesFor(Filter(votes, KeepVoteOfCategory(candidates, id)), candidates[j].id) == VotesFor(votes, candidates[j].id)
  {
    var c := candidates[j].id;
    forall k | 0 <= k < |votes| && votes[k].candidate == c
      ensures !InCategory(candidates, votes[k].candidate, id)
    {
      forall j' | 0 <= j' < |candidates| && candidates[j'].id == c ensures candidates[j'].category != id {
        assert CandidateKey(candidates[j']) == CandidateKey(candidates[j]);
      }
    }
    FilterKeepsCount(votes, KeepVoteOfCategory(candidates, id), c);
  }

  /** Deleting a category leaves the count of every candidate of another category unchanged. */
  lemma DeleteCategoryKeepsCount(s: Store, id: CategoryId, j: nat)
    requires WellFormed(s)
    requires j < |s.candidates| && s.candidates[j].category != id
    ensures VotesFor(DeleteCategory(s, id).votes, s.candidates[j].id) == VotesFor(s.votes, s.candidates[j].id)
  {
    FilterCategoryKeepsCount(s.candidates, s.votes, id, j);
  }

  /** Dropping a category's candidates keeps every candidate of another category. */
  lemma FilterCandidateIds(candidates: seq<Candidate>, id: CategoryId, cat: CategoryId)
    requires cat != id
    ensures CandidateIdsIn(Filter(candidates, KeepCandidateOfCategory(id)), cat) == CandidateIdsIn(candidates, cat)
  {
    var kept := Filter(candidates, KeepCandidateOfCategory(id));
    forall c | c in CandidateIdsIn(candidates, cat) ensures c in CandidateIdsIn(kept, cat) {
      var j :| 0 <= j < |candidates| && candidates[j].category == cat && candidates[j].id == c;
      FilterKeeps(candidates, KeepCandidateOfCategory(id), j);
      var m :| 0 <= m < |kept| && kept[m] == candidates[j];
      assert kept[m].id == c && kept[m].category == cat;
    }
    forall c | c in CandidateIdsIn(kept, cat) ensures c in CandidateIdsIn(candidates, cat) {
      var m :| 0 <= m < |kept| && kept[m].category == cat && kept[m].id == c;
      var j :| 0 <= j < |candidates| && candidates[j] == kept[m];
      assert candidates[j].id == c && candidates[j].category == cat;
    }
  }

  /** Deleting a category keeps every candidate of another category. */
  lemma DeleteCategoryKeepsCandidates(s: Store, id: CategoryId, cat: CategoryId)
    requires WellFormed(s)
    requires cat != id
    ensures CandidateIdsIn(DeleteCategory(s, id).candidates, cat) == CandidateIdsIn(s.candidates, cat)
  {
    FilterCandidateIds(s.candidates, id, cat);
  }

  /**
    Dropping a category's candidates and the votes for them leaves the counts
    of every other category unchanged.
   */
  lemma FilterCategoryTally(s: Store, t: Store, id: CategoryId, cat: CategoryId)
    requires Distinct(s.candidates, CandidateKey)
    requires t.candidates == Filter(s.candidates, KeepCandidateOfCategory(id))
    requires t.votes == Filter(s.votes, KeepVoteOfCategory(s.candidates, id))
    requires cat != id
    ensures CategoryTally(t, cat) == CategoryTally(s, cat)
  {
    FilterCandidateIds(s.candidates, id, cat);
    forall c | c in CandidateIdsIn(s.candidates, cat) ensures VotesFor(t.votes, c) == VotesFor(s.votes, c) {
      var j :| 0 <= j < |s.candidates| && s.candidates[j].category == cat && s.candidates[j].id == c;
      FilterCategoryKeepsCount(s.candidates, s.votes, id, j);
    }
  }

  /** Deleting a category leaves the counts of every other category unchanged. */
  lemma DeleteCategoryKeepsCategory(s: Store, id: CategoryId, cat: CategoryId)
    requires WellFormed(s)
    requires cat != id
    ensures CategoryTally(DeleteCategory(s, id), cat) == CategoryTally(s, cat)
  {
    FilterCategoryTally(s, DeleteCategory(s, id), id, cat);
  }

  /** Dropping the category with key `id` removes exactly that key. */
  lemma FilterCategoryIds(categories: seq<Category>, id: CategoryId)
    ensures CategoryIds(Filter(categories, KeepCategory(id))) == CategoryIds(categories) - {id}
  {
    var kept := Filter(categories, KeepCategory(id));
    forall cat | cat in CategoryIds(categories) - {id} ensures cat in CategoryIds(kept) {
      var i :| 0 <= i < |categories| && categories[i].id == cat;
      FilterKeeps(categories, KeepCategory(id), i);
      var m :| 0 <= m < |kept| && kept[m] == categories[i];
      assert kept[m].id == cat;
    }
    forall cat | cat in CategoryIds(kept) ensures cat in CategoryIds(categories) - {id} {
      var m :| 0 <= m < |kept| && kept[m].id == cat;
      var i :| 0 <= i < |categories| && categories[i] == kept[m];
      assert categories[i].id == cat;
    }
  }

  /** Deleting a category removes exactly its key from the category keys. */
  lemma DeleteCategoryIds(s: Store, id: CategoryId)
    requires WellFormed(s)
    ensures CategoryIds(DeleteCategory(s, id).categories) == CategoryIds(s.categories) - {id}
  {
    FilterCategoryIds(s.categories, id);
  }

  /** Deleting a category removes its entry from the tally and leaves every other entry unchanged. */
  lemma DeleteCategoryTally(s: Store, id: CategoryId)
    requires WellFormed(s)
    ensures TallyOf(DeleteCategory(s, id)).Keys == TallyOf(s).Keys - {id}
    ensures forall cat :: cat in TallyOf(s) && cat != id ==> TallyOf(DeleteCategory(s, id))[cat] == TallyOf(s)[cat]
  {
    var r := DeleteCategory(s, id);
    DeleteCategoryIds(s, id);
    forall cat | cat in TallyOf(s) && cat != id ensures TallyOf(r)[cat] == TallyOf(s)[cat] {
      DeleteCategoryKeepsCategory(s, id, cat);
    }
  }
}
