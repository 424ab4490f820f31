/** The tally of `results_page` in votes/views.py, keyed by category and candidate keys. */
module Tally {
  import Seqs
  import opened Models
  import opened Submission

  /** The number of votes that name candidate `c`. */
  function VotesFor(votes: seq<Vote>, c: CandidateId): (n: nat)
    ensures n <= |votes|
    ensures n == 0 <==> forall k :: 0 <= k < |votes| ==> votes[k].candidate != c
    ensures n == |votes| <==> forall k :: 0 <= k < |votes| ==> votes[k].candidate == c
  {
    if |votes| == 0 then 0
    else VotesFor(votes[..|votes| - 1], c) + (if votes[|votes| - 1].candidate == c then 1 else 0)
  }

  /** Counting distributes over concatenation of vote lists. */
  lemma {:induction false} VotesForAppend(a: seq<Vote>, b: seq<Vote>, c: CandidateId)
    ensures VotesFor(a + b, c) == VotesFor(a, c) + VotesFor(b, c)
    decreases |b|
  {
    if |b| > 0 {
      assert (a + b)[..|a + b| - 1] == a + b[..|b| - 1];
      VotesForAppend(a, b[..|b| - 1], c);
    } else {
      assert a + b == a;
    }
  }

  /** Dropping votes that never name `c` leaves the count of `c` unchanged. */
  lemma {:induction false} FilterKeepsCount(votes: seq<Vote>, p: Vote -> bool, c: CandidateId)
    requires forall k :: 0 <= k < |votes| && votes[k].candidate == c ==> p(votes[k])
    ensures VotesFor(Seqs.Filter(votes, p), c) == VotesFor(votes, c)
    decreases |votes|
  {
    if |votes| > 0 {
      var tail := votes[1..];
      assert votes == [votes[0]] + tail;
      VotesForAppend([votes[0]], tail, c);
      FilterKeepsCount(tail, p, c);
      if p(votes[0]) {
        VotesForAppend([votes[0]], Seqs.Filter(tail, p), c);
      }
    }
  }

  function CategoryIds(categories: seq<Category>): set<CategoryId> {
    set i | 0 <= i < |categories| :: categories[i].id
  }

  /** The keys of the candidates whose category is `cat` (`category.candidates.all()`). */
  function CandidateIdsIn(candidates: seq<Candidate>, cat: CategoryId): set<CandidateId> {
    set j | 0 <= j < |candidates| && candidates[j].category == cat :: candidates[j].id
  }

  /** The reference counts of one category: each of its candidates and that candidate's vote count. */
  function CategoryTally(s: Store, cat: CategoryId): map<CandidateId, nat> {
    map c | c in CandidateIdsIn(s.candidates, cat) :: VotesFor(s.votes, c)
  }

  /** The reference tally: every category with its counts. */
  function TallyOf(s: Store): map<CategoryId, map<CandidateId, nat>> {
    map cat | cat in CategoryIds(s.categories) :: CategoryTally(s, cat)
  }

  /** `Vote.objects.filter(candidate=c).count()`. */
  method CountVotes(votes: seq<Vote>, c: CandidateId) returns (n: nat)
    ensures n == VotesFor(votes, c)
  {
    n := 0;
    var k := 0;
    while k < |votes|
      invariant 0 <= k <= |votes|
      invariant n == VotesFor(votes[..k], c)
    {
      assert votes[..k + 1][..k] == votes[..k];
      if votes[k].candidate == c {
        n := n + 1;
      }
      k := k + 1;
    }
    assert votes[..k] == votes;
  }

  /** The per-category counts: one entry per candidate of `cat`, zero-vote candidates included. */
  method CategoryCounts(s: Store, cat: CategoryId) returns (counts: map<CandidateId, nat>)
    ensures counts.Keys == CandidateIdsIn(s.candidates, cat)
    ensures forall c :: c in counts ==> counts[c] == VotesFor(s.votes, c)
    ensures counts == CategoryTally(s, cat)
  {
    counts := map[];
    var j := 0;
    while j < |s.candidates|
      invariant 0 <= j <= |s.candidates|
      invariant counts.Keys == CandidateIdsIn(s.candidates[..j], cat)
      invariant forall c :: c in counts ==> counts[c] == VotesFor(s.votes, c)
    {
      CandidateIdsInSnoc(s.candidates, j, cat);
      if s.candidates[j].category == cat {
        var n := CountVotes(s.votes, s.candidates[j].id);
        counts := counts[s.candidates[j].id := n];
      }
      j := j + 1;
    }
    assert s.candidates[..j] == s.candidates;
  }

  /** Extending the scanned prefix by one candidate adds its key exactly when it is in the category. */
  lemma CandidateIdsInSnoc(candidates: seq<Candidate>, j: nat, cat: CategoryId)
    requires j < |candidates|
    ensures CandidateIdsIn(candidates[..j + 1], cat) ==
      CandidateIdsIn(candidates[..j], cat) + (if candidates[j].category == cat then {candidates[j].id} else {})
  {
    var pre := candidates[..j];
    var ext := candidates[..j + 1];
    assert ext == pre + [candidates[j]];
    forall c | c in CandidateIdsIn(ext, cat)
      ensures c in CandidateIdsIn(pre, cat) || (candidates[j].category == cat && c == candidates[j].id)
    {
      var m :| 0 <= m < |ext| && ext[m].category == cat && ext[m].id == c;
      if m < j {
        assert pre[m] == ext[m];
      }
    }
    forall c | c in CandidateIdsIn(pre, cat) ensures c in CandidateIdsIn(ext, cat) {
      var m :| 0 <= m < |pre| && pre[m].category == cat && pre[m].id == c;
      assert ext[m] == pre[m];
    }
    if candidates[j].category == cat {
      assert ext[j] == candidates[j];
    }
  }


  /**
    The results loop: for every category, for every one of its candidates,
    the number of votes naming that candidate.
   */
  method ComputeTally(s: Store) returns (results: map<CategoryId, map<CandidateId, nat>>)
    ensures results == TallyOf(s)
  {
    results := map[];
    var i := 0;
    while i < |s.categories|
      invariant 0 <= i <= |s.categories|
      invariant results.Keys == CategoryIds(s.categories[..i])
      invariant forall cat :: cat in results ==> results[cat] == TallyOf(s)[cat]
    {
      assert s.categories[..i + 1] == s.categories[..i] + [s.categories[i]];
      var counts := CategoryCounts(s, s.categories[i].id);
      assert s.categories[i].id in CategoryIds(s.categories);
      results := results[s.categories[i].id := counts];
      i := i + 1;
    }
    assert s.categories[..i] == s.categories;
  }

  /** Every candidate of every category has an entry, whose value is its vote count (zero included). */
  lemma TallyComplete(s: Store, i: nat, j: nat)
    requires i < |s.categories| && j < |s.candidates|
    requires s.candidates[j].category == s.categories[i].id
    ensures s.categories[i].id in TallyOf(s)
    ensures s.candidates[j].id in TallyOf(s)[s.categories[i].id]
    ensures TallyOf(s)[s.categories[i].id][s.candidates[j].id] == VotesFor(s.votes, s.candidates[j].id)
  {
    assert s.categories[i].id in CategoryIds(s.categories);
    assert s.candidates[j].id in CandidateIdsIn(s.candidates, s.categories[i].id);
  }

  /** The number of categories whose selection is candidate `c`. */
  function Chosen(categories: seq<Category>, sel: Selections, c: CandidateId): (n: nat)
    ensures n <= |categories|
  {
    if |categories| == 0 then 0
    else
      var last := categories[|categories| - 1];
      Chosen(categories[..|categories| - 1], sel, c) + (if last.id in sel && sel[last.id] == c then 1 else 0)
  }

  /** A ballot holding, position by position, the selections of the categories counts `c` once per category that chose it. */
  lemma {:induction false} BallotCounts(ballot: seq<Vote>, categories: seq<Category>, sel: Selections,
                                       code: CodeId, now: Time, c: CandidateId)
    requires |ballot| == |categories|
    requires forall k :: 0 <= k < |categories| ==>
      categories[k].id in sel && ballot[k] == Vote(code, sel[categories[k].id], now)
    ensures VotesFor(ballot, c) == Chosen(categories, sel, c)
    decreases |ballot|
  {
    if |ballot| > 0 {
      var n := |ballot| - 1;
      BallotCounts(ballot[..n], categories[..n], sel, code, now, c);
    }
  }

  /**
    A stored ballot raises each candidate's count by the number of
    categories that selected it, and leaves every other count unchanged.
   */
  lemma {:induction false} SubmitTallyEffect(s: Store, codeId: CodeId, sel: Selections, now: Time, c: CandidateId)
    requires WellFormed(s)
    requires SubmitVote(s, codeId, sel, now).outcome.Pass?
    ensures VotesFor(SubmitVote(s, codeId, sel, now).store.votes, c) == VotesFor(s.votes, c) + Chosen(s.categories, sel, c)
  {
    RecordedCounts(s, SubmitVote(s, codeId, sel, now).store, codeId, sel, now, c);
  }

  lemma {:induction false} RecordedCounts(s: Store, t: Store, codeId: CodeId, sel: Selections, now: Time, c: CandidateId)
    requires Recorded(s, t, codeId, sel, now)
    ensures VotesFor(t.votes, c) == VotesFor(s.votes, c) + Chosen(s.categories, sel, c)
  {
    var ballot := t.votes[|s.votes|..];
    assert t.votes == s.votes + ballot by {
      assert t.votes == t.votes[..|s.votes|] + t.votes[|s.votes|..];
    }
    VotesForAppend(s.votes, ballot, c);
    BallotCounts(ballot, s.categories, sel, codeId, now, c);
  }

  /** Every category choosing `c` counts `c` once per category. */
  lemma {:induction false} ChosenEverywhere(categories: seq<Category>, sel: Selections, c: CandidateId)
    requires forall i :: 0 <= i < |categories| ==> categories[i].id in sel && sel[categories[i].id] == c
    ensures Chosen(categories, sel, c) == |categories|
    decreases |categories|
  {
    if |categories| > 0 {
      ChosenEverywhere(categories[..|categories| - 1], sel, c);
    }
  }

  /**
    The candidate chosen for a category is not checked against it: a ballot
    naming the same existing candidate for every category is stored, and
    that candidate gains one vote per category from a single code.
   */
  lemma SingleCandidateBallot(s: Store, codeId: CodeId, sel: Selections, c: CandidateId, now: Time)
    requires WellFormed(s)
    requires HasCode(s.codes, codeId) && !HasVoted(s.votes, codeId)
    requires HasCandidate(s.candidates, c)
    requires forall i :: 0 <= i < |s.categories| ==> s.categories[i].id in sel && sel[s.categories[i].id] == c
    ensures SubmitVote(s, codeId, sel, now).outcome.Pass?
    ensures VotesFor(SubmitVote(s, codeId, sel, now).store.votes, c) == VotesFor(s.votes, c) + |s.categories|
  {
    assert Complete(s.categories, sel);
    assert Resolves(s.categories, s.candidates, sel);
    var r := SubmitVote(s, codeId, sel, now);
    assert r.outcome.Pass?;
    ChosenEverywhere(s.categories, sel, c);
    RecordedCounts(s, r.store, codeId, sel, now, c);
  }

  /** The store of the example: categories A = {x, y} and B = {z}, and votes for x, x and z. */
  function ExampleStore(): Store {
    Store([Code(1, "aaaaa", true, 100), Code(2, "bbbbb", true, 100)],
          [Category(1, "A"), Category(2, "B")],
          [Candidate(10, "x", 1), Candidate(11, "y", 1), Candidate(20, "z", 2)],
          [Vote(1, 10, 0), Vote(2, 10, 0), Vote(1, 20, 0)],
          3)
  }

  lemma ExampleCounts()
    ensures VotesFor(ExampleStore().votes, 10) == 2
    ensures VotesFor(ExampleStore().votes, 11) == 0
    ensures VotesFor(ExampleStore().votes, 20) == 1
  {
    var v := ExampleStore().votes;
    assert v[..2] == [Vote(1, 10, 0), Vote(2, 10, 0)];
    assert v[..2][..1] == [Vote(1, 10, 0)];
    assert VotesFor(v[..2], 20) == 0;
  }

  lemma ExampleCategoryA()
    ensures CategoryTally(ExampleStore(), 1) == map[10 := 2, 11 := 0]
  {
    var s := ExampleStore();
    assert CandidateIdsIn(s.candidates, 1) == {10, 11} by {
      assert s.candidates[0].id == 10 && s.candidates[1].id == 11;
    }
    ExampleCounts();
  }

  lemma ExampleCategoryB()
    ensures CategoryTally(ExampleStore(), 2) == map[20 := 1]
  {
    var s := ExampleStore();
    assert CandidateIdsIn(s.candidates, 2) == {20} by {
      assert s.candidates[2].id == 20;
    }
    ExampleCounts();
  }

  /** The tally of the example is A: {x: 2, y: 0}, B: {z: 1}; y appears with count zero. */
  lemma TallyExample()
    ensures TallyOf(ExampleStore()) == map[1 := map[10 := 2, 11 := 0], 2 := map[20 := 1]]
  {
    var s := ExampleStore();
    assert CategoryIds(s.categories) == {1, 2} by {
      assert s.categories[0].id == 1 && s.categories[1].id == 2;
    }
    ExampleCategoryA();
    ExampleCategoryB();
  }
}
