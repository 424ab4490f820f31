/**
  The persistent state of the voting application: the four tables of
  votes/models.py (Code, Category, Candidate, Vote) as sequences of rows in
  table order, plus the next auto-increment key for codes.

  Time is an integer clock counted in seconds since 1970-01-01 00:00:00 UTC.
 */
module Models {
  import opened Wrappers
  import opened Seqs

  type CodeId = nat
  type CategoryId = nat
  type CandidateId = nat
  type Time = int

  /** Length of one hour on the model's clock (`timedelta(hours=1)`). */
  const SecondsPerHour: int := 3600

  /** Python's `datetime.min`, 0001-01-01 00:00:00, on the model's clock. */
  const MinTime: int := -62135596800

  /** The last whole second of Python's `datetime.max`, 9999-12-31 23:59:59, on the model's clock. */
  const MaxTime: int := 253402300799

  /** A datetime can hold `t`; datetime arithmetic that leaves this range raises `OverflowError`. */
  predicate InDateRange(t: Time) {
    MinTime <= t <= MaxTime
  }

  /** A one-time voting code; `token` is the string handed to a voter. */
  datatype Code = Code(id: CodeId, token: string, isUsed: bool, expiresAt: Time)

  datatype Category = Category(id: CategoryId, name: string)

  /** A candidate belongs to exactly one category, by key. */
  datatype Candidate = Candidate(id: CandidateId, name: string, category: CategoryId)

  /** A vote references exactly one code and one candidate, by key. */
  datatype Vote = Vote(voterCode: CodeId, candidate: CandidateId, votedAt: Time)

  datatype Store = Store(
    codes: seq<Code>,
    categories: seq<Category>,
    candidates: seq<Candidate>,
    votes: seq<Vote>,
    nextCodeId: CodeId)

  /** A freshly created code: `is_used` defaults to false. */
  function NewCode(id: CodeId, token: string, expiresAt: Time): (c: Code)
    ensures !c.isUsed
  {
    Code(id, token, false, expiresAt)
  }

  /** `Code.is_valid` evaluated at time `now`. */
  predicate IsValid(c: Code, now: Time) {
    !c.isUsed && now < c.expiresAt
  }

  // Keys of the rows, used to state the uniqueness constraints.
  function CodeKey(c: Code): CodeId { c.id }
  function CodeToken(c: Code): string { c.token }
  function CategoryKey(c: Category): CategoryId { c.id }
  function CandidateKey(c: Candidate): CandidateId { c.id }

  predicate HasCode(codes: seq<Code>, id: CodeId) {
    exists i :: 0 <= i < |codes| && codes[i].id == id
  }

  predicate TokenTaken(codes: seq<Code>, token: string) {
    exists i :: 0 <= i < |codes| && codes[i].token == token
  }

  predicate HasCategory(categories: seq<Category>, id: CategoryId) {
    exists i :: 0 <= i < |categories| && categories[i].id == id
  }

  predicate HasCandidate(candidates: seq<Candidate>, id: CandidateId) {
    exists j :: 0 <= j < |candidates| && candidates[j].id == id
  }

  /**
    The integrity the database schema guarantees: primary keys and code
    strings are unique, the auto-increment key is ahead of every code, and
    every foreign key points at an existing row.
   */
  predicate WellFormed(s: Store) {
    && Distinct(s.codes, CodeKey)
    && Distinct(s.codes, CodeToken)
    && Distinct(s.categories, CategoryKey)
    && Distinct(s.candidates, CandidateKey)
    && (forall i :: 0 <= i < |s.codes| ==> s.codes[i].id < s.nextCodeId)
    && (forall j :: 0 <= j < |s.candidates| ==> HasCategory(s.categories, s.candidates[j].category))
    && (forall k :: 0 <= k < |s.votes| ==>
          HasCode(s.codes, s.votes[k].voterCode) && HasCandidate(s.candidates, s.votes[k].candidate))
  }

  /** The position of the code with primary key `id`. */
  function FindCode(codes: seq<Code>, id: CodeId): (r: Option<nat>)
    ensures r.Some? ==> r.value < |codes| && codes[r.value].id == id
    ensures r.None? <==> !HasCode(codes, id)
  {
    FirstIndex(codes, (c: Code) => c.id == id)
  }

  /** The position of the first code whose string is `token`. */
  function FindToken(codes: seq<Code>, token: string): (r: Option<nat>)
    ensures r.Some? ==> r.value < |codes| && codes[r.value].token == token
    ensures r.None? <==> !TokenTaken(codes, token)
  {
    FirstIndex(codes, (c: Code) => c.token == token)
  }

  /** The position of the candidate with primary key `id`. */
  function FindCandidate(candidates: seq<Candidate>, id: CandidateId): (r: Option<nat>)
    ensures r.Some? ==> r.value < |candidates| && candidates[r.value].id == id
    ensures r.None? <==> !HasCandidate(candidates, id)
  {
    FirstIndex(candidates, (c: Candidate) => c.id == id)
  }

  /** The empty database satisfies the schema. */
  lemma EmptyStoreWellFormed()
    ensures WellFormed(Store([], [], [], [], 0))
  {
  }

  /** A used code is never valid, whatever the time. */
  lemma UsedCodeNeverValid(c: Code, now: Time)
    requires c.isUsed
    ensures !IsValid(c, now)
  {
  }

  /** The comparison with the expiry time is strict: at `expiresAt` a code is already invalid. */
  lemma ExpiryBoundary(c: Code)
    ensures !IsValid(c, c.expiresAt)
    ensures !c.isUsed ==> IsValid(c, c.expiresAt - 1)
  {
  }

  /** Validity only ever runs out: valid at `later` implies valid at every earlier time. */
  lemma ValidityIsMonotone(c: Code, earlier: Time, later: Time)
    requires earlier <= later
    requires IsValid(c, later)
    ensures IsValid(c, earlier)
  {
  }

  /** Under unique keys the code with a given key or string sits at one position only. */
  lemma UniqueCodePosition(s: Store, i: nat, j: nat)
    requires WellFormed(s)
    requires i < |s.codes| && j < |s.codes|
    requires s.codes[i].id == s.codes[j].id || s.codes[i].token == s.codes[j].token
    ensures i == j
  {
  }

  /** Under the unique primary key the candidate with a given key sits at one position only. */
  lemma UniqueCandidatePosition(s: Store, i: nat, j: nat)
    requires WellFormed(s)
    requires i < |s.candidates| && j < |s.candidates|
    requires s.candidates[i].id == s.candidates[j].id
    ensures i == j
  {
  }
}
