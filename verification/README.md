# Voting-code lifecycle of the `votes` application, in Dafny

This project models the core of a small Django voting application: one-time
voting codes, the ballot that consumes a code, and the tally of the votes.
The database is an immutable `Store` value (the rows of the `Code`,
`Category`, `Candidate` and `Vote` tables in table order, plus the next
auto-increment key for codes). Every view becomes a pure transition that
takes the store and an integer clock `now` in seconds, and returns the new
store with a `Result`/`Outcome` instead of a flash message.

Modules:

- `Wrappers`: `Option`, `Result` and `Outcome`.
- `Seqs`: first-match search, filtering, and key uniqueness on sequences.
- `Models` (votes/models.py): the four row types, `IsValid`
  (`Code.is_valid`), and `WellFormed`. `WellFormed` holds the integrity the
  schema guarantees: unique primary keys, unique code strings, and foreign
  keys that resolve.
- `Validation` (`validate_code`): looks a code string up. It returns the row
  or `NotFound`, `AlreadyUsed` or `Expired`, and tests "used" before
  "expired".
- `Submission` (`submit_vote`): builds one vote per answered category, in
  category order. The ballot is stored together with the used flag only when
  every category is answered. Any refusal leaves the store untouched.
- `Tally` (the loop of `results_page`): the counts per category and
  candidate, computed by loops in `ComputeTally`. It is proved equal to the
  reference map `TallyOf`.
- `Generation` (`generate_code`): adds `count` unused codes, each expiring
  `hours` hours after `now`. An unauthenticated request changes nothing.
- `Cascade`: row deletion with the `on_delete=CASCADE` foreign keys.
- `Lifecycle`: properties across operations. The main one is the invariant
  "a code with votes is marked used", which every modelled operation
  (`SubmitVote`, `GenerateCodes` and the three deletions) preserves.

Behaviour of the code that a reader of the workflow might not expect (each is
stated as a lemma):

- `submit_vote` is addressed by the code's integer primary key in the URL
  (`submit_vote/<code_id>/`) and never asks for the 5-character code string.
  So anyone who posts to that address can use any code without votes,
  including one whose string they never saw and one the validator refuses
  (`SubmitByKeyAlone`).
- `submit_vote` checks only whether a vote already references the code. It
  does not look at `is_used` or at the expiry time (`SubmitIgnoresCodeState`),
  so a code that has expired since the form was shown can still vote.
- The candidate chosen for a category is looked up by key only. Nothing
  checks that it belongs to that category, so one ballot can hold two votes
  for the same candidate (`SingleCandidateBallot`).
- With no categories at all, a stored ballot contains no votes. The
  double-vote guard therefore accepts the same code again
  (`EmptyBallotCanBeResubmitted`). With at least one category, a second
  submission on the store the first one produced is refused
  (`SecondSubmissionRefused`).
- Because that guard looks only at the votes, a deletion that removes a
  code's votes re-opens the code. After a ballot for candidate x in every
  category, deleting x deletes those votes, and the same code, still marked
  used, can then vote again (`CandidateDeletionReopensCode`).

## Model

| member | source | states |
|---|---|---|
| Models.IsValid | votes/models.py:10-11 | a code is valid exactly when it is unused and `now` is strictly before its expiry time |
| Models.WellFormed | votes/models.py:5-33 | primary keys and code strings are unique, the next auto-increment key is above every code key, and every foreign key (candidate to category, vote to code, vote to candidate) resolves |
| Models.EmptyStoreWellFormed | votes/models.py:5-33 | the empty database satisfies the schema, so the integrity conditions can be met |
| Models.NewCode | votes/models.py:7 | a freshly created code is unused |
| Models.UsedCodeNeverValid | votes/models.py:11 | a used code is invalid at every time |
| Models.ExpiryBoundary | votes/models.py:11 | the comparison is strict: a code is invalid at exactly its expiry time, and an unused code is valid one second before |
| Models.ValidityIsMonotone | votes/models.py:10-11 | a code valid at some time is valid at every earlier time |
| Models.UniqueCodePosition | votes/models.py:5-6 | under the schema's unique key and unique code string, a code key or string identifies one row |
| Models.UniqueCandidatePosition | votes/models.py:24-26 | under the implicit unique primary key, a candidate key identifies one row |
| Validation.ValidateCode | votes/views.py:12-23 | `NotFound` exactly when no code has the string; for the row with that string, success exactly when it is valid, and then the result is that row; `AlreadyUsed` exactly when the row is used, even if it has also expired; `Expired` exactly when it is unused and `expiresAt <= now` |
| Validation.InvalidCodeRejected | votes/views.py:15-20 | validation never succeeds for a used or expired code, and a used code is always reported as used |
| Submission.CollectVotes | votes/views.py:47-53 | the ballot fails exactly when some answered category names no existing candidate; otherwise it has at most one vote per category, all for the submitted code at `now`, and it has as many votes as categories exactly when every category is answered, vote k then naming the selection of category k |
| Submission.SubmitVote | votes/views.py:37-64 | the four refusals (unknown code, code already referenced by a vote, unknown candidate, unanswered category) each hold exactly under their condition and leave the store unchanged; success happens exactly when none applies, and it appends one vote per category in category order, marks exactly that code used, and changes nothing else; the schema's integrity is preserved |
| Submission.RecordPreservesWellFormed | votes/views.py:57-59 | appending votes for an existing code and existing candidates while marking the code used keeps every key unique and every foreign key resolvable |
| Submission.SecondSubmissionRefused | votes/views.py:43-45 | with at least one category, a submission with the same code on the store a stored ballot produced is refused as already voted and changes nothing |
| Submission.EmptyBallotCanBeResubmitted | votes/views.py:43-59 | with no categories, a stored ballot adds no vote and the same code is accepted again |
| Submission.SubmitIgnoresCodeState | votes/views.py:39-45 | the outcome of a submission does not depend on the code's used flag or expiry time |
| Tally.VotesFor | votes/views.py:92 | the count of a candidate is at most the number of votes; it is zero exactly when no vote names the candidate, and it is the total exactly when every vote does |
| Tally.VotesForAppend | votes/views.py:92 | counts add up over concatenated vote lists |
| Tally.CountVotes | votes/views.py:92 | the counting loop returns the number of votes naming the candidate |
| Tally.CategoryCounts | votes/views.py:90-93 | the inner loop yields one entry per candidate of the category and no other, each holding that candidate's vote count |
| Tally.ComputeTally | votes/views.py:85-93 | the results loops produce exactly the reference tally: every category, each with every one of its candidates and its count |
| Tally.TallyComplete | votes/views.py:89-93 | every candidate of every category has an entry, and a candidate with no votes has count 0 |
| Tally.SubmitTallyEffect | votes/views.py:53-57 | a stored ballot raises each candidate's count by the number of categories that selected it, and leaves every other count unchanged |
| Tally.SingleCandidateBallot | votes/views.py:49-53 | a ballot naming the same existing candidate in every category is stored, and that candidate gains one vote per category from the one code |
| Tally.TallyExample | votes/views.py:85-93 | categories A = {x, y} and B = {z} with votes x, x, z tally to A: {x: 2, y: 0}, B: {z: 1} |
| Generation.AddCodes | votes/views.py:72-76 | codes are appended in token order, each unused, with the next auto-increment key and the given expiry; existing rows are kept; creation stops at the first taken token, keeping the codes created before it, and reports that token |
| Generation.AddCodesAllFresh | votes/views.py:72-76 | every token yields a code exactly when the tokens are pairwise different and none was already taken |
| Generation.GenerateCodes | votes/views.py:67-80 | an unauthenticated request is refused and changes nothing; when at least one code is asked for and `now + hours * 3600` seconds lies outside the datetime range (years 1 to 9999), the `OverflowError` is reported and no code is created; otherwise, with fresh tokens, exactly `count` unused codes (none for a non-positive count) are added, each expiring `hours * 3600` seconds after `now`; every new expiry lies in the datetime range; categories, candidates and votes are unchanged |
| Generation.AddCodesWellFormed | votes/views.py:72-76 | the creation loop keeps every key and code string unique and the auto-increment key above every code key |
| Generation.GeneratedCodeValidUntilExpiry | votes/views.py:73-76 | a freshly generated code passes validation before `now + hours * 3600` seconds and is reported expired from then on |
| Cascade.DeleteCode | votes/models.py:32 | deleting a code removes it and every vote cast with it, adds no row, leaves categories and candidates alone, and preserves integrity |
| Cascade.DeleteCodeKeeps | votes/models.py:32 | deleting a code keeps every other code, and every vote cast with another code with all its copies: such a vote occurs as often after the deletion as before |
| Cascade.DeleteCandidate | votes/models.py:33 | deleting a candidate removes it and every vote for it, adds no row, leaves codes and categories alone, and preserves integrity |
| Cascade.DeleteCandidateKeeps | votes/models.py:33 | deleting a candidate keeps every other candidate, and every vote for another candidate with all its copies |
| Cascade.DeleteCategory | votes/models.py:26 | deleting a category removes it, all its candidates and every vote for them, adds no row, leaves codes alone, and preserves integrity |
| Cascade.DeleteCategoryKeeps | votes/models.py:26 | deleting a category keeps every other category, every candidate of another category, and every vote for a candidate outside it with all its copies |
| Cascade.DeleteCategoryKeepsCandidates | votes/models.py:24-26 | deleting a category leaves the set of candidates of every other category unchanged |
| Cascade.DeleteCategoryKeepsCount | votes/models.py:26-33 | deleting a category leaves the vote count of every candidate of another category unchanged |
| Cascade.DeleteCandidateCounts | votes/models.py:33 | after deleting a candidate its count is 0 and every other candidate's count is unchanged |
| Cascade.DeleteCategoryTally | votes/models.py:26 | after deleting a category it has no tally entry, and every other category's counts are unchanged |
| Lifecycle.ValidateAfterSubmit | votes/views.py:58-59 | after a stored ballot, validating the code's string reports it as already used, at any time |
| Lifecycle.VotedCodeRejected | votes/views.py:17-18 | while every voted code is marked used, a code with votes is refused as already used |
| Lifecycle.SubmitKeepsUsedIfVoted | votes/views.py:56-59 | submission preserves "every code referenced by a vote is used" |
| Lifecycle.GenerateKeepsUsedIfVoted | votes/views.py:72-76 | generation preserves that invariant, because new codes get keys no vote references |
| Lifecycle.DeleteKeepsUsedIfVoted | votes/models.py:26-33 | the cascade deletions preserve that invariant |
| Lifecycle.SubmitByKeyAlone | votes/views.py:37-59 | every code row without votes can cast a complete ballot through its primary key alone, even when validating its string fails |
| Lifecycle.CandidateDeletionReopensCode | votes/views.py:43-45 | a code that voted for candidate x in every category votes again, although marked used, once x is deleted together with its votes (votes/models.py:33) |

## Left out

- HTTP handling: a request to `submit_vote` or `generate_code` that is not a POST changes nothing and is not modelled. Flash messages, `render`/`redirect` and URL routing (votes/urls.py) are also not modelled; outcomes are values of `SubmitError`, `CodeError` and `GenerateError`.
- `vote_page` only calls `validate_code` and renders the ballot form. The call is modelled by `ValidateCode`; the rendering is not.
- Login (`login_view`) and the session-expiry middleware (votes/middleware.py) are framework calls. Being authenticated is a boolean input of `GenerateCodes`.
- The Excel and PDF exports are formatting only. The result exports use the same per-candidate count as `VotesFor`; the code exports list the code rows unchanged.
- The admin configuration (votes/admin.py) registers all four tables with the admin site. Deleting rows there is what `Cascade` models. Adding and changing rows through the admin is not modelled: it is the only way categories and candidates enter the store, and it can break `Lifecycle.UsedIfVoted`. A `Vote` added by hand for an unused code, or `is_used` unticked on a code that has votes, leaves a voted code that `validate_code` accepts again.
- Storing a ballot: `bulk_create` of the votes and `voter_code.save()` run one after the other with no transaction (votes/views.py:57-59), and the model treats the pair as one step. If `save()` fails after `bulk_create`, the votes remain for a code still marked unused, which is the state `Lifecycle.UsedIfVoted` excludes.
- `uuid.uuid4()` is randomness. Its tokens are an input of `GenerateCodes`, and the length cap of 5 on the code string is not modelled.
- Generation.AddCodes: a taken token raises the unique constraint's error. The model assumes the codes created before it stay, as they do without per-request transactions; the project settings are not part of this model.
- `timezone.now()` is read once per generated code; the model uses one `now` for the whole request, so an expiry that leaves the datetime range partway through the loop is not modelled. Datetimes and time zones become an integer count of seconds since 1970-01-01 UTC, and the datetime range is the whole seconds from year 1 to year 9999.
- Parsing of form fields: `int(...)` on `code_count` and `expiry_hours`, and candidate keys that are not numbers, raise exceptions. The model takes integers. An absent or empty `category_<id>` field is the same as a missing key in `Selections`.
- Concurrent submissions with the same code: the source has no lock or transaction, so only the sequential semantics are modelled.
- The results dict of `results_page` is keyed by names, so duplicate names overwrite each other. The tally is keyed by primary keys instead.
- Field length limits (`max_length`) and `__str__` methods are not modelled.
