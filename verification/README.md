# Membership, elections and documents of the ma'tam site: a verified model

The repository is a small membership and election system: a public registration
form that an admin can edit, a register of members, candidacies, one-time ballots,
a results page, and printed forms and spreadsheets made from the register. This
project models its core in Dafny and proves what the code keeps.

| file | what it models |
|---|---|
| `Prelude`, `XmlText`, `Placeholder`, `Paragraph`, `Rendering`, `Fill`, `Exactness`, `Readback`, `PlainText`, `EndToEnd`, `Template` | the Word placeholder engine: from bytes of a paragraph to bytes of the filled paragraph |
| `Calendar`, `Validation` | ages by day of the year, and the rules for typed input |
| `Database`, `Integrity` | the tables with their keys, references, cascades and ids; one write is one SQL statement or one transaction |
| `Ballots`, `Results`, `Operations`, `ElectionRules`, `Membership` | the store's operations as atomic steps, and what every run of them keeps |
| `Outcomes`, `Admission` | every operation table by table: when it succeeds and each row that differs afterwards; and the way from request to login |
| `Store` | the store object in its own imperative form, each method equal to its operation |
| `Interleaving` | CastBallot statement by statement, any number of calls at once among all other writes |
| `RateLimiter` | the sliding-window limiter over shared backing arrays, and its janitor |
| `Form`, `Registration` | the editable form definition, and building a person from the answers |
| `Numbers`, `Spreadsheet`, `Pbkdf2` | printers, cell references, and the key derivation of section 5.2 of RFC 8018 |
| `Wizard` | the voting wizard of the browser and the request it sends |

The main results, in one line each:

- Filling a paragraph is one substitution over its whole text, whatever runs the
  text is split into (`Fill.FilledTextIsSubstitution`), for every choice of values
  exactly when no unknown short reference comes before the last known placeholder
  (`Exactness.EveryFillingIsSubstitutionIff`); and the filled paragraph reads back as
  that substitution (`Readback.FilledReadsAsSubstitution`).
- With references resolved before and after, a reader sees every choice of values in
  its place exactly when, besides, no known placeholder stands right after an
  unfinished reference (`EndToEnd.EveryFillingReadsIff`).
- No double vote under any interleaving of calls and other writes: two successes of
  one member have a reset of all votes between them (`Interleaving.NoDoubleVote`), and
  a call on its own is the atomic operation (`Interleaving.CallAloneIsAtomic`).
- A ballot is taken exactly when it may be cast, and then one vote is written for every
  pick and nothing else (`Outcomes.CastBallotLeaves`). A ballot that passes the checks
  always commits, and when voting opens everyone entitled can cast one
  (`Ballots.AcceptedBallotCommits`, `ElectionRules.OpeningLetsEveryoneVote`); the wizard
  only sends such ballots (`Wizard.SentBallotIsAccepted`).
- Votes, ballots, tallies and totals agree after every run, with all cascades
  (`Results.EveryRunAddsUp`, `Results.Overview`).
- Requests and members are one-to-one, and no session outlives a membership
  (`Membership.EveryRunKeepsTheRegister`); whoever asks for membership and gets it logs in
  with what they submitted, unless edited, cancelled or deleted in between
  (`Admission.ApplicantGetsIn`).
- In a whole part exactly the paragraphs of the expression are filled, each in its place
  (`Template.ReportedIffNotCut`, `Template.FillPart`).
- What is kept of a registration reads as what was typed (`Registration.RegistrationReadsAsTyped`).
- The limiter answers as if it remembered every grant, exactly when the window is
  at most an hour (`RateLimiter.JanitorNeverShowsIff`).
- No edit of the form can break what the validator relies on
  (`Form.EveryFormIsSound`, `Registration.EveryRegistrationIsComplete`).

Every method that changes the store or the form states its whole new state by a
specification function (`Operations.Apply`, `Form.Edited`), and besides the rows a
caller finds afterwards. `Outcomes` writes that function out for every operation, table
by table, without naming its parts. What the system promises is proved of those
functions over every run.

Where the code and its own words differ, the model follows the code:

- `internal/docxt/docxt.go:191-192` says that a value may be written into an empty
  self-closing node; it never is (`Fill.SelfClosingStaysEmpty`).
- `internal/store/candidacy.go:69-70` says that the gate cannot be reopened once
  voting has begun; it can, through draft (`ElectionRules.GateReopensThroughDraft`).
- `internal/store/candidacy.go:325-327` speaks of refreshing a ballot entry on
  acceptance; that branch is never taken (`ElectionRules.AcceptanceGivesFreshEntry`).
- `internal/store/members.go:278` says that a member is removed everywhere; the
  ballot entry of an accepted candidacy stays (`ElectionRules.DeletedMemberIsGoneIff`).

## Model

| member | source | states |
|---|---|---|
| XmlText.EscapedOffsets | internal/docxt/docxt.go:343-367 | the loop yields its table for every text, and the table is the true one exactly when every short reference in the text is one of the five predefined entities |
| XmlText.ScanIsExactIffCleanFrom | internal/docxt/docxt.go:343-357 | from any position on, the table equals the true offsets if and only if no unknown short reference follows |
| XmlText.ScanIncreases | internal/docxt/docxt.go:343-367 | the offset table is strictly increasing, stays inside the text and ends at its length |
| XmlText.EntryIsExactIffClean | internal/docxt/docxt.go:358-366 | one mapped position is the true one exactly when the text before it has no unknown short reference |
| XmlText.SlicesReadIff | internal/docxt/docxt.go:341-373 | unescaping the mapped stretch text[map(a):map(b)] gives plain[a:b] for all a <= b if and only if every short reference of the text is one of the five |
| XmlText.SliceReads | internal/docxt/docxt.go:343-373 | between any two entries of the true table the text reads as exactly the symbols between their indices |
| XmlText.EscapeXML | internal/docxt/docxt.go:375-401 | the writing loop produces the escape of the value |
| XmlText.UnescapeUndoesEscape | internal/docxt/docxt.go:369-401 | unescaping an escaped newline-free value gives the value without its dropped control characters |
| XmlText.EscapedIsPlainXml | internal/docxt/docxt.go:375-401 | an escaped newline-free value has no markup and no quote, and no ampersand but that of one of the five references |
| XmlText.NewlineIsBreak | internal/docxt/docxt.go:390-392 | a newline in a value becomes a break between two runs, and what stands before and after it is escaped on its own |
| XmlText.ControlsAreDropped | internal/docxt/docxt.go:393-397 | of a value exactly the control characters other than the tab are dropped |
| XmlText.OnlyOneEntity | internal/docxt/docxt.go:369-373 | each of the five references is read as its own character, whatever stands around it |
| Placeholder.MatchAtIsTheExpression | internal/docxt/docxt.go:237-250 | the hand-written matcher accepts at a position exactly what the placeholder expression accepts there |
| Placeholder.WrittenKeyIsMatched | internal/docxt/docxt.go:53-53 | a key of letters, digits, underscore and hyphen written between braces anywhere in a text, with white space around it or without, is matched as that key |
| Placeholder.MatchesAreOrdered | internal/docxt/docxt.go:247-250 | matches are disjoint, left to right and inside the text |
| Placeholder.NoPlaceholderIsMissed | internal/docxt/docxt.go:247-250 | a placeholder that is not reported overlaps an earlier reported one |
| Placeholder.MatchesCorrespond | internal/docxt/docxt.go:242-274 | the escaped and the unescaped text have the same placeholders, one for one, over identical bytes |
| Paragraph.ParagraphText | internal/docxt/docxt.go:178-215 | text and spans of a paragraph; the spans tile the text, each holds its own bytes, in the order of the XML |
| Paragraph.NodeAtIsTheExpression | internal/docxt/docxt.go:52-52 | the matcher accepts at a position exactly what the text-node expression matches there, its second alternative only where the first does not match |
| Paragraph.NoNodeIsMissed | internal/docxt/docxt.go:179-179 | a match that is not reported starts inside an earlier reported one |
| Paragraph.SpansAreTheNodes | internal/docxt/docxt.go:178-215 | there is a span for every match, in their order, over its inner text |
| Paragraph.SpansTile | internal/docxt/docxt.go:178-215 | for every paragraph, empty and self-closing nodes included, the spans tile the concatenated text |
| Paragraph.NodeBytes | internal/docxt/docxt.go:187-204 | the suffix test tells self-closing nodes apart, and the tag and the closing tag are where the code cuts |
| Fill.MappedEditsExactIff | internal/docxt/docxt.go:252-273 | the edits computed through the offset map are the edits of the escaped text if and only if no unknown short reference stands before the last of them |
| Fill.MappedEditsInOrder | internal/docxt/docxt.go:256-273 | for every text, clean or not, the edits are ordered, disjoint and inside it |
| Fill.FindEdits | internal/docxt/docxt.go:261-273 | the loop over the matches: one edit per known key, none for unknown ones |
| Fill.CutEdit | internal/docxt/docxt.go:289-304 | the part of an edit inside one run; the inverted-range guard never fires, and only the first run touched gets the value |
| Fill.SplitEdit | internal/docxt/docxt.go:287-305 | an edit is cut over all runs it straddles |
| Fill.SortDescending | internal/docxt/docxt.go:311-311 | a permutation of the sub-edits, largest start first |
| Fill.SortReverses | internal/docxt/docxt.go:287-311 | the sub-edits of one run have distinct starts, so any such sort is their reversal |
| Fill.ApplySubEdits | internal/docxt/docxt.go:309-318 | right-to-left application equals simultaneous replacement; the guard of line 313 never fires |
| Fill.RebuildRuns | internal/docxt/docxt.go:307-319 | every run gets the rendering of its own stretch of the text |
| Fill.Reassemble | internal/docxt/docxt.go:321-334 | bytes outside the inner texts are kept, inner texts replaced, self-closing nodes passed over |
| Fill.FillParagraph | internal/docxt/docxt.go:237-339 | the whole method: early returns, edits, cuts, rebuilt runs and reassembly give the filled paragraph, for every paragraph and value map |
| Fill.WeaveOriginal | internal/docxt/docxt.go:321-334 | with its own inner texts a paragraph is put together again byte for byte |
| Fill.NothingToFill | internal/docxt/docxt.go:239-276 | a paragraph without a known placeholder is returned as it is |
| Fill.RenderIsSubstitution | internal/docxt/docxt.go:252-319 | applying the edits to the text is one substitution of every known placeholder |
| Fill.FilledTextIsSubstitution | internal/docxt/docxt.go:237-339 | however the text is split into runs, the new inner texts concatenate to the whole text with every known placeholder replaced once |
| Fill.ValueLandsWhereItStarts | internal/docxt/docxt.go:278-319 | a value lands whole in the run where its placeholder starts, and every later run the placeholder reaches into goes on after its end |
| Fill.OtherRunsIgnoreTheValue | internal/docxt/docxt.go:278-319 | every run in which the placeholder does not start is the same for any other value |
| Fill.SelfClosingStaysEmpty | internal/docxt/docxt.go:189-198 | no value is ever written into a self-closing node |
| Exactness.FilledIsSubstitutionIff | internal/docxt/docxt.go:237-339 | when no value put in is empty or begins with a brace, the new inner texts concatenate to the substitution if and only if no unknown short reference stands before the end of the last known placeholder |
| Exactness.EveryFillingIsSubstitutionIff | internal/docxt/docxt.go:237-339 | filling is the substitution for every choice of values of the known keys if and only if the text is clean up to its last known placeholder |
| Exactness.BraceForValue | internal/docxt/docxt.go:252-319 | on a text that is not clean the filled text agrees with the substitution up to the first misplaced edit, and has a brace of the placeholder where its value should begin |
| Exactness.NumericReferenceMisplacesValue | internal/docxt/docxt.go:237-339 | with a numeric character reference before a placeholder four of its bytes stay in front of the value, in every split into runs and for every value; the filled text is not the substitution |
| Exactness.BracesHideIt | internal/docxt/docxt.go:237-339 | a value of braces only, or none, can hide a misplaced edit, so the condition on values cannot be dropped |
| Readback.AnyTextHasAParagraph | internal/docxt/docxt.go:178-215 | every text without markup is the text of some paragraph, so each text named here occurs |
| Readback.FilledReadsAsSubstitution | internal/docxt/docxt.go:178-339 | reading the filled paragraph again gives the substituted text, line breaks aside |
| Readback.ValueReadsBack | internal/docxt/docxt.go:375-401 | every value, newlines included, reads back as itself up to dropped control characters |
| Readback.FilledReadsAsRuns | internal/docxt/docxt.go:178-339 | clean or not, the filled paragraph reads as its new inner texts one after the other |
| PlainText.UnescapeJoin | internal/docxt/docxt.go:369-373 | unescaping goes piece by piece when the first piece leaves no reference open or the second cannot continue one |
| PlainText.SubstitutionReads | internal/docxt/docxt.go:237-319 | from every aligned place on, the filled escaped text reads as the plain text with its placeholders replaced, when no value can finish a reference the text left open |
| EndToEnd.FilledParagraphReadsReplaced | internal/docxt/docxt.go:237-339 | end to end: on a text clean up to its last known placeholder, whose open references no value can finish, what is read of the filled paragraph is what was read of the paragraph with every known placeholder replaced by its value less control characters |
| EndToEnd.EveryFillingReadsIff | internal/docxt/docxt.go:237-401 | the reader sees every choice of values for the known keys in its place if and only if the text is clean up to its last known placeholder and none of them stands right after an unfinished one of the five references |
| EndToEnd.FinishedMisreads | internal/docxt/docxt.go:369-401 | the values that finish the first open reference are read otherwise than they were meant |
| EndToEnd.BareAmpersandSwallows | internal/docxt/docxt.go:369-401 | an instance: a bare ampersand before a placeholder takes the first semicolon of a value for its own |
| Template.ParagraphAtIsTheExpression | internal/docxt/docxt.go:51-51 | the matcher accepts at a position exactly what the paragraph expression accepts there: a start tag with or without attributes and everything to the first closing tag, or an empty paragraph |
| Template.NoParagraphIsMissed | internal/docxt/docxt.go:219-219 | a paragraph that is not reported starts inside an earlier reported one |
| Template.ReportedIffNotCut | internal/docxt/docxt.go:219-219 | a range is reported if and only if it is a paragraph and no other paragraph reaches across its start |
| Template.FillPart | internal/docxt/docxt.go:218-233 | a part without a paragraph comes back as it is; a paragraph that none reaches into stands filled in its place, between what the bytes before it and after it become |
| Template.ReportedKeysAreMatchedKeys | internal/docxt/docxt.go:75-95 | the keys reported from the escaped text are the keys matched in the unescaped one |
| Template.KnownKeysAreAllReplaced | internal/docxt/docxt.go:261-273 | when every key is known the code makes one edit per placeholder, with its value, for every text; the edits stand on the placeholders if and only if no unknown short reference comes before the last one |
| Template.ListedKeysAreSet | internal/store/document.go:96-113 | every built-in key the reference table lists is a key that is always set |
| Template.ListedKeyIsMatched | internal/store/document.go:96-113 | every key the reference table lists, written in braces anywhere in a text, is matched as that key |
| Template.AddExtras | internal/store/document.go:76-81 | the loop over the extra answers: built-in values win |
| Template.DocumentValues | internal/store/document.go:21-92 | built-in values win over extra answers, unanswered custom fields become blank, and every listed key is present |
| Template.RecognisedTemplateIsFilled | internal/store/document.go:21-113 | filling a paragraph that uses only listed keys with the values of a document makes one edit per placeholder with its own value, and under the condition above the new inner texts are the text with exactly those replaced |
| Calendar.AgeIsMonotone | internal/store/validate.go:153-159 | age by day of the year never decreases with the date |
| Calendar.YearHasItsDays | internal/store/validate.go:153-159 | the lengths of the twelve months, and the 365 or 366 days they make |
| Calendar.AgesDifferIff | internal/store/candidacy.go:99-110 | it differs from age by month and day exactly on one day after February when one of the two years is leap and the other is not, and by one |
| Calendar.DifferOnOneDayAYear | internal/store/validate.go:153-159 | in one calendar year the two ages differ on at most one day |
| Calendar.SomeDayDiffers | internal/store/validate.go:153-159 | for births after February they do differ on some day whenever only one of the years is leap |
| IntegrityKept.ExecKeepsIntegrity | internal/store/store.go:84-173 | every statement and transaction keeps all keys, references, UNIQUE columns, cascades and the owner of every vote |
| IntegrityKept.DeleteRoleKeeps | internal/store/store.go:144-173 | deleting a role with its cascade to participants and votes keeps integrity |
| IntegrityKept.DropUserKeeps | internal/store/members.go:281-313 | deleting a member with ballots, votes, sessions, request and candidacy keeps integrity |
| IntegrityKept.ReturnKeeps | internal/store/candidacy.go:392-416 | returning a candidacy with its entry and votes keeps integrity |
| Operations.RunKeepsIntegrity | internal/store/store.go:84-173 | integrity holds after every sequence of operations |
| Operations.RefusalChangesNothing | internal/store/elections.go:364-460 | an operation that is refused, by a check or by a constraint, leaves the database as it was |
| Operations.TwoWritesSucceed | internal/store/membership_status.go:84-97 | the two operations that issue two statements issue only statements no constraint can reject |
| Ballots.InOrderEnumerates | internal/store/elections.go:103-121 | the ordered list of roles has every role exactly once |
| Ballots.InOrderAscends | internal/store/elections.go:103-121 | and it ascends by sort order, and by id where that is the same |
| Ballots.PickIsListed | internal/store/elections.go:381-434 | a pair of section and candidate is among the votes to be written if and only if the section is on the ballot and the candidate is among the selections for it |
| Ballots.ChecksDecide | internal/store/elections.go:381-434 | what CastBallot reads of the pages decides acceptance, and lists exactly the votes written |
| Ballots.AcceptedBallotCommits | internal/store/elections.go:364-460 | a ballot that passes the checks always commits: one ballot and one vote per pick, at least one per section, nothing else changes |
| Ballots.NoBallotNoVotes | internal/store/elections.go:355-379 | a member without a ballot has no votes |
| Ballots.FullBallotExistsIff | internal/store/elections.go:416-434 | a ballot using every allowance exists if and only if no section allows more picks than it has candidates |
| Ballots.ValidSetupIff | internal/store/elections.go:44-83 | the setup check passes exactly when the gate is closed, a full ballot exists, and there are two candidates on one page or at least one role |
| Ballots.ValidSetupLetsEveryoneVote | internal/store/elections.go:25-83 | with a valid setup and voting open every active member who has not voted has an acceptable full ballot |
| Ballots.OthersBallotsDoNotMatter | internal/store/elections.go:364-460 | the ballot of another member leaves an acceptable ballot acceptable |
| Results.TalliesAddUp | internal/store/elections.go:209-258 | the tallies of all participants add up to the number of votes |
| Results.TallyFitsBallots | internal/store/store.go:158-173 | no tally exceeds the number of ballots |
| Results.EveryRunAddsUp | internal/store/store.go:158-173 | after every sequence of operations votes belong to the ballot of their user and to a participant, tallies add up, and none exceeds the ballots |
| Results.SumVotes | internal/httpapi/elections.go:140-146 | the accumulating loop sums the tallies |
| Results.SectionFor | internal/httpapi/elections.go:95-134 | a section shows exactly the candidates of its role and the number of their votes |
| Results.RoleSections | internal/httpapi/elections.go:110-125 | the loop over the roles; the totals add up to the votes for all candidates with a role |
| Results.FirstRole | internal/store/elections.go:103-121 | the first row of a set of roles by sort order and id |
| Results.OrderedRoles | internal/store/elections.go:103-121 | every role once, ascending by sort order and id |
| Results.SectionsByRole | internal/httpapi/elections.go:110-136 | sections in the order of the ballot, candidates without a role last, every participant shown, totals adding up to all votes |
| Results.Overview | internal/httpapi/elections.go:95-136 | one section on a single page; by roles the sections in order, with everyone on them and totals adding up to all votes |
| ElectionRules.RunKeepsRules | internal/store/candidacy.go:230-419 | after every run: gate and vote not both open, roles votable, ballot entries only of accepted candidacies and in their roles unless moved |
| ElectionRules.GateAndVoteNeverBothOpen | internal/store/candidacy.go:71-95 | in every run the candidacy gate and the vote are never both open |
| ElectionRules.GateOpensIff | internal/store/candidacy.go:71-89 | the gate opens exactly when a role exists and the vote is in draft |
| ElectionRules.GateReopensThroughDraft | internal/store/candidacy.go:66-86 | against the comment there, from any state with a role two steps reopen the gate with all ballots kept |
| ElectionRules.ModeIsFixedWhileOpen | internal/httpapi/elections.go:159-199 | no operation changes the voting mode while voting is open |
| ElectionRules.OnlyTheEligibleStand | internal/store/candidacy.go:228-323 | whoever comes to stand for a role by any operation is an active member of its minimum age, and a member needs the gate open |
| ElectionRules.EntriesFollowCandidacies | internal/store/candidacy.go:325-419 | in every run a candidacy has at most one ballot entry, none unless accepted, in the same role unless the participant was moved |
| ElectionRules.AcceptanceGivesFreshEntry | internal/store/candidacy.go:328-378 | accepting, also after a return, inserts a new entry with no votes: the refresh branch is never taken |
| ElectionRules.OpeningLetsEveryoneVote | internal/store/elections.go:25-83 | whenever voting opens, in any run, every active member who has not voted has an acceptable ballot, even a full one |
| ElectionRules.OthersCannotSpoilABallot | internal/store/elections.go:364-460 | any number of ballots of other members leaves an acceptable ballot acceptable |
| ElectionRules.DeletedMemberIsGoneIff | internal/store/members.go:278-313 | against the comment there, deleting a member leaves the ballot entries of the candidacy as they were; every other trace goes, so the member is gone everywhere if and only if there was no entry |
| ElectionRules.DeletedMemberStaysOnBallot | internal/store/members.go:278-313 | from any installed database a run of five operations deletes a member whose entry stays on the ballot |
| Interleaving.EveryStateIsSound | internal/store/store.go:194-195 | integrity holds in every state of every interleaving of statements |
| Interleaving.AtMostOneBallot | internal/store/store.go:158-173 | in every interleaving a user has at most one ballot and every vote belongs to the ballot of its user |
| Interleaving.OnlySuccessWrites | internal/store/elections.go:436-460 | a step of a call changes the database exactly when it is the commit of a successful call; failed calls leave nothing |
| Interleaving.OnlyTheseTakeBallots | internal/store/elections.go:474-495 | in any state a step takes away the ballot of a user only if it is a reset or the deletion of that member |
| Interleaving.WritesBringNobodyBack | internal/store/store.go:85-107 | ids are never used twice: a deleted member never has a row again |
| Interleaving.NoDoubleVote | internal/store/elections.go:361-460 | two calls of one user both succeed, in any interleaving, only if all votes were reset between them |
| Interleaving.CallAloneIsAtomic | internal/store/elections.go:364-460 | the statements of a call with nothing in between do what the atomic operation does, for every database and ballot |
| Membership.EveryRunKeepsTheRegister | internal/store/members.go:129-340 | in every run members that came through a request are one-to-one with approved requests, no new pair shares a phone, and no session belongs to a missing or cancelled member |
| Membership.ApproveKeepsRegister | internal/store/members.go:129-171 | approval adds one member for one request |
| Membership.DropUserKeepsRegister | internal/store/members.go:281-313 | a member leaves together with the request they came from |
| Membership.WriteSharesNoPhone | internal/store/members.go:15-53 | no statement the operations issue makes two members share a phone who did not before |
| Membership.WriteKeepsSessions | internal/httpapi/public.go:321-363 | no statement the operations issue leaves a session of a missing or cancelled member |
| Membership.StatusChangeKeepsSessions | internal/store/membership_status.go:62-100 | after suspension or cancellation the member has no session left |
| Outcomes.CastBallotLeaves | internal/store/elections.go:364-460 | accepted if and only if voting is open, the member is active and has not voted, and every page has one pick at least, at most its allowance, none twice, all of its candidates; then the new rows are one ballot and, for every pick of every page, exactly one vote, and nothing else differs |
| Outcomes.MayCastIff | internal/store/elections.go:381-434 | that condition, written over the rows and the selections, is the acceptance the checks compute |
| Outcomes.SetVotingStatusLeaves | internal/store/elections.go:25-41 | each of the three states is written as given, opening only after the setup check; nothing else changes |
| Outcomes.SaveElectionSettingsLeaves | internal/httpapi/elections.go:159-199 | the mode and the number of picks that are left, with both defaults, and when it is refused |
| Outcomes.SetCandidacyGateLeaves | internal/store/candidacy.go:71-96 | the gate is what was asked for, opened only with roles and in draft |
| Outcomes.CreateRoleLeaves | internal/store/elections.go:156-173 | the new row column by column, ten places after the last role |
| Outcomes.UpdateRoleLeaves | internal/store/elections.go:175-187 | the row left of an existing role, column by column |
| Outcomes.DeleteRoleLeaves | internal/store/elections.go:189-202 | the role, its participants and every vote for one of them go, and nothing else |
| Outcomes.CreateParticipantLeaves | internal/store/elections.go:295-317 | one row under a new id, in the role given or in none |
| Outcomes.UpdateParticipantLeaves | internal/store/elections.go:319-336 | the entry moves to the role given or to none; nothing else changes |
| Outcomes.DeleteParticipantLeaves | internal/store/elections.go:338-351 | the entry and every vote for it go, and nothing else |
| Outcomes.ResetVotesLeaves | internal/store/elections.go:475-495 | no ballot and no vote is left; nothing else changes |
| Outcomes.FirstSubmissionLeaves | internal/store/candidacy.go:230-269 | the first time a submitted candidacy for the role is added, if the gate is open and the member may stand |
| Outcomes.SubmissionAgainLeaves | internal/store/candidacy.go:230-269 | the one candidacy of the member is submitted again for the role, unless it was accepted |
| Outcomes.ChangeCandidacyRoleLeaves | internal/store/candidacy.go:276-323 | the candidacy stands for the new role and keeps its status; the entry follows when it was accepted; all other rows stay |
| Outcomes.AcceptCandidacyLeaves | internal/store/candidacy.go:328-378 | the status is Accepted, and the candidacy has an entry in its role, new or moved; all other rows stay |
| Outcomes.ReturnCandidacyLeaves | internal/store/candidacy.go:382-419 | the status is Returned; the entry and every vote for it go; all other rows stay |
| Outcomes.CreateApplicationLeaves | internal/store/members.go:55-71 | the table gains the request as submitted, pending, under a new id, exactly when no member and no pending request has its number or phone |
| Outcomes.ApproveApplicationLeaves | internal/store/members.go:129-171 | a member with the number, phone and birthday of the request is added, active, and the request is approved |
| Outcomes.RejectApplicationLeaves | internal/store/members.go:173-188 | the status is Rejected, unless the request was approved; nothing else changes |
| Outcomes.SetApplicationStatusLeaves | internal/store/membership_status.go:105-134 | the status is the one given, if it is one of three, another one, and the request was not approved |
| Outcomes.DeleteApplicationLeaves | internal/store/members.go:190-203 | the request goes, unless it was approved; nothing else changes |
| Outcomes.UpdateUserLeaves | internal/store/members.go:316-340 | number, phone and birthday are those given and the other columns stay, unless another member has the number or the phone |
| Outcomes.SetUserStatusLeaves | internal/store/membership_status.go:65-100 | the status is the one given, and unless that is active every session of the member goes, and no other |
| Outcomes.DeleteUserLeaves | internal/store/members.go:281-313 | the member goes with ballots, votes, sessions, candidacy and the request they came from, and nothing else |
| Outcomes.LoginLeaves | internal/httpapi/public.go:321-363 | with phone, birthday and number of a member a session for that member is added, unless cancelled |
| Outcomes.LoginOfNobody | internal/httpapi/public.go:321-363 | if the phone, the birthday and the number are not all of one member, there is no session |
| Outcomes.AdminLoginLeaves | internal/store/admins.go:128-141 | a session of the kind given is added |
| Outcomes.LogoutLeaves | internal/store/admins.go:164-166 | the token goes, and nothing else |
| Outcomes.LookupSessionLeaves | internal/store/admins.go:143-162 | an expired session goes when it is looked up, and nothing else |
| Outcomes.PurgeSessionsLeaves | internal/store/admins.go:169-171 | exactly the expired sessions go |
| Admission.RequestsKeepTheirData | internal/store/members.go:55-203 | over any run a request that is still there has the number, the phone and the birthday it was created with |
| Admission.ApplicantGetsIn | internal/httpapi/public.go:296-363 | from request to login: a request that is created, after any run approved, and whose member is after any further run neither edited nor cancelled nor deleted, logs in with exactly the phone, the birthday and the number that were submitted |
| Store.Store.ValidateVotingSetup | internal/store/elections.go:44-83 | the early returns decide exactly the setup condition |
| Store.Store.SetVotingStatus | internal/store/elections.go:25-41 | succeeds exactly unless it would open a vote the setup check refuses, and then the status is the one given and nothing else changes |
| Store.Store.SaveElectionSettings | internal/httpapi/elections.go:159-199 | mode lock, title, defaults for the two counts: the exact mode and number of picks that are left |
| Store.Store.NormalizedRole | internal/store/elections.go:133-154 | rewrites a role in place or refuses it |
| Store.Store.SelectLastOrder | internal/store/elections.go:160-161 | the largest sort order of the roles, 0 without roles |
| Store.Store.CreateRole | internal/store/elections.go:156-173 | inserts the normalised role, which comes last on the ballot |
| Store.Store.UpdateRole | internal/store/elections.go:175-187 | the row that is left of a role: at least one winner and one pick and a sensible age |
| Store.Store.DeleteRole | internal/store/elections.go:189-202 | refused while voting is open; otherwise no participant of the role is left |
| Store.Store.CreateParticipant | internal/store/elections.go:295-317 | needs a name and an existing role or none; the role gains exactly this entry |
| Store.Store.UpdateParticipant | internal/store/elections.go:319-336 | an existing entry stands in the given role afterwards |
| Store.Store.DeleteParticipant | internal/store/elections.go:338-351 | refused while voting is open; otherwise the entry goes with every vote for it |
| Store.Store.ValidIds | internal/store/elections.go:389-396 | the loop that fills the set of valid ids |
| Store.Store.BallotChecks | internal/store/elections.go:381-414 | the list of checks, one per page in order |
| Store.Store.CheckPicks | internal/store/elections.go:416-434 | the loop with its seen set accepts exactly a filled page |
| Store.Store.InsertBallotVotes | internal/store/elections.go:446-458 | the nested loops insert a vote for every pick of every section in order, or stop at the first that a constraint rejects |
| Store.Store.CheckBallot | internal/store/elections.go:381-434 | the whole ballot is checked before anything is written |
| Store.Store.CastBallot | internal/store/elections.go:364-460 | guards, checks, one transaction with rollback: succeeds if and only if the ballot may be cast, and then the new rows are one ballot and exactly one vote for every pick of every page |
| Store.Store.ResetVotes | internal/store/elections.go:475-495 | refused while voting is open; afterwards nobody has voted |
| Store.Store.SetCandidacyGate | internal/store/candidacy.go:71-96 | opens exactly with roles and in draft, closes always |
| Store.Store.CandidacyForUser | internal/store/candidacy.go:175-188 | the one candidacy of a member, if any |
| Store.Store.SubmitCandidacy | internal/store/candidacy.go:230-269 | gate, role and age checks; the exact row that is inserted the first time or resubmitted after, never over an acceptance |
| Store.Store.ChangeCandidacyRole | internal/store/candidacy.go:276-323 | the checks, then candidacy and accepted entry in one transaction; the exact rows that are left |
| Store.Store.AcceptCandidacy | internal/store/candidacy.go:328-378 | marks accepted and inserts or refreshes the entry in one transaction; the exact rows that are left |
| Store.Store.ReturnCandidacy | internal/store/candidacy.go:382-419 | needs a note; the candidacy is returned, its entry and every vote for it are gone, all other rows stay |
| Store.Store.CheckUnique | internal/store/members.go:18-53 | number and phone are in no member and in no other pending request |
| Store.Store.CreateApplication | internal/store/members.go:55-71 | inserts the request as given and pending under a new id if it is unique |
| Store.Store.ApproveApplication | internal/store/members.go:129-171 | pending and unique requests become members with their number, phone and birthday in one transaction |
| Store.Store.RejectApplication | internal/store/members.go:173-188 | the status is Rejected, and an approved request is never touched |
| Store.Store.SetApplicationStatus | internal/store/membership_status.go:105-134 | hold, cancel or reopen: the status given, and an approved request is never touched |
| Store.Store.DeleteApplication | internal/store/members.go:190-203 | deletes, and never touches an approved request |
| Store.Store.UpdateUser | internal/store/members.go:316-340 | the row that is left; on success number and phone belong to no other member |
| Store.Store.SetUserStatus | internal/store/membership_status.go:65-100 | writes the status; a withdrawn member has no session left |
| Store.Store.DeleteUser | internal/store/members.go:281-313 | the five statements of the transaction; no member, ballot or session of the id is left |
| Store.Store.FindUserByCredentials | internal/store/members.go:258-264 | the one member with phone, birthday and number |
| Store.Store.LatestRequest | internal/store/members.go:266-276 | the latest request with the number or the phone |
| Store.Store.Login | internal/httpapi/public.go:321-363 | a session for matching credentials unless cancelled; a refusal tells a cancelled member, the state of the latest request, and an unknown person apart |
| Store.Store.MemberLogin | internal/httpapi/public.go:296-363 | phone and number are normalised first and incomplete data refused; otherwise the login with what is stored |
| Store.Store.LookupSession | internal/store/admins.go:143-162 | a live session, or none, and an expired one is deleted |
| Store.Store.DeleteSession | internal/store/admins.go:164-166 | the token opens nothing any more |
| Store.Store.PurgeExpiredSessions | internal/store/admins.go:169-171 | no expired session is left, and no other is touched |
| Store.RegisteredMemberGetsIn | internal/httpapi/public.go:296-363 | a member who registered with a phone and a number can log in with them, the phone typed with the country code, unless cancelled |
| RateLimiter.FilterInPlace | internal/httpapi/server.go:423-428 | the slice filtered over its own backing array keeps exactly the recent entries in order: no unread entry is overwritten |
| RateLimiter.Limiter.Allow | internal/httpapi/server.go:419-435 | grants exactly when fewer than n remembered grants are recent; other keys and their arrays are untouched |
| RateLimiter.Limiter.Append | internal/httpapi/server.go:433-433 | append in place or into a larger array |
| RateLimiter.Limiter.DeleteStale | internal/httpapi/server.go:404-411 | the loop deletes exactly the buckets that are empty or last granted over an hour ago |
| RateLimiter.Limiter.Sweep | internal/httpapi/server.go:404-411 | what is remembered of every key afterwards, and no bucket that stays is changed |
| RateLimiter.BucketShowsLog | internal/httpapi/server.go:401-435 | after any run, at any later instant, the bucket shows what the full log of grants shows |
| RateLimiter.GrantedIff | internal/httpapi/server.go:401-435 | after any run an attempt is granted if and only if fewer than n earlier grants lie in the window before it, counted in the full log |
| RateLimiter.JanitorNeverShowsIff | internal/httpapi/server.go:401-435 | answers equal those of the full log in every run if and only if the window is at most an hour and a nanosecond, or nothing is ever granted |
| RateLimiter.GrantedIsLog | internal/httpapi/server.go:419-435 | the attempts granted are exactly those an exact log grants |
| RateLimiter.AtMostNInAnyInterval | internal/httpapi/server.go:417-435 | no interval as long as the window holds more than n logged grants |
| RateLimiter.LimiterKeepsItsPromise | internal/httpapi/server.go:417-435 | the limiter never lets more than n attempts through in any interval of its window |
| Validation.BuildNormalized | internal/store/validate.go:13-26 | the digit loop replaces Arabic-Indic digits one by one and keeps everything else |
| Validation.DigitKeepsItsValue | internal/store/validate.go:13-26 | a digit of either Arabic script becomes the ASCII digit of its value, and every other symbol stays |
| Validation.DigitOfOne | internal/store/validate.go:28-35 | one symbol adds its digit to the digits of a text if it is one of the thirty digits, and nothing otherwise |
| Validation.DigitsJoin | internal/store/validate.go:28-35 | the digits of a text are those of its symbols in their order |
| Validation.TrimSpaceIs | internal/store/validate.go:87-87 | white space goes from both ends, all of it, and nothing else |
| Validation.WordsSplit | internal/store/validate.go:87-87 | white space separates words: the words of a text are those before it and those after it |
| Validation.JoinedWords | internal/store/validate.go:171-178 | words joined by single spaces are the same words again |
| Validation.NameAcceptedIff | internal/store/validate.go:68-107 | a name is accepted if and only if it has four words or more, each of Arabic letters, and 120 runes at most; what is stored are those words with single spaces |
| Validation.EmailAcceptedIff | internal/store/validate.go:109-120 | an address is optional; one that is given is stored without the white space around it, if it matches and has at most 160 bytes |
| Validation.CleanTextIsWords | internal/store/validate.go:171-178 | the words of the text with single spaces, cut to the length |
| Validation.CprIsCanonical | internal/store/validate.go:37-57 | accepted exactly with one to nine digits; the result has nine and validates to itself |
| Validation.CprKeepsItsNumber | internal/store/validate.go:37-57 | the stored nine digits are the number that was typed |
| Validation.PhoneIsCanonicalIff | internal/store/validate.go:59-66 | a stored phone validates to itself if and only if it does not begin with the country code, and otherwise not at all |
| Validation.PhoneIsWhatWasTyped | internal/store/validate.go:59-66 | what is stored is the eight digits typed, or those typed after the country code |
| Validation.PhoneDoesNotValidateAgain | internal/store/validate.go:59-66 | typing the country code twice stores eight digits that do not validate again |
| Validation.PhoneWithCodeIsFound | internal/store/validate.go:59-66 | with the country code in front every stored number validates to itself |
| Validation.CheckDob | internal/store/validate.go:123-151 | the loop over the layouts with its break, and the early returns, decide what StoredDobIsTheDay and DobAcceptedIff speak of |
| Validation.DobAcceptedIff | internal/store/validate.go:123-159 | accepted if and only if the first reading is a day from 1900 on, not in the future, and of eighteen years by the calendar, with seventeen on the one early day and nineteen on the one late day |
| Validation.AcceptedDobIsAdult | internal/store/validate.go:123-159 | whoever is accepted is eighteen by the calendar or will be tomorrow |
| Validation.StoredDobIsTheDay | internal/store/validate.go:123-151 | the stored text reads, by its digits, as year, month and day of exactly the accepted birthday |
| Validation.CleanTextKeepsText | internal/store/validate.go:171-178 | text that is not blank stays non-empty |
| Form.SanitizedKey | internal/store/form.go:205-221 | custom keys have only letters, digits and underscores, at most 40, and start with none |
| Form.SanitizedAgainIff | internal/store/form.go:205-221 | a stored key is its own key if and only if it was not cut right after an underscore |
| Form.FormStore.InstallDefaultFields | internal/store/form.go:46-59 | the loop of INSERT OR IGNORE |
| Form.FormStore.Fields | internal/store/form.go:70-95 | exactly the fields asked for, each once, by sort order and id |
| Form.FormStore.FieldByKey | internal/store/form.go:97-108 | the row with the key, if there is one |
| Form.FormStore.KeepStructure | internal/store/form.go:122-130 | what an admin may not change of locked and core fields is overruled |
| Form.FormStore.UpdateField | internal/store/form.go:117-146 | when it is accepted, and the row it leaves column by column: title and place as given, the two switches as given unless the field is locked, type and condition as given unless it is a core field; no other field changes |
| Form.FormStore.SelectMaxOrder | internal/store/form.go:163-164 | the largest sort order, 0 for an empty table |
| Form.FormStore.AddField | internal/store/form.go:149-180 | accepted if and only if key, title and type are in order and the key is new; the field as given, ten places after the last, and the others stay as they are |
| Form.FormStore.DeleteField | internal/store/form.go:182-188 | accepted if and only if the key is not reserved; core fields and all other fields stay; the deleted one is gone |
| Form.FormStore.ReorderFields | internal/store/form.go:190-202 | the renumbering loop; nothing but the places of the fields changes |
| Form.FirstBootIsSound | internal/store/form.go:24-59 | the installed defaults satisfy what the validator relies on |
| Form.EditKeepsSound | internal/store/form.go:115-202 | every edit keeps it |
| Form.EveryFormIsSound | internal/store/form.go:115-202 | whatever the edits, the four locked fields stay present, enabled, required, unconditional and of their type, and core fields keep type and condition |
| Form.PageFollowsList | internal/store/form.go:190-202 | after a reordering the page shows fields in the order of the list |
| Registration.CollectAnswers | internal/httpapi/public.go:186-189 | trimmed answers for the fields of the page and for nothing else |
| Registration.FieldEffect | internal/httpapi/public.go:201-279 | one turn of the loop with its continue, early returns and switch; what it writes of a credential has the full length |
| Registration.BuildPerson | internal/httpapi/public.go:184-285 | the method as a walk over the fields |
| Registration.BuiltIsAssembled | internal/httpapi/public.go:201-284 | on success every key holds what its one field writes and keys without a field are blank |
| Registration.RegistrationAcceptedIff | internal/httpapi/public.go:201-284 | a registration is accepted if and only if every field of the page that applies is answered by its rule |
| Registration.CredentialsAreTheAnswers | internal/httpapi/public.go:201-234 | name, number, birthday and phone of a registered person are what the rules make of those four answers |
| Registration.ColumnsAreTheAnswers | internal/httpapi/public.go:235-257 | so are the other columns, or blank where the page has no such field |
| Registration.RegistrationReadsAsTyped | internal/httpapi/public.go:184-285 | what is kept reads as what was typed: the same number, the same day by the digits of the stored date, the eight digits of the phone |
| Registration.ExtraIsTheAnswer | internal/httpapi/public.go:272-279 | a custom answer is recorded under its key exactly when its field applies |
| Registration.NoOtherExtras | internal/httpapi/public.go:272-279 | nothing is recorded under any other key |
| Registration.OrderDoesNotMatter | internal/httpapi/public.go:201-284 | success and the person do not depend on the order of the fields |
| Registration.CompletenessCheckIsDead | internal/httpapi/public.go:281-283 | on a sound form the last check never refuses |
| Registration.DetailsFollowTheirQuestion | internal/httpapi/public.go:249-271 | volunteering field and affiliation are recorded exactly when the question before them was answered yes and the form asks, and then as answered |
| Registration.EveryRegistrationIsComplete | internal/httpapi/public.go:184-285 | after any edits of the form a registration carries all four credentials in full length, or blames a field of the page |
| Numbers.ItoaInBuffer | internal/store/document.go:147-167 | the buffer of twenty bytes is never too small and holds the numeral, the smallest int64 excepted |
| Numbers.ParseIntLoop | internal/httpapi/public.go:561-579 | the loop reads an optional sign and digits in int64, and refuses anything else |
| Numbers.PrintedNumberReadsBackIff | internal/store/document.go:147-167 | a printed number reads back if and only if it is not the smallest int64, which reads as 0 |
| Numbers.NoStepOverflows | internal/httpapi/public.go:561-579 | reading a printed number never overflows on the way |
| Numbers.CheckPlainNumber | internal/xlsxw/xlsxw.go:215-226 | the loop and the leading-zero test |
| Numbers.PlainNumbersAreDecimals | internal/xlsxw/xlsxw.go:215-226 | a value is a plain number if and only if it is the canonical numeral of one |
| Spreadsheet.WriteColName | internal/xlsxw/xlsxw.go:228-235 | the loop terminates and puts the letters in front |
| Spreadsheet.ColumnsAreABijection | internal/xlsxw/xlsxw.go:228-235 | names and indices correspond one to one over all naturals and all non-empty words of A to Z |
| Spreadsheet.NamesAscendIff | internal/xlsxw/xlsxw.go:228-235 | columns are ordered as their names, shorter first and then alphabetically |
| Spreadsheet.RefsAreDistinct | internal/xlsxw/xlsxw.go:181-197 | no two cells share a reference |
| Spreadsheet.SomeRefs | internal/xlsxw/xlsxw.go:181-235 | references are written column letters first: A1, Z10, AA7 |
| Spreadsheet.CleanThenReplace | internal/xlsxw/xlsxw.go:243-256 | the two passes of escape |
| Spreadsheet.ReplacedReadsBack | internal/xlsxw/xlsxw.go:237-256 | unescaping a cell restores its cleaned text |
| Spreadsheet.ReplacedIsPlainXml | internal/xlsxw/xlsxw.go:237-256 | an escaped cell has no markup and no quote, and no ampersand but that of one of the five references |
| Spreadsheet.ControlsAreDropped | internal/xlsxw/xlsxw.go:243-256 | of a value exactly the control characters other than tab and newline are dropped |
| Spreadsheet.WriteRow | internal/xlsxw/xlsxw.go:181-197 | every cell of a row has its reference, holds text without markup and reads back as its value less dropped control characters; it is a number exactly where it may be |
| Pbkdf2.PutUint32 | internal/auth/auth.go:36-36 | the four bytes of the counter, most significant first |
| Pbkdf2.XorInto | internal/auth/auth.go:45-47 | the in-place loop is the exclusive or |
| Pbkdf2.Block | internal/auth/auth.go:34-48 | the iteration loop accumulates the function F of section 5.2 of RFC 8018 |
| Pbkdf2.Derive | internal/auth/auth.go:27-52 | for every count and length the result is the prefix of T_1, T_2, ... |
| Pbkdf2.ShorterKeyIsPrefix | internal/auth/auth.go:27-52 | a shorter key is the beginning of a longer one |
| Pbkdf2.KeyIsTheStandards | internal/auth/auth.go:27-52 | up to the length the standard allows every octet is the one it defines |
| Wizard.EventKeepsStep | web/static/vote.js:36-53 | every control offered keeps pages before the step filled and all pages within their allowance |
| Wizard.EveryScreenIsInStep | web/static/vote.js:81-150 | so does every sequence of picks, next, back and edit |
| Wizard.PickChangesItsPage | web/static/vote.js:36-53 | clearing a checkbox takes its candidate away, setting one below the allowance adds it and keeps the others, a radio button replaces; no other page changes |
| Wizard.Wizard.SelectionsFor | web/static/vote.js:18-21 | creates the set of a role on first use |
| Wizard.Wizard.RenderSection | web/static/vote.js:81-120 | the next button is enabled exactly when something is chosen |
| Wizard.Wizard.Choose | web/static/vote.js:36-53 | the same of the handler: what is chosen on the page afterwards, that no other page changes, and that the button follows |
| Wizard.Wizard.Toggle | web/static/vote.js:36-51 | the branches of the handler |
| Wizard.Wizard.Next | web/static/vote.js:112-116 | one step on, same picks |
| Wizard.Wizard.Back | web/static/vote.js:109-110 | one step back, same picks |
| Wizard.Wizard.Edit | web/static/vote.js:144-145 | from the review to the last page, same picks |
| Wizard.Wizard.Send | web/static/vote.js:159-164 | one numeral key per role with exactly the picks of its page |
| Wizard.DecodeSelections | internal/httpapi/public.go:545-553 | the handler refuses a key that is not a number and otherwise keeps every list under its number |
| Wizard.BallotForm | internal/httpapi/public.go:454-514 | only active members, only while voting is open; one page per section of the ballot in order, with allowance and candidates |
| Wizard.FormsCanBeShown | internal/httpapi/public.go:470-504 | every ballot form with a section has distinct roles and allows at least one pick on each page |
| Wizard.SentBallotIsAccepted | web/static/vote.js:152-166 | whatever is done in the wizard, what it sends fills every section, so with voting open CastBallot accepts it |

## Left out

- Readback.FilledReadsAsSubstitution: for paragraphs whose `<w:t>` nodes hold no
  further `<`, as in well-formed documents; values with newlines are included, and
  their breaks are stripped on both sides of the equation.
- Fill.FilledTextIsSubstitution: one direction; the other is `Exactness.FilledIsSubstitutionIff`.
- Exactness.FilledIsSubstitutionIff: for values that are not empty and do not begin with a brace,
  for others can hide the damage (`Exactness.BracesHideIt`); for every choice of values at once
  there is no condition on them (`Exactness.EveryFillingIsSubstitutionIff`).
- Placeholder.MatchAtIsTheExpression: the expression is written out as a predicate on
  byte ranges; the regular-expression engine itself is not modelled.
- Store.Store.CreateParticipant: the sort order of participants, which only arranges the
  candidates inside a page, is not modelled.
- Validation.StoredDobIsTheDay: while the current year has four digits, as the date format writes four.
- Template.FillPart: a paragraph inside another one's bytes is not filled on its own, as the
  expression never reports it.
- Store.Store.MemberLogin: phone and number are normalised as typed; the birthday is taken as a
  day, so the reordering of day, month and year in what was typed is not modelled.
- Interleaving.NoDoubleVote: other operations appear as any of their writes at any time,
  which allows more runs than the code does; their own reads are not steps.
- Wizard.SentBallotIsAccepted: for role ids a browser can hold exactly, and the ballot form of the
  same database; ballots of others in between do not matter by `Ballots.OthersBallotsDoNotMatter`.
- Wizard.Wizard.Choose: the set a handler captured and the set in the map are one object
  in the browser; here the map holds values and is updated.
- Validation.DobAcceptedIff: the three date layouts and the email expression are
  parameters; dates compare by day, which refuses the same birthdays.
- EndToEnd.FilledParagraphReadsReplaced: one direction for one choice of values; both directions
  for all of them are `EndToEnd.EveryFillingReadsIff`.
- Strings are bytes in the Word engine and the spreadsheet, runes in the form; a value that is
  not valid UTF-8 would have bad bytes replaced, which is not modelled.
- Nested paragraphs in one match of the paragraph expression are taken as the expression takes them.
- Names, photos, notes, descriptions, texts of messages and time stamps of rows.
- Unknown status and mode strings, which the code refuses before anything else.
- AllParticipants, the audit log, display settings, admin accounts and their passwords.
- Which field a refused registration blames when several are wrong depends on the order.
- Vote shares in per cent, which are floating point and only shown.
- HTTP routing, cookies, JSON, ZIP archives, images, the SQL engine and its migrations.
- Random tokens, SHA-256 and HMAC: a token and a pseudorandom function are parameters.
