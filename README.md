# Live polling session: a Dafny model

This project models the core of a live classroom polling system. A teacher
creates a timed multiple-choice poll. Students join a room, vote once per
poll id they send, and the per-option tally goes live to the teachers. Late joiners are
resynchronised with the time left, and a student can be kicked. The model
covers the server's socket handlers and services and three pieces of client
state: the student's poll store, the user store, and the teacher's
poll-creation form.

Modules, in dependency order:

- `Wrappers`: `Option`.
- `Schema`: the table rows (`User`, `PollRow`, `PollOption`, `Vote`), the
  result row, and the emitted events as a closed datatype.
- `VoteService`: the vote table as a class (`VoteLedger`), plus the tally
  `CalculateResults` as pure functions.
- `PollTiming`: elapsed and remaining seconds from an integer millisecond
  clock, and the delay Node's `setTimeout` actually waits.
- `Membership`: the user-table queries and updates of the room handlers.
- `Session`: one class holding the server's shared state and one method per
  socket handler and service. The state is the user, poll, option and vote
  tables, the `activePoll.current` and `activeTimeout.current` slots, the
  scheduled timers, and the log of emitted events. It also holds the
  corrected create-poll handler.
- `Scenarios`: short runs of the handlers, including the stale-timer
  discrepancy.
- `PollSlice`, `UserSlice`: the client reducers. Each is a class with one
  method per reducer, with the same reducers as pure `Reduce`/`Run`
  functions for reasoning about action sequences.
- `TeacherForm`: the form state, its edit handlers, and the create-poll
  validation, including JavaScript's `trim`.

Modelling choices:

- Database tables are sequences in insertion order. Row ids come from one
  counter (`nextId`). `findFirst` returns the first match in table order.
- Each handler runs as one atomic step.
- The clock is an integer parameter `now` in milliseconds.
- A timer is a handle in a map `pending` from handle to due time;
  `timeoutSlot` is `activeTimeout.current`. `FireTimeout(handle, now)` is the
  runtime calling a due callback, and `clearTimeout` removes the handle.
- Emitting an event appends to `events`. The target is the global room, a
  named room, or one socket.
- A socket id counts as present when it is set and non-empty, which is what
  JavaScript truthiness tests (`Schema.Truthy`).
- Percentages are exact `real`s.

Where the design description and the code disagree, the model follows the
code:

- `create_poll` neither ends the previous poll nor clears its timer.
- No handler checks the sender's role.
- The server does not validate the poll.
- `submit_vote` does not require the poll to be active, and does not check
  that the option belongs to the poll. The handler that adds this check is
  `OnSubmitVoteChecked`.
- A kicked student who joins again gets a new user row and may vote again
  on the same poll.
- Results go only to teachers, not to the whole room.

## Model

| member | source | states |
|---|---|---|
| VoteService.VoteLedger.SubmitVote | server/src/services/voteService.js:1-5 | exactly one vote with the given poll, user and option is appended; earlier votes are unchanged; no dedupe; afterwards the pair counts as voted |
| VoteService.VoteLedger.HasVoted | server/src/services/voteService.js:7-12 | true exactly when some recorded vote has this poll id and user id |
| VoteService.FreshVoteKeepsNoDoubleVotes | server/src/sockets/pollHandlers.js:35-38 | appending a vote for a (poll id, user) pair not yet voted keeps every user at one vote per poll id carried by the vote |
| VoteService.CountVotes | server/src/services/voteService.js:24 | an option's vote count never exceeds the number of votes |
| VoteService.CountVotesAppend | server/src/services/voteService.js:24 | one more vote raises exactly its own option's count, by one |
| VoteService.TotalVotesNewVote | server/src/services/voteService.js:20 | with distinct option ids, one more vote raises the total by one when its option is among the poll's options, and leaves it unchanged otherwise |
| VoteService.TotalVotesAtMostVotes | server/src/services/voteService.js:20 | with distinct option ids, the total never exceeds the number of votes cast |
| VoteService.PercentageSpec | server/src/services/voteService.js:25 | the share is 0 with no votes; otherwise share × total = count × 100; it is never negative, and at most 100 when the count is part of the total |
| VoteService.OptionsOf | server/src/services/voteService.js:15-18 | a poll's options are at most all the option rows |
| VoteService.OptionsOfMembers | server/src/services/voteService.js:15-18 | an option row belongs to the poll's options exactly when it carries the poll's id |
| VoteService.OptionsOfAppend | server/src/services/voteService.js:15-18 | the option query keeps table order: it distributes over concatenation |
| VoteService.Rows | server/src/services/voteService.js:22-26 | one row per option, in order, with the option's id, its vote count, and its share of the given total |
| VoteService.CalculateResults | server/src/services/voteService.js:14-27 | one row per option of the poll, in option order, each carrying the option's id and its vote count |
| VoteService.RowsSumVotes | server/src/services/voteService.js:20-24 | the row counts add up to the reduce's total |
| VoteService.RowsSumPercentages | server/src/services/voteService.js:20-25 | for a positive denominator, the shares add up to total / denominator × 100 |
| VoteService.CountAtMostTotal | server/src/services/voteService.js:20 | no option has more votes than the total |
| VoteService.ResultsTotal | server/src/services/voteService.js:20 | `totalVotes` equals the sum of the per-row `votes` |
| VoteService.ResultsNoVotes | server/src/services/voteService.js:25 | with no votes, every percentage is 0 |
| VoteService.ResultsPercentageBounds | server/src/services/voteService.js:25 | with votes, every percentage lies in [0, 100] |
| VoteService.ResultsPercentageSum | server/src/services/voteService.js:20-25 | with votes, the percentages sum to exactly 100 |
| VoteService.ResultsIgnoreForeignVote | server/src/services/voteService.js:15-17 | a vote for an option outside the poll leaves the poll's results unchanged |
| VoteService.SameCountsSameResults | server/src/services/voteService.js:20-26 | two vote tables with the same per-option counts give the same total and the same rows |
| VoteService.ResultsCountNewVote | server/src/services/voteService.js:22-24 | after one more vote, a row's count rises by one exactly when the vote is for that row's option |
| VoteService.CountedVoteFiledUnder | server/src/services/voteService.js:15-17 | with unique option ids, a vote whose option belongs to its own poll and is counted in a poll's tally is filed under that poll |
| VoteService.MatchedVotesHaveDistinctVoters | server/src/services/voteService.js:15-24 | when every vote names an option of its own poll, one vote per user and poll id gives distinct voters for every two votes a tally counts |
| VoteService.VotesMatchGrow | server/src/services/pollService.js:10-12 | inserting option rows keeps every vote naming an option of its own poll, so create_poll keeps that invariant |
| VoteService.VotesMatchAppend | server/src/services/voteService.js:1-5 | appending a vote whose option belongs to its poll keeps the invariant |
| VoteService.ForeignPollIdCountedTwice | server/src/services/voteService.js:14-27 | when a poll has a single option, two votes by one user for that option, under the poll's id and under another poll id, have no double vote per poll id, yet that poll's tally counts both: 2 votes, 100 %, and the two counted votes share a voter |
| VoteService.TwoToOneExample | server/src/services/voteService.js:14-27 | two votes for one option and one for the other give rows (2, 200/3 %) and (1, 100/3 %); another poll's option is not reported |
| PollTiming.ElapsedSeconds | server/src/sockets/pollHandlers.js:61-62 | the whole seconds elapsed are the floor of the millisecond difference over 1000 |
| PollTiming.SyncRemaining | server/src/sockets/pollHandlers.js:61-66 | the remaining time reported is never negative, and is 0 or `timer - floor(elapsed)` |
| PollTiming.RawRemainingPositive | server/src/sockets/roomHandlers.js:37-40 | the raw remaining time is positive exactly while fewer than `timer * 1000` ms have passed since the start, and never exceeds the timer once the poll has started |
| PollTiming.SyncRemainingAtStart | server/src/sockets/pollHandlers.js:61-66 | at elapsed 0 the remaining time is the whole timer |
| PollTiming.ElapsedMonotonic | server/src/sockets/pollHandlers.js:61-62 | the elapsed-seconds count never decreases as the clock advances |
| PollTiming.SyncRemainingNonIncreasing | server/src/sockets/pollHandlers.js:61-66 | the reported remaining time never grows as the clock advances |
| PollTiming.JoinAgreesWithSync | server/src/sockets/roomHandlers.js:37-40 | join_room's positive raw remaining time is exactly when sync_state reports a positive time, and the two numbers then agree |
| PollTiming.LateJoinerExample | server/src/sockets/roomHandlers.js:37-40 | 12 s into a 30 s poll, 18 s remain |
| PollTiming.TimeoutDelay | server/src/sockets/pollHandlers.js:20-22 | whatever the timer, the wait lies between 1 ms and 2^31 - 1 ms, so every scheduled end does fire |
| PollTiming.TimeoutDelayInSeconds | server/src/sockets/pollHandlers.js:20-22 | a timer of 1 to 2147483 s waits exactly that long; a timer of 0 s or less, or of more than 2147483 s (about 24.8 days), ends the poll after 1 ms |
| Membership.FirstMatch | server/src/sockets/roomHandlers.js:13-15 | the first index whose user matches, or none exactly when no user matches |
| Membership.FindByIdentity | server/src/sockets/roomHandlers.js:13-15 | the first user with this name and role, or none exactly when no user has both |
| Membership.FindBySocket | server/src/sockets/pollHandlers.js:28-30 | the first user holding this socket id, or none exactly when no user holds it |
| Membership.FindById | server/src/sockets/roomHandlers.js:61 | the user with this id (the first, should there be several), or none exactly when no user has it |
| Membership.JoinSpec | server/src/sockets/roomHandlers.js:13-27 | a new (name, role) appends exactly one user with that socket id; a known one changes only that user's socket id; afterwards the pair holds the joining socket |
| Membership.JoinKeepsUnique | server/src/sockets/roomHandlers.js:13-27 | join keeps ids and (name, role) pairs unique |
| Membership.JoinKeepsWellFormed | server/src/sockets/roomHandlers.js:13-27 | join keeps the user-table invariant, the id bound moving past a created user |
| Membership.Remove | server/src/sockets/roomHandlers.js:66 | the delete never grows the table |
| Membership.RemoveMembers | server/src/sockets/roomHandlers.js:66-69 | after the delete a user is present exactly when it was present and has another id |
| Membership.RemoveOne | server/src/sockets/roomHandlers.js:61-66 | deleting an existing id removes exactly one user |
| Membership.RemoveNone | server/src/sockets/roomHandlers.js:61-66 | deleting an absent id changes nothing |
| Membership.RemoveKeepsUnique | server/src/sockets/roomHandlers.js:66 | the delete keeps ids and (name, role) pairs unique |
| Membership.RemoveKeepsWellFormed | server/src/sockets/roomHandlers.js:66 | the delete keeps the user-table invariant |
| Membership.Teachers | server/src/sockets/pollHandlers.js:44-46 | the teacher query returns at most all users |
| Membership.TeachersMembers | server/src/sockets/pollHandlers.js:44-46 | the teacher query returns exactly the users whose role is TEACHER |
| Session.MarkEnded | server/src/services/pollService.js:25-28 | rows with the poll's id become ENDED; every other field and row is unchanged |
| Session.Cleared | server/src/services/pollService.js:30 | clearTimeout removes exactly the handle in the slot, if any, and leaves every other timer with its due time |
| Session.VotesOf | server/src/sockets/roomHandlers.js:32 | the votes included with a poll are exactly the recorded votes carrying its id, never more than all votes |
| Session.FirstActive | server/src/sockets/roomHandlers.js:30-33 | the first ACTIVE row, or none exactly when no row is ACTIVE |
| Session.JoinResyncSpec | server/src/sockets/roomHandlers.js:30-46 | a joiner gets at most one event, and one exactly when an ACTIVE poll exists with positive raw remaining time; it goes to the joiner with the poll, its options, its votes and that time |
| Session.JoinResyncNeedsActivePoll | server/src/sockets/roomHandlers.js:35 | with no ACTIVE poll the joiner is sent nothing |
| Session.Notify | server/src/sockets/pollHandlers.js:48-52 | at most one notification per teacher |
| Session.NotifyMembers | server/src/sockets/pollHandlers.js:48-52 | every notification carries the results and goes to the truthy socket id of one of the teachers, and each such socket gets one |
| Session.NotifyTeachers | server/src/sockets/pollHandlers.js:48-52 | the emitting loop produces exactly the notifications of `Notify`, in teacher order |
| Session.ResultsOnlyToTeachers | server/src/sockets/pollHandlers.js:43-52 | results reach a socket exactly when a teacher holds that non-empty socket id; a socket held only by students gets nothing |
| Session.NewOptions | server/src/services/pollService.js:10-12 | one option row per input text |
| Session.NewOptionsSpec | server/src/services/pollService.js:10-12 | the inserted rows belong to the new poll, have strictly increasing ids all in (poll id, poll id + number of texts], and read back exactly the texts in order |
| Session.AddPollKeepsTables | server/src/services/pollService.js:4-15 | inserting the poll and its options keeps ids unique and bounded, and the poll's options are exactly the inserted rows |
| Session.MarkEndedKeepsTables | server/src/services/pollService.js:25-28 | ending a poll keeps the tables well formed |
| Session.OptionsOfNewPoll | server/src/services/pollService.js:10-12 | under a fresh poll id, the options found for the poll are exactly those just inserted |
| Session.Session.constructor | server/src/services/pollService.js:1 | empty tables, both slots empty, no timers, no events |
| Session.Session.CreatePoll | server/src/services/pollService.js:3-19 | an ACTIVE row with the question, timer and start time; one option per text in order; the poll becomes `activePoll.current`; no other state changes |
| Session.Session.EndPoll | server/src/services/pollService.js:21-34 | with no current poll nothing changes; otherwise that poll becomes ENDED, the timer in the slot is cleared, `poll_ended` is emitted once and the slot is emptied; a second call is therefore a no-op |
| Session.Session.FireTimeout | server/src/sockets/pollHandlers.js:20-22 | a cleared, fired or not-yet-due timer does nothing; a due one is consumed and ends whatever poll is current; under the fenced discipline no poll ends before its own deadline |
| Session.Session.OnCreatePoll | server/src/sockets/pollHandlers.js:7-23 | the new poll is current and appended; `new_poll` with poll, options and timer goes to the global room; a new timer due at `now + delay` goes into the slot, and the previous timer stays scheduled |
| Session.Session.OnSubmitVote | server/src/sockets/pollHandlers.js:26-53 | an unknown socket or a repeat voter changes nothing and emits nothing; otherwise exactly one vote is recorded and the results go to each teacher's socket; no user row ever holds two votes carrying the same `pollId`. The option is not checked against the poll, so this is not one counted vote per voter in a tally (see Findings) |
| Session.Session.OnSubmitVoteChecked | server/src/sockets/pollHandlers.js:26-53 | corrected submit_vote: also refuses a vote whose option is not one of the named poll's options; otherwise as submit_vote; keeps every recorded vote naming an option of its own poll |
| Session.CheckedVotesHaveDistinctVoters | server/src/services/voteService.js:15-24 | under the corrected handler, every two votes a poll's tally counts come from two different users |
| Session.Session.OnSyncState | server/src/sockets/pollHandlers.js:56-68 | with no current poll nothing is sent; otherwise the current poll goes to the asking socket with the clamped remaining time |
| Session.Session.OnJoinRoom | server/src/sockets/roomHandlers.js:7-56 | the user table becomes `Join(...)`, the id counter advances only for a new user, the joiner may be resynchronised, and the whole user table goes to the room |
| Session.Session.OnKickStudent | server/src/sockets/roomHandlers.js:59-74 | an unknown id or a user without a socket id changes nothing; otherwise `kicked` goes to that socket, the user is deleted and the remaining table goes to the room; no role is checked |
| Session.Session.OnCreatePollFenced | server/src/sockets/pollHandlers.js:7-23 | corrected create_poll: the previous poll is ended and its timer cleared first, so afterwards exactly one timer is scheduled, for the new poll's own deadline; the id counter moves past the new rows |
| Session.FencedAtMostOneActive | server/src/sockets/pollHandlers.js:7-23 | under the fenced discipline no two poll rows are ACTIVE |
| Scenarios.StaleTimerEndsNewerPoll | server/src/sockets/pollHandlers.js:20-22 | two create_poll events 10 s apart, then the first timer fires at 30 s: the second poll is ended 40 s early, and the first row stays ACTIVE |
| Scenarios.FencedTimerCannotEndNewerPoll | server/src/sockets/pollHandlers.js:20-22 | with the corrected handler, the first poll's timer can no longer end the second poll |
| Scenarios.ReconnectCannotVoteTwice | server/src/sockets/pollHandlers.js:28-38 | with a poll of two options in the tables, a student who votes, rejoins from another socket and votes again has exactly one vote recorded, the first |
| Session.FirstActivePrefix | server/src/sockets/roomHandlers.js:30-33 | once a table holds an ACTIVE row, rows appended later do not change which row join_room's lookup finds |
| Session.StaleActiveRowHidesLaterPolls | server/src/sockets/roomHandlers.js:30-46 | an ACTIVE row whose time is up hides every later poll from joiners: they are sent nothing |
| Scenarios.StaleRowMisleadsJoiners | server/src/sockets/roomHandlers.js:30-46 | in the stale-timer run, a joiner at 20 s is resynchronised to the first poll rather than the current one; after the first timer has ended the second poll, a joiner 5 s into a third poll is sent nothing |
| Scenarios.ForeignPollIdVoteCountsTwice | server/src/sockets/pollHandlers.js:26-41 | with two polls of one option each in the tables, a student's vote for the first poll's option, sent again under the second poll's id, is recorded twice, and the first poll's tally shows two votes, 100 %, from one voter |
| Scenarios.ForeignPollIdVoteRefused | server/src/sockets/pollHandlers.js:26-41 | the same two polls and submissions under the corrected handler: only the first vote is recorded |
| Scenarios.KickedStudentVotesAgain | server/src/sockets/roomHandlers.js:59-69 | with a poll of two options in the tables, a student who votes, is kicked and joins again under the same name and role comes back with a new id, and their second vote on the same poll is accepted |
| Scenarios.JoinRebind | server/src/sockets/roomHandlers.js:21-27 | rejoining from another socket keeps the user's row and changes only its socket id |
| PollSlice.PollStore.constructor | client/store/pollSlice.js:3-9 | no poll, WAITING, timer 0, no results, nothing submitted |
| PollSlice.PollStore.SetActivePoll | client/store/pollSlice.js:15-21 | poll and timer from the payload, VOTING, results cleared, submission reset |
| PollSlice.PollStore.SetTimer | client/store/pollSlice.js:23-25 | only the timer changes |
| PollSlice.PollStore.UpdateResults | client/store/pollSlice.js:27-30 | results replaced and RESULTS shown; poll, timer and submission unchanged |
| PollSlice.PollStore.MarkSubmitted | client/store/pollSlice.js:32-35 | submitted and RESULTS shown; nothing else changes |
| PollSlice.PollStore.EndPoll | client/store/pollSlice.js:37-43 | exactly the initial state |
| PollSlice.InitialCoherent | client/store/pollSlice.js:3-9 | the initial state satisfies the store invariant |
| PollSlice.ReduceKeepsCoherent | client/store/pollSlice.js:15-43 | every reducer keeps the invariant: WAITING has no poll, results or submission; VOTING has a poll and no results or submission; submitted implies RESULTS |
| PollSlice.RunKeepsCoherent | client/store/pollSlice.js:15-43 | every action sequence keeps the invariant and never reaches KICKED |
| PollSlice.NeverKicked | client/store/pollSlice.js:5 | from the initial state the view is always WAITING, VOTING or RESULTS |
| PollSlice.EndPollResets | client/store/pollSlice.js:37-43 | endPoll yields the initial state from any state |
| PollSlice.EndPollIdempotent | client/store/pollSlice.js:37-43 | endPoll twice equals endPoll once |
| PollSlice.EndPollForgetsHistory | client/store/pollSlice.js:37-43 | everything dispatched before an endPoll has no effect on the later state |
| PollSlice.RunAppend | client/store/pollSlice.js:15-43 | dispatching one action sequence and then another gives the state of dispatching their concatenation |
| UserSlice.UserStore.constructor | client/store/userSlice.js:5-9 | empty name, empty role, not joined |
| UserSlice.UserStore.SetUser | client/store/userSlice.js:11-15 | name and role from the payload, and joined |
| UserSlice.UserStore.ResetUser | client/store/userSlice.js:16-20 | exactly the initial state, from any state |
| UserSlice.LastActionDecides | client/store/userSlice.js:11-20 | after at least one action the state depends only on the last action |
| UserSlice.JoinedIffLastSetUser | client/store/userSlice.js:11-20 | from the initial state, joined holds exactly when the last action was setUser, with that action's name and role; otherwise the state is initial |
| UserSlice.SetUserIdempotent | client/store/userSlice.js:11-15 | setUser twice with one payload equals setUser once |
| UserSlice.LastSetUserWins | client/store/userSlice.js:11-15 | of two setUser actions the second wins |
| UserSlice.RunAppend | client/store/userSlice.js:11-20 | dispatching one action sequence and then another gives the state of dispatching their concatenation |
| TeacherForm.TrimStart | client/components/TeacherView.jsx:56 | trimming the front never lengthens the text |
| TeacherForm.TrimStartSpec | client/components/TeacherView.jsx:56 | what is removed is a run of whitespace at the front, what is kept is a suffix not starting with whitespace |
| TeacherForm.TrimEnd | client/components/TeacherView.jsx:56 | trimming the back never lengthens the text |
| TeacherForm.TrimEndSpec | client/components/TeacherView.jsx:56 | what is removed is a run of whitespace at the back, what is kept is a prefix not ending with whitespace |
| TeacherForm.Trim | client/components/TeacherView.jsx:56 | trimming never lengthens the text |
| TeacherForm.TrimIdempotent | client/components/TeacherView.jsx:56 | trimming twice is trimming once |
| TeacherForm.TrimEmptyIffBlank | client/components/TeacherView.jsx:56 | an option trims to "" exactly when all its characters are whitespace |
| TeacherForm.TrimIsInnerPiece | client/components/TeacherView.jsx:56 | the trimmed text is a contiguous piece that starts and ends with non-whitespace |
| TeacherForm.ValidOptions | client/components/TeacherView.jsx:56 | the filter never adds options |
| TeacherForm.ValidOptionsMembers | client/components/TeacherView.jsx:56 | an option survives exactly when its trimmed text is non-empty |
| TeacherForm.ValidOptionsAppend | client/components/TeacherView.jsx:56 | the filter keeps the original order: it distributes over concatenation |
| TeacherForm.ValidOptionsSingle | client/components/TeacherView.jsx:56 | a single option survives exactly when its trimmed text is non-empty |
| TeacherForm.IsValidIffNonBlank | client/components/TeacherView.jsx:56 | an option passes the filter exactly when its text has a character that is not whitespace |
| TeacherForm.SubmittedTextsMembers | client/components/TeacherView.jsx:56-61 | a text is in the payload exactly when some option of the form carries it and trims to something non-empty |
| TeacherForm.SubmittedTextsAppend | client/components/TeacherView.jsx:56-61 | the payload keeps the form's order: filtering then mapping distributes over concatenation |
| TeacherForm.BlankQuestionSubmittable | client/components/TeacherView.jsx:57 | the question is not trimmed: a question of spaces passes the check |
| TeacherForm.SubmittableIffTwoValid | client/components/TeacherView.jsx:56-57 | the form is submitted exactly when the question is non-empty and two different options are valid |
| TeacherForm.Form.constructor | client/components/TeacherView.jsx:7-15 | empty question, two empty not-correct options, timer 60, no poll active, no results |
| TeacherForm.Form.SetQuestion | client/components/TeacherView.jsx:110 | only the question changes |
| TeacherForm.Form.SetTimer | client/components/TeacherView.jsx:94 | only the timer changes |
| TeacherForm.Form.AddOption | client/components/TeacherView.jsx:37-39 | one empty not-correct option appended; the length grows by one; existing options unchanged |
| TeacherForm.Form.OptionTextChange | client/components/TeacherView.jsx:41-45 | only option i's text changes; length and all other options unchanged |
| TeacherForm.Form.CorrectSelect | client/components/TeacherView.jsx:47-53 | only option i's flag changes; other flags are kept, so several may be correct |
| TeacherForm.Form.CreatePoll | client/components/TeacherView.jsx:55-68 | emits exactly when the question is non-empty and at least two options are valid; then the payload carries the valid texts in order, the poll counts as active and the results are cleared; otherwise nothing changes |
| TeacherForm.Form.OnUpdateResults | client/components/TeacherView.jsx:22-24 | only the live results change |
| TeacherForm.Form.OnPollEnded | client/components/TeacherView.jsx:26-28 | only the active flag changes, to false |
| TeacherForm.BlankThirdOptionFiltered | client/components/TeacherView.jsx:56 | two filled options and a blank one filter to the two filled ones |
| TeacherForm.BlankOptionIsDropped | client/components/TeacherView.jsx:7-68 | a form whose added third option is blank submits the two filled texts in order, with the default timer |

## Left out

- Database access is replaced by in-memory sequences. Prisma's errors and the `try`/`catch` blocks that log them are not modelled.
- `findFirst` and `findMany` without an ordering are taken to return rows in insertion order.
- Concurrency is not modelled. Handlers run as atomic steps, so the race between `hasVoted` and `submitVote` is out of scope.
- Transport is reduced to events appended to a log: `socket.join`, the `disconnect(true)` of a kicked socket, and room membership. `update_members` carries the whole user table, as the unfiltered `findMany()` does.
- `server/src/index.js` is not part of this model. It does not export `activePoll`, `activeTimeout` or `GLOBAL_ROOM`, and it does not pass `prisma` to the poll handlers. The model supplies the presumably intended shared slots.
- The chat handlers, `roomService.js`, the client persistence setup and all rendering are not part of this model.
- Disconnects are not modelled. `server/src/index.js:45-47` registers a disconnect handler that only logs. It changes no table, so a disconnected user keeps their row and socket id until they join again.
- The invariant that every vote names an option of its own poll is carried through a handler's contract only by `OnSubmitVoteChecked`. For create_poll it is the lemma `VotesMatchGrow`; the other handlers change neither options nor votes, and `OnSubmitVote` does not keep it.
- Floating-point percentages and the display rounding are replaced by exact reals.
- Timers are integers. A fractional or non-numeric timer, and JavaScript string-to-number coercion of payload fields, are not modelled.
- Every `vote.create` is assumed to succeed. The database schema is not part of this model, so a foreign key that would reject a vote naming a missing poll or option is not modelled. The vote scenarios therefore only vote on polls and options that exist in the tables.
- Session.Session.OnKickStudent: the delete is assumed to succeed. The database schema is not part of this model. If the schema restricts deleting a user who has votes, the delete fails after `kicked` has been sent, the row stays, and a rejoin finds it again. Scenarios.KickedStudentVotesAgain holds only when the delete succeeds.
- Session.Session.OnKickStudent: the student id is a natural number. A payload id of another type, which Prisma would reject with an error, is not modelled.
- TeacherForm.Form.OptionTextChange: requires an index within the options. Out of range, the source throws a TypeError, which is not modelled.
- TeacherForm.Form.CorrectSelect: requires an index within the options, as for the text change.
- TeacherForm.Form.CreatePoll: the `alert` shown on a rejected form is not modelled.
- TeacherForm.Form: the source copies the options array shallowly and mutates the shared option object in place. The model's options are values, so that aliasing is not captured.
- The form's chat-visibility flag is not modelled.

## Findings

| source | as written | input that shows it | evidently intended | confidence | as-written member | corrected member |
|---|---|---|---|---|---|---|
| server/src/sockets/pollHandlers.js:7-23 | create_poll neither ends the current poll nor clears the pending timeout before it overwrites `activeTimeout.current`. The old timer still fires, and `endPoll` ends whichever poll is current at that moment. | A 30 s poll is created at 0 ms and a 60 s poll at 10000 ms. At 30000 ms the first timer ends the second poll, 40 s before its deadline. The first poll's row stays ACTIVE for good. Between 10 s and 30 s, join_room resynchronises joiners to the first poll, not the current one. After the stale timer has fired, the stale row hides every later poll, so a joiner 5 s into a third poll is sent nothing (Scenarios.StaleRowMisleadsJoiners). | Creating a poll ends the current one and clears its timer, so a timer only ever ends the poll it was scheduled for and at most one poll is ACTIVE. | high; not executed | Scenarios.StaleTimerEndsNewerPoll | Session.Session.OnCreatePollFenced |
| server/src/sockets/pollHandlers.js:26-41 | submit_vote takes both `pollId` and `optionId` from the payload and never checks that the option belongs to the poll. The one-vote check is keyed by `pollId`, while the tally counts a vote under whichever poll owns its option. | Polls 0 and 2 exist, with options 1 and 3. A student votes for option 1 under poll id 0, then sends option 1 again under poll 2's id. Both votes are accepted, and poll 0's tally shows 2 votes for option 1, 100 %, from one voter. | A vote names an option of the poll it is filed under, so each voter has at most one counted vote in a poll's results. | high; not executed | Scenarios.ForeignPollIdVoteCountsTwice | Session.Session.OnSubmitVoteChecked |
