/**
 * Concrete runs of the session handlers: what the handlers' contracts let a
 * caller conclude about a short sequence of socket events.
 */
module Scenarios {
  import opened Wrappers
  import opened Schema
  import opened VoteService
  import opened PollTiming
  import opened Membership
  import opened Session

  /**
   * Two create_poll events in a row, then the FIRST poll's timer runs out:
   * endPoll ends the SECOND poll, 40 s before its own deadline, while the
   * first poll's row is still ACTIVE.
   */
  method StaleTimerEndsNewerPoll() returns (endedEarly: bool, firstStillActive: bool)
    ensures endedEarly && firstStillActive
  {
    var s := new Session();
    s.OnCreatePoll("Q1", ["Red", "Blue"], 30, 0);
    s.OnCreatePoll("Q2", ["Yes", "No"], 60, 10000);
    assert s.pending == map[0 := 30000, 1 := 70000];
    var second := s.current.value.row;
    s.FireTimeout(0, 30000);
    endedEarly := s.current.None? && |s.polls| == 2 && s.polls[1].id == second.id && s.polls[1].status == Ended &&
                  30000 < second.startedAt + TimeoutDelay(second.timer);
    firstStillActive := s.polls[0].status == Active;
  }

  /**
   * The same two polls under the corrected create_poll: the first poll is
   * ended when the second is created, and its timer can no longer fire.
   */
  method FencedTimerCannotEndNewerPoll() returns (secondStillCurrent: bool, oneActive: bool)
    ensures secondStillCurrent && oneActive
  {
    var s := new Session();
    TwoFencedPollsCreated(s);
    var second := s.current.value.row;
    s.FireTimeout(0, 30000);
    secondStillCurrent := s.current.Some? && s.current.value.row == second;
    oneActive := |s.polls| == 2 && s.polls[0].status == Ended && s.polls[1].status == Active;
  }

  /** From an empty session: the same two polls, created by the corrected handler. */
  method TwoFencedPollsCreated(s: Session)
    requires s.Valid() && s.Fenced() && s.polls == [] && s.current == None && s.nextId == 0 && s.nextHandle == 0
    modifies s
    ensures s.Valid() && s.Fenced()
    ensures s.polls == [PollRow(0, "Q1", 30, Ended, 0), PollRow(3, "Q2", 60, Active, 10000)]
    ensures s.current.Some? && s.current.value.row == s.polls[1]
    ensures s.pending == map[1 := 70000]
  {
    s.OnCreatePollFenced("Q1", ["Red", "Blue"], 30, 0);
    var first := PollRow(0, "Q1", 30, Active, 0);
    assert s.polls == [first];
    s.OnCreatePollFenced("Q2", ["Yes", "No"], 60, 10000);
    assert MarkEnded([first], 0) == [first.(status := Ended)];
    assert s.current.value.row == PollRow(3, "Q2", 60, Active, 10000);
    assert s.polls == MarkEnded([first], 0) + [s.current.value.row];
  }

  /**
   * A poll with two options exists; a student votes, reconnects from
   * another socket under the same name and role, and votes again on the
   * same poll: the second vote is refused, whatever the names, the sockets
   * and the texts are.
   */
  method ReconnectCannotVoteTwice(question: string, textA: string, textB: string, timer: int,
                                  name: string, first: string, second: string)
    returns (options: seq<PollOption>, recorded: seq<Vote>)
    ensures options == [PollOption(1, 0, textA), PollOption(2, 0, textB)]
    ensures recorded == [Vote(0, 3, 1)]
  {
    var s := new Session();
    PollOfTwo(s, question, textA, textB, timer);
    var u := User(3, name, Student, Some(first));
    JoinSingle(name, Student, first, 3);
    s.OnJoinRoom(first, name, Student, "room", 1000);
    FoundAlone(u, first);
    s.OnSubmitVote(first, 0, 1);
    JoinRebind(u, second, s.nextId);
    s.OnJoinRoom(second, name, Student, "room", 2000);
    FoundAlone(u.(socketId := Some(second)), second);
    assert s.ledger.votes[0] == Vote(0, 3, 1);
    s.OnSubmitVote(second, 0, 2);
    options := s.options;
    recorded := s.ledger.votes;
  }

  /** From an empty session: poll 0 is created with two options, ids 1 and 2. */
  method PollOfTwo(s: Session, question: string, textA: string, textB: string, timer: int)
    requires s.Valid() && s.users == [] && s.polls == [] && s.options == [] && s.ledger.votes == [] && s.nextId == 0
    modifies s
    ensures s.Valid() && s.users == [] && s.nextId == 3
    ensures s.polls == [PollRow(0, question, timer, Active, 0)]
    ensures s.options == [PollOption(1, 0, textA), PollOption(2, 0, textB)]
  {
    s.OnCreatePoll(question, [textA, textB], timer, 0);
    assert s.options == NewOptions(0, [textA, textB]);
  }

  /**
   * As written, submit_vote takes the poll id from the payload without
   * checking that the option belongs to it. With two polls of one option
   * each, a student votes for poll 0's option, then sends the same option
   * under poll 2's id: both votes are recorded, and poll 0's tally counts
   * two votes from one voter.
   */
  method ForeignPollIdVoteCountsTwice(first: string, second: string, text: string, otherText: string, timer: int,
                                      name: string, socketId: string)
    returns (polls: seq<PollRow>, recorded: seq<Vote>, tally: seq<ResultRow>)
    ensures polls == [PollRow(0, first, timer, Active, 0), PollRow(2, second, timer, Active, 1000)]
    ensures recorded == [Vote(0, 4, 1), Vote(2, 4, 1)]
    ensures tally == [ResultRow(1, 2, 100.0)]
  {
    var s := new Session();
    TwoPollsOneStudent(s, first, second, text, otherText, timer, name, socketId);
    SameOptionTwoPollIds(s, socketId, 4, 2);
    polls := s.polls;
    recorded := s.ledger.votes;
    OneOptionEach(text, otherText);
    ForeignPollIdCountedTwice(s.options, PollOption(1, 0, text), 2, 4);
    tally := CalculateResults(s.options, recorded, 0);
  }

  /** The student sends option 1 under poll id 0, then under another poll id; as written both are recorded. */
  method SameOptionTwoPollIds(s: Session, socketId: string, userId: nat, otherPollId: nat)
    requires s.Valid() && FindBySocket(s.users, socketId) == Some(0) && s.users[0].id == userId && s.ledger.votes == []
    requires otherPollId != 0
    modifies s, s.ledger
    ensures s.Valid() && s.polls == old(s.polls) && s.options == old(s.options)
    ensures s.ledger.votes == [Vote(0, userId, 1), Vote(otherPollId, userId, 1)]
  {
    s.OnSubmitVote(socketId, 0, 1);
    assert s.ledger.votes == [Vote(0, userId, 1)];
    assert !Voted(s.ledger.votes, otherPollId, userId);
    s.OnSubmitVote(socketId, otherPollId, 1);
    assert s.ledger.votes == [Vote(0, userId, 1)] + [Vote(otherPollId, userId, 1)];
  }

  /**
   * The same two submissions under the corrected submit_vote: the second
   * names an option that is not one of poll 2's, and is refused.
   */
  method ForeignPollIdVoteRefused(first: string, second: string, text: string, otherText: string, timer: int,
                                  name: string, socketId: string)
    returns (recorded: seq<Vote>)
    ensures recorded == [Vote(0, 4, 1)]
  {
    var s := new Session();
    TwoPollsOneStudent(s, first, second, text, otherText, timer, name, socketId);
    OneOptionEach(text, otherText);
    s.OnSubmitVoteChecked(socketId, 0, 1);
    assert s.ledger.votes == [Vote(0, 4, 1)];
    s.OnSubmitVoteChecked(socketId, 2, 1);
    recorded := s.ledger.votes;
  }

  /**
   * From an empty session: poll 0 with one option (id 1) at 0 s, poll 2
   * with one option (id 3) at 1 s, then one student joins, as user 4.
   */
  method TwoPollsOneStudent(s: Session, first: string, second: string, text: string, otherText: string, timer: int,
                            name: string, socketId: string)
    requires s.Valid() && s.users == [] && s.polls == [] && s.options == [] && s.ledger.votes == [] && s.nextId == 0
    modifies s, s.ledger
    ensures s.Valid()
    ensures s.polls == [PollRow(0, first, timer, Active, 0), PollRow(2, second, timer, Active, 1000)]
    ensures s.options == [PollOption(1, 0, text), PollOption(3, 2, otherText)]
    ensures s.ledger.votes == [] && VotesMatchOptions(s.ledger.votes, s.options)
    ensures FindBySocket(s.users, socketId) == Some(0) && s.users[0].id == 4
  {
    TwoPollsOfOne(s, first, second, text, otherText, timer);
    JoinSingle(name, Student, socketId, 4);
    s.OnJoinRoom(socketId, name, Student, "room", 2000);
    FoundAlone(User(4, name, Student, Some(socketId)), socketId);
  }

  /** From an empty session: poll 0 with one option at 0 s, then poll 2 with one option at 1 s. */
  method TwoPollsOfOne(s: Session, first: string, second: string, text: string, otherText: string, timer: int)
    requires s.Valid() && s.users == [] && s.polls == [] && s.options == [] && s.nextId == 0
    modifies s
    ensures s.Valid() && s.users == [] && s.nextId == 4
    ensures s.polls == [PollRow(0, first, timer, Active, 0), PollRow(2, second, timer, Active, 1000)]
    ensures s.options == [PollOption(1, 0, text), PollOption(3, 2, otherText)]
  {
    PollOfOne(s, first, text, timer);
    assert NewOptions(2, [otherText]) == [PollOption(3, 2, otherText)];
    s.OnCreatePoll(second, [otherText], timer, 1000);
    assert s.polls == [PollRow(0, first, timer, Active, 0)] + [PollRow(2, second, timer, Active, 1000)];
    assert s.options == [PollOption(1, 0, text)] + [PollOption(3, 2, otherText)];
  }

  /** From an empty session: poll 0 is created with one option, id 1. */
  method PollOfOne(s: Session, question: string, text: string, timer: int)
    requires s.Valid() && s.users == [] && s.polls == [] && s.options == [] && s.nextId == 0
    modifies s
    ensures s.Valid() && s.users == [] && s.nextId == 2
    ensures s.polls == [PollRow(0, question, timer, Active, 0)]
    ensures s.options == [PollOption(1, 0, text)]
  {
    s.OnCreatePoll(question, [text], timer, 0);
    assert s.options == NewOptions(0, [text]);
  }

  /**
   * A poll with two options exists; a student votes, is kicked, and joins
   * again under the same name and role: the delete removed their row, so
   * they come back as a new user with a new id, and their second vote on
   * the same poll is accepted.
   */
  method KickedStudentVotesAgain(question: string, textA: string, textB: string, timer: int,
                                 name: string, first: string, second: string)
    returns (options: seq<PollOption>, recorded: seq<Vote>)
    requires first != ""
    ensures options == [PollOption(1, 0, textA), PollOption(2, 0, textB)]
    ensures recorded == [Vote(0, 3, 1), Vote(0, 4, 2)]
  {
    var s := new Session();
    PollOfTwo(s, question, textA, textB, timer);
    VoteThenKicked(s, 0, name, first, 1);
    JoinSingle(name, Student, second, 4);
    s.OnJoinRoom(second, name, Student, "room", 2000);
    FoundAlone(User(4, name, Student, Some(second)), second);
    assert !Voted(s.ledger.votes, 0, 4);
    s.OnSubmitVote(second, 0, 2);
    options := s.options;
    recorded := s.ledger.votes;
  }

  /** From a session with no users and no votes: a student joins under the next id, votes and is kicked. */
  method VoteThenKicked(s: Session, pollId: nat, name: string, first: string, optionA: nat)
    requires s.Valid() && s.users == [] && s.ledger.votes == [] && first != ""
    modifies s, s.ledger
    ensures s.Valid() && s.options == old(s.options)
    ensures s.users == [] && s.nextId == old(s.nextId) + 1 && s.ledger.votes == [Vote(pollId, old(s.nextId), optionA)]
  {
    var u := User(s.nextId, name, Student, Some(first));
    JoinSingle(name, Student, first, s.nextId);
    s.OnJoinRoom(first, name, Student, "room", 1000);
    assert s.users == [u];
    FoundAlone(u, first);
    s.OnSubmitVote(first, pollId, optionA);
    assert s.ledger.votes == [Vote(pollId, u.id, optionA)];
    KickOnly(u);
    s.OnKickStudent(u.id, "room");
  }

  /**
   * The stale-timer run, seen by joiners: while both polls are ACTIVE a
   * joiner is resynchronised to the first poll, not the current one; after
   * the first poll's timer has ended the second poll, the first row stays
   * ACTIVE, and a joiner 5 s into a third poll is sent nothing at all.
   */
  method StaleRowMisleadsJoiners() returns (midJoinerSentFirst: bool, lateJoinerSentNothing: bool)
    ensures midJoinerSentFirst && lateJoinerSentNothing
  {
    var s := new Session();
    TwoPollsCreated(s);
    var first := s.polls[0];
    var mid := JoinResync(s.polls, s.options, s.ledger.votes, "mid", 20000);
    assert FirstActive(s.polls) == Some(0);
    midJoinerSentFirst := |mid| == 1 && mid[0].message.SyncPollState? && mid[0].message.poll.row == first &&
                          s.current.value.row != first;
    StaleTimerThenThirdPoll(s);
    assert FirstActive([first]) == Some(0);
    StaleActiveRowHidesLaterPolls([first], s.polls[1..], s.options, s.ledger.votes, "late", 105000);
    assert [first] + s.polls[1..] == s.polls;
    lateJoinerSentNothing := s.current.Some? && JoinResync(s.polls, s.options, s.ledger.votes, "late", 105000) == [];
  }

  /** The first poll's timer fires at 30 s, then a third poll is created at 100 s; the first row is left as it was. */
  method StaleTimerThenThirdPoll(s: Session)
    requires s.Valid() && |s.polls| == 2 && s.current.Some? && s.polls[0].id != s.current.value.row.id
    modifies s
    ensures s.Valid() && s.current.Some? && |s.polls| >= 1 && s.polls[0] == old(s.polls[0])
  {
    s.FireTimeout(0, 30000);
    s.OnCreatePoll("Q3", ["Up", "Down"], 60, 100000);
  }

  /** From an empty session: a 30 s poll created at 0 s, then a 60 s poll at 10 s, as written. */
  method TwoPollsCreated(s: Session)
    requires s.Valid() && s.polls == [] && s.options == [] && s.current == None && s.nextId == 0
    requires s.pending == map[] && s.nextHandle == 0
    modifies s
    ensures s.Valid()
    ensures s.polls == [PollRow(0, "Q1", 30, Active, 0), PollRow(3, "Q2", 60, Active, 10000)]
    ensures s.current.Some? && s.current.value.row == s.polls[1]
    ensures s.pending == map[0 := 30000, 1 := 70000] && s.timeoutSlot == Some(1)
  {
    s.OnCreatePoll("Q1", ["Red", "Blue"], 30, 0);
    s.OnCreatePoll("Q2", ["Yes", "No"], 60, 10000);
  }

  /** The first user to join an empty table is created under the fresh id. */
  lemma JoinSingle(name: string, role: Role, socketId: string, freshId: nat)
    ensures Join([], name, role, socketId, freshId) == [User(freshId, name, role, Some(socketId))]
  {
  }

  /** A user who joins again from another socket keeps their row and only the socket id changes. */
  lemma JoinRebind(u: User, socketId: string, freshId: nat)
    ensures Join([u], u.name, u.role, socketId, freshId) == [u.(socketId := Some(socketId))]
  {
    assert FindByIdentity([u], u.name, u.role) == Some(0);
  }

  lemma FoundAlone(u: User, socketId: string)
    requires u.socketId == Some(socketId)
    ensures FindBySocket([u], socketId) == Some(0)
  {
  }

  /** Kicking the only user leaves the table empty. */
  lemma KickOnly(u: User)
    ensures FindById([u], u.id) == Some(0) && Remove([u], u.id) == []
  {
  }

  /**
   * The option table of two one-option polls: option 1 is poll 0's and not
   * poll 2's, and poll 0's options are just option 1.
   */
  lemma OneOptionEach(text: string, otherText: string)
    ensures var options := [PollOption(1, 0, text), PollOption(3, 2, otherText)];
      OptionInPoll(options, 1, 0) && !OptionInPoll(options, 1, 2) && OptionsOf(options, 0) == [PollOption(1, 0, text)]
  {
    var options := [PollOption(1, 0, text), PollOption(3, 2, otherText)];
    assert options[0] == PollOption(1, 0, text);
    assert options[..1] == [options[0]] && options[..1][..0] == [];
  }
}
