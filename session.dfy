/**
 * The server's shared state and its socket handlers: the user, poll, option
 * and vote tables, the `activePoll.current` and `activeTimeout.current`
 * slots, the timers still scheduled, and the log of emitted events. Each
 * handler runs as one atomic step.
 */
module Session {
  import opened Wrappers
  import opened Schema
  import opened VoteService
  import opened PollTiming
  import opened Membership

  /** `clearTimeout(slot)`: the scheduled timers without the one in the slot. */
  function Cleared(pending: map<nat, int>, slot: Option<nat>): (r: map<nat, int>)
    ensures forall h :: h in r <==> h in pending && slot != Some(h)
    ensures forall h :: h in r ==> r[h] == pending[h]
  {
    if slot.Some? then pending - {slot.value} else pending
  }

  /** `poll.update({ where: { id }, data: { status: "ENDED" } })` */
  function MarkEnded(polls: seq<PollRow>, id: nat): (r: seq<PollRow>)
    ensures |r| == |polls|
    ensures forall i :: 0 <= i < |polls| ==> r[i].id == polls[i].id
    ensures forall i :: 0 <= i < |polls| ==> r[i].status == (if polls[i].id == id then Ended else polls[i].status)
    ensures forall i :: 0 <= i < |polls| ==> r[i] == polls[i].(status := r[i].status)
  {
    seq(|polls|, i requires 0 <= i < |polls| => if polls[i].id == id then polls[i].(status := Ended) else polls[i])
  }

  /** `poll.findFirst({ where: { status: "ACTIVE" } })`: the first ACTIVE row, in table order. */
  function FirstActive(polls: seq<PollRow>): (r: Option<nat>)
    ensures r.None? <==> forall i :: 0 <= i < |polls| ==> polls[i].status != Active
    ensures r.Some? ==> r.value < |polls| && polls[r.value].status == Active
    ensures r.Some? ==> forall j :: 0 <= j < r.value ==> polls[j].status != Active
  {
    if polls == [] then None
    else if polls[0].status == Active then Some(0)
    else
      match FirstActive(polls[1..])
      case None => None
      case Some(k) => Some(k + 1)
  }

  /** The votes a poll row includes: those whose pollId is the poll's id. */
  function VotesOf(votes: seq<Vote>, pollId: nat): (r: seq<Vote>)
    ensures |r| <= |votes|
    ensures forall v :: v in r <==> v in votes && v.pollId == pollId
  {
    if votes == [] then []
    else (if votes[0].pollId == pollId then [votes[0]] else []) + VotesOf(votes[1..], pollId)
  }

  /**
   * What join_room sends the joining socket: the first ACTIVE poll of the
   * table, if its raw remaining time is positive, and nothing otherwise.
   */
  function JoinResync(polls: seq<PollRow>, options: seq<PollOption>, votes: seq<Vote>, socketId: string, now: int): seq<Event>
  {
    match FirstActive(polls)
    case None => []
    case Some(i) =>
      var row := polls[i];
      var remaining := RawRemaining(row.timer, row.startedAt, now);
      if remaining > 0 then
        [Event(ToSocket(socketId), SyncPollState(Poll(row, OptionsOf(options, row.id)), Some(VotesOf(votes, row.id)), remaining))]
      else []
  }

  /**
   * The `forEach` of submit_vote over the teachers: one `update_results`
   * event per teacher whose socket id is truthy, in table order.
   */
  function Notify(ts: seq<User>, results: seq<ResultRow>): (es: seq<Event>)
    ensures |es| <= |ts|
  {
    if ts == [] then []
    else
      var t := ts[|ts| - 1];
      Notify(ts[..|ts| - 1], results) + (if Truthy(t.socketId) then [Event(ToSocket(t.socketId.value), UpdateResults(results))] else [])
  }

  /** Every notification carries the results, and goes to the truthy socket id of one of the teachers given. */
  lemma {:induction false} NotifyMembers(ts: seq<User>, results: seq<ResultRow>, e: Event)
    ensures e in Notify(ts, results) <==>
      e.message == UpdateResults(results) &&
      exists t :: t in ts && Truthy(t.socketId) && e.to == ToSocket(t.socketId.value)
  {
    if ts != [] {
      var init := ts[..|ts| - 1];
      NotifyMembers(init, results, e);
      assert ts == init + [ts[|ts| - 1]];
    }
  }

  /**
   * A joiner is sent at most one event, and one exactly when an ACTIVE poll
   * exists and the first one has a positive raw remaining time; that event
   * goes to the joiner's socket and carries the poll, its options, its votes
   * and the remaining time.
   */
  lemma JoinResyncSpec(polls: seq<PollRow>, options: seq<PollOption>, votes: seq<Vote>, socketId: string, now: int)
    ensures var es := JoinResync(polls, options, votes, socketId, now);
      |es| <= 1 &&
      (es != [] <==>
        FirstActive(polls).Some? &&
        RawRemaining(polls[FirstActive(polls).value].timer, polls[FirstActive(polls).value].startedAt, now) > 0)
    ensures var es := JoinResync(polls, options, votes, socketId, now);
      es != [] ==>
        var row := polls[FirstActive(polls).value];
        es[0].to == ToSocket(socketId) &&
        es[0].message == SyncPollState(Poll(row, OptionsOf(options, row.id)), Some(VotesOf(votes, row.id)), RawRemaining(row.timer, row.startedAt, now))
  {
  }

  /** With no ACTIVE row in the poll table, a joiner is sent nothing. */
  lemma JoinResyncNeedsActivePoll(polls: seq<PollRow>, options: seq<PollOption>, votes: seq<Vote>, socketId: string, now: int)
    requires forall i :: 0 <= i < |polls| ==> polls[i].status != Active
    ensures JoinResync(polls, options, votes, socketId, now) == []
  {
  }

  /** The emitting loop of submit_vote, over the teachers in table order. */
  method NotifyTeachers(teachers: seq<User>, results: seq<ResultRow>) returns (sent: seq<Event>)
    ensures sent == Notify(teachers, results)
  {
    sent := [];
    var i := 0;
    while i < |teachers|
      invariant 0 <= i <= |teachers|
      invariant sent == Notify(teachers[..i], results)
    {
      var t := teachers[i];
      assert teachers[..i + 1][..i] == teachers[..i];
      if Truthy(t.socketId) {
        sent := sent + [Event(ToSocket(t.socketId.value), UpdateResults(results))];
      }
      i := i + 1;
    }
    assert teachers[..i] == teachers;
  }

  /**
   * Results of an accepted vote reach exactly the sockets of the teachers; a
   * socket id held only by students receives nothing.
   */
  lemma ResultsOnlyToTeachers(users: seq<User>, results: seq<ResultRow>, socketId: string)
    ensures Event(ToSocket(socketId), UpdateResults(results)) in Notify(Teachers(users), results) <==>
      exists u :: u in users && u.role == Teacher && u.socketId == Some(socketId) && socketId != ""
  {
    var es := Notify(Teachers(users), results);
    var e := Event(ToSocket(socketId), UpdateResults(results));
    NotifyMembers(Teachers(users), results, e);
    if e in es {
      var t :| t in Teachers(users) && Truthy(t.socketId) && e.to == ToSocket(t.socketId.value);
      TeachersMembers(users, t);
      assert t in users && t.role == Teacher && t.socketId == Some(socketId);
    }
    if exists u :: u in users && u.role == Teacher && u.socketId == Some(socketId) && socketId != "" {
      var u :| u in users && u.role == Teacher && u.socketId == Some(socketId) && socketId != "";
      TeachersMembers(users, u);
      assert u in Teachers(users);
    }
  }

  /** Poll rows and option rows have distinct ids, and every poll and option id is below `bound`. */
  predicate TablesBelow(polls: seq<PollRow>, options: seq<PollOption>, bound: nat) {
    && (forall i :: 0 <= i < |polls| ==> polls[i].id < bound)
    && (forall i, j :: 0 <= i < j < |polls| ==> polls[i].id != polls[j].id)
    && (forall i :: 0 <= i < |options| ==> options[i].id < bound && options[i].pollId < bound)
    && UniqueOptionIds(options)
  }

  /** The option rows createPoll inserts for poll `id`: one per text, in order, ids counting up after the poll's. */
  function NewOptions(id: nat, texts: seq<string>): (made: seq<PollOption>)
    ensures |made| == |texts|
  {
    seq(|texts|, i requires 0 <= i < |texts| => PollOption(id + 1 + i, id, texts[i]))
  }

  /**
   * The inserted rows belong to poll `id`, carry strictly increasing ids
   * that all lie in (id, id + |texts|], and read back the texts in order.
   */
  lemma NewOptionsSpec(id: nat, texts: seq<string>)
    ensures var made := NewOptions(id, texts);
      forall i, j :: 0 <= i < j < |made| ==> made[i].id < made[j].id
    ensures forall o :: o in NewOptions(id, texts) ==> o.pollId == id && id < o.id <= id + |texts|
    ensures var made := NewOptions(id, texts);
      seq(|made|, i requires 0 <= i < |made| => made[i].text) == texts
  {
  }

  /**
   * Inserting a poll under the next unused id, with its options, keeps the
   * tables well formed with the bound moved past the new ids; the poll's
   * options are then exactly the inserted ones.
   */
  lemma AddPollKeepsTables(polls: seq<PollRow>, options: seq<PollOption>, row: PollRow, texts: seq<string>)
    requires TablesBelow(polls, options, row.id)
    ensures TablesBelow(polls + [row], options + NewOptions(row.id, texts), row.id + 1 + |texts|)
    ensures OptionsOf(options + NewOptions(row.id, texts), row.id) == NewOptions(row.id, texts)
  {
    var made := NewOptions(row.id, texts);
    var ps, os := polls + [row], options + made;
    forall i, j | 0 <= i < j < |ps| ensures ps[i].id != ps[j].id {
      assert ps[i] == polls[i];
    }
    forall i | 0 <= i < |os| ensures os[i].id < row.id + 1 + |texts| && os[i].pollId < row.id + 1 + |texts| {
      if i >= |options| {
        assert os[i] == made[i - |options|];
      }
    }
    forall i, j | 0 <= i < j < |os| ensures os[i].id != os[j].id {
      if j >= |options| {
        assert os[j] == made[j - |options|];
        if i >= |options| {
          assert os[i] == made[i - |options|];
        } else {
          assert os[i] == options[i];
        }
      } else {
        assert os[i] == options[i] && os[j] == options[j];
      }
    }
    OptionsOfNewPoll(options, made, row.id);
  }

  lemma TablesBelowGrow(polls: seq<PollRow>, options: seq<PollOption>, bound: nat, bound': nat)
    requires TablesBelow(polls, options, bound) && bound <= bound'
    ensures TablesBelow(polls, options, bound')
  {
  }

  /** Ending a poll keeps the tables well formed. */
  lemma MarkEndedKeepsTables(polls: seq<PollRow>, options: seq<PollOption>, id: nat, bound: nat)
    requires TablesBelow(polls, options, bound)
    ensures TablesBelow(MarkEnded(polls, id), options, bound)
  {
  }

  class Session {
    var users: seq<User>
    var polls: seq<PollRow>
    var options: seq<PollOption>
    const ledger: VoteLedger
    /** The next unused row id of the tables. */
    var nextId: nat
    /** `activePoll.current` */
    var current: Option<Poll>
    /** `activeTimeout.current` */
    var timeoutSlot: Option<nat>
    /** The timers scheduled and neither fired nor cleared: handle to due time. */
    var pending: map<nat, int>
    var nextHandle: nat
    /** Everything emitted so far, in order. */
    var events: seq<Event>

    ghost predicate Valid()
      reads this, ledger
    {
      && WellFormedUsers(users, nextId)
      && TablesBelow(polls, options, nextId)
      && NoDoubleVotes(ledger.votes)
      && (current.Some? ==>
            current.value.row in polls && current.value.row.status == Active &&
            OptionsOf(options, current.value.row.id) == current.value.options)
      && (forall h :: h in pending ==> h < nextHandle)
    }

    constructor ()
      ensures Valid() && Fenced() && fresh(ledger)
      ensures users == [] && polls == [] && options == [] && ledger.votes == [] && nextId == 0
      ensures current == None && timeoutSlot == None && pending == map[] && nextHandle == 0 && events == []
    {
      users, polls, options := [], [], [];
      ledger := new VoteLedger();
      nextId := 0;
      current, timeoutSlot := None, None;
      pending, nextHandle := map[], 0;
      events := [];
    }

    /**
     * pollService.createPoll: stores an ACTIVE poll with one option per
     * string, in order, and makes it `activePoll.current`.
     */
    method CreatePoll(question: string, texts: seq<string>, timer: int, now: int) returns (poll: Poll)
      requires Valid()
      modifies this
      ensures Valid()
      ensures poll == Poll(PollRow(old(nextId), question, timer, Active, now), NewOptions(old(nextId), texts))
      ensures polls == old(polls) + [poll.row] && options == old(options) + poll.options
      ensures current == Some(poll) && nextId == old(nextId) + 1 + |texts|
      ensures users == old(users) && events == old(events)
      ensures timeoutSlot == old(timeoutSlot) && pending == old(pending) && nextHandle == old(nextHandle)
    {
      var id := nextId;
      var row := PollRow(id, question, timer, Active, now);
      var made := NewOptions(id, texts);
      AddPollKeepsTables(polls, options, row, texts);
      WellFormedUsersGrow(users, id, id + 1 + |texts|);
      poll := Poll(row, made);
      polls := polls + [row];
      options := options + made;
      nextId := id + 1 + |texts|;
      current := Some(poll);
      assert polls[|polls| - 1] == row;
    }

    /**
     * pollService.endPoll: with no current poll, nothing happens; otherwise
     * that poll's row becomes ENDED, the timeout in the slot is cleared,
     * `poll_ended` goes to the poll room and the slot is emptied.
     */
    method EndPoll()
      requires Valid()
      modifies this
      ensures Valid()
      ensures current == None
      ensures old(current).None? ==> polls == old(polls) && pending == old(pending) && events == old(events)
      ensures old(current).Some? ==>
        polls == MarkEnded(old(polls), old(current).value.row.id) &&
        pending == Cleared(old(pending), old(timeoutSlot)) &&
        events == old(events) + [Event(GlobalRoom, PollEnded)]
      ensures users == old(users) && options == old(options) && nextId == old(nextId)
      ensures timeoutSlot == old(timeoutSlot) && nextHandle == old(nextHandle)
      ensures old(Fenced()) ==> Fenced()
    {
      if current.None? {
        return;
      }
      var poll := current.value;
      MarkEndedKeepsTables(polls, options, poll.row.id, nextId);
      polls := MarkEnded(polls, poll.row.id);
      pending := Cleared(pending, timeoutSlot);
      events := events + [Event(GlobalRoom, PollEnded)];
      current := None;
    }

    /**
     * The timer `handle` running out at time `now`: a timer that was cleared,
     * already fired or is not yet due does nothing; otherwise it is consumed
     * and calls endPoll, which ends whatever poll is current.
     */
    method FireTimeout(handle: nat, now: int)
      requires Valid()
      modifies this
      ensures Valid()
      ensures !(handle in old(pending) && old(pending)[handle] <= now) ==>
        polls == old(polls) && pending == old(pending) && events == old(events) && current == old(current)
      ensures handle in old(pending) && old(pending)[handle] <= now ==>
        current == None &&
        (old(current).None? ==>
          polls == old(polls) && pending == old(pending) - {handle} && events == old(events)) &&
        (old(current).Some? ==>
          polls == MarkEnded(old(polls), old(current).value.row.id) &&
          pending == Cleared(old(pending) - {handle}, old(timeoutSlot)) &&
          events == old(events) + [Event(GlobalRoom, PollEnded)])
      ensures users == old(users) && options == old(options) && nextId == old(nextId)
      ensures timeoutSlot == old(timeoutSlot) && nextHandle == old(nextHandle)
      ensures old(Fenced()) ==> Fenced()
      // with the fenced create_poll, a poll is never ended before its own deadline
      ensures old(Fenced()) && old(current).Some? && current.None? ==>
        now >= old(current).value.row.startedAt + TimeoutDelay(old(current).value.row.timer)
    {
      if handle in pending && pending[handle] <= now {
        pending := pending - {handle};
        EndPoll();
      }
    }

    /**
     * create_poll as written: creates the poll, broadcasts `new_poll`, and
     * puts a fresh timeout of `timer * 1000` ms into the slot. The timer the
     * slot held before stays scheduled, and a previous poll stays ACTIVE.
     */
    method OnCreatePoll(question: string, texts: seq<string>, timer: int, now: int)
      requires Valid()
      modifies this
      ensures Valid()
      ensures current == Some(Poll(PollRow(old(nextId), question, timer, Active, now), NewOptions(old(nextId), texts)))
      ensures polls == old(polls) + [current.value.row] && options == old(options) + current.value.options
      ensures nextId == old(nextId) + 1 + |texts|
      ensures events == old(events) + [Event(GlobalRoom, NewPoll(current.value, timer))]
      ensures old(nextHandle) !in old(pending)
      ensures pending == old(pending)[old(nextHandle) := now + TimeoutDelay(timer)]
      ensures timeoutSlot == Some(old(nextHandle)) && nextHandle == old(nextHandle) + 1
      ensures users == old(users)
    {
      var poll := CreatePoll(question, texts, timer, now);
      current := Some(poll);
      events := events + [Event(GlobalRoom, NewPoll(poll, timer))];
      var handle := nextHandle;
      nextHandle := handle + 1;
      pending := pending[handle := now + TimeoutDelay(timer)];
      timeoutSlot := Some(handle);
    }

    /**
     * submit_vote: a socket with no user, or a user who already voted under
     * `pollId`, changes nothing. Otherwise one vote is recorded and the
     * poll's results go to every teacher socket. Whether the poll is active
     * is not checked.
     */
    method OnSubmitVote(socketId: string, pollId: nat, optionId: nat)
      requires Valid()
      modifies this, ledger
      ensures Valid()
      ensures var k := FindBySocket(old(users), socketId);
        if k.None? || Voted(old(ledger.votes), pollId, old(users)[k.value].id) then
          ledger.votes == old(ledger.votes) && events == old(events)
        else
          ledger.votes == old(ledger.votes) + [Vote(pollId, old(users)[k.value].id, optionId)] &&
          events == old(events) + Notify(Teachers(users), CalculateResults(options, ledger.votes, pollId))
      ensures users == old(users) && polls == old(polls) && options == old(options) && current == old(current)
      ensures nextId == old(nextId) && timeoutSlot == old(timeoutSlot) && pending == old(pending) && nextHandle == old(nextHandle)
    {
      var k := FindBySocket(users, socketId);
      if k.None? {
        return;
      }
      var user := users[k.value];
      var voted := ledger.HasVoted(pollId, user.id);
      if voted {
        return;
      }
      FreshVoteKeepsNoDoubleVotes(ledger.votes, Vote(pollId, user.id, optionId));
      ledger.SubmitVote(pollId, user.id, optionId);
      var results := CalculateResults(options, ledger.votes, pollId);
      var teachers := Teachers(users);
      var sent := NotifyTeachers(teachers, results);
      events := events + sent;
    }

    /**
     * The corrected submit_vote: a vote whose option is not one of the
     * named poll's options is refused as well; otherwise as submit_vote.
     * Every recorded vote then names an option of its own poll.
     */
    method OnSubmitVoteChecked(socketId: string, pollId: nat, optionId: nat)
      requires Valid() && VotesMatchOptions(ledger.votes, options)
      modifies this, ledger
      ensures Valid() && VotesMatchOptions(ledger.votes, options)
      ensures var k := FindBySocket(old(users), socketId);
        if k.None? || !OptionInPoll(options, optionId, pollId) || Voted(old(ledger.votes), pollId, old(users)[k.value].id) then
          ledger.votes == old(ledger.votes) && events == old(events)
        else
          ledger.votes == old(ledger.votes) + [Vote(pollId, old(users)[k.value].id, optionId)] &&
          events == old(events) + Notify(Teachers(users), CalculateResults(options, ledger.votes, pollId))
      ensures users == old(users) && polls == old(polls) && options == old(options) && current == old(current)
      ensures nextId == old(nextId) && timeoutSlot == old(timeoutSlot) && pending == old(pending) && nextHandle == old(nextHandle)
    {
      if !OptionInPoll(options, optionId, pollId) {
        return;
      }
      ghost var before := ledger.votes;
      OnSubmitVote(socketId, pollId, optionId);
      if ledger.votes != before {
        VotesMatchAppend(before, options, ledger.votes[|ledger.votes| - 1]);
        assert ledger.votes == before + [ledger.votes[|ledger.votes| - 1]];
      }
    }

    /**
     * sync_state: with no current poll nothing is sent; otherwise the
     * current poll goes to the asking socket with its remaining time
     * clamped at 0.
     */
    method OnSyncState(socketId: string, now: int)
      requires Valid()
      modifies this
      ensures Valid()
      ensures current.None? ==> events == old(events)
      ensures current.Some? ==>
        events == old(events) +
          [Event(ToSocket(socketId), SyncPollState(current.value, None, SyncRemaining(current.value.row.timer, current.value.row.startedAt, now)))]
      ensures users == old(users) && polls == old(polls) && options == old(options) && current == old(current)
      ensures nextId == old(nextId) && timeoutSlot == old(timeoutSlot) && pending == old(pending) && nextHandle == old(nextHandle)
    {
      if current.None? {
        return;
      }
      var poll := current.value;
      var remaining := SyncRemaining(poll.row.timer, poll.row.startedAt, now);
      events := events + [Event(ToSocket(socketId), SyncPollState(poll, None, remaining))];
    }

    /**
     * join_room: finds the user by (name, role) and rebinds its socket id, or
     * creates it; resynchronises the joiner if an ACTIVE poll has time left;
     * always sends the whole user table to the room.
     */
    method OnJoinRoom(socketId: string, name: string, role: Role, roomId: string, now: int)
      requires Valid()
      modifies this
      ensures Valid()
      ensures users == Join(old(users), name, role, socketId, old(nextId))
      ensures nextId == old(nextId) + (if FindByIdentity(old(users), name, role).None? then 1 else 0)
      ensures events == old(events) + JoinResync(polls, options, ledger.votes, socketId, now) +
        [Event(Room(roomId), UpdateMembers(users))]
      ensures polls == old(polls) && options == old(options) && current == old(current)
      ensures timeoutSlot == old(timeoutSlot) && pending == old(pending) && nextHandle == old(nextHandle)
    {
      var bound := if FindByIdentity(users, name, role).None? then nextId + 1 else nextId;
      var joined := Join(users, name, role, socketId, nextId);
      var resync := JoinResync(polls, options, ledger.votes, socketId, now);
      JoinKeepsWellFormed(users, name, role, socketId, nextId);
      TablesBelowGrow(polls, options, nextId, bound);
      users, nextId := joined, bound;
      events := events + resync + [Event(Room(roomId), UpdateMembers(joined))];
    }

    /**
     * kick_student: an unknown id, or a user whose socket id is not truthy,
     * changes nothing. Otherwise `kicked` goes to that user's socket, the
     * user is deleted and the remaining users go to the room. No role is
     * checked.
     */
    method OnKickStudent(studentId: nat, roomId: string)
      requires Valid()
      modifies this
      ensures Valid()
      ensures var k := FindById(old(users), studentId);
        if k.Some? && Truthy(old(users)[k.value].socketId) then
          users == Remove(old(users), studentId) &&
          events == old(events) +
            [Event(ToSocket(old(users)[k.value].socketId.value), Kicked), Event(Room(roomId), UpdateMembers(users))]
        else
          users == old(users) && events == old(events)
      ensures polls == old(polls) && options == old(options) && current == old(current) && nextId == old(nextId)
      ensures timeoutSlot == old(timeoutSlot) && pending == old(pending) && nextHandle == old(nextHandle)
    {
      var k := FindById(users, studentId);
      if k.Some? && Truthy(users[k.value].socketId) {
        events := events + [Event(ToSocket(users[k.value].socketId.value), Kicked)];
        RemoveKeepsWellFormed(users, studentId, nextId);
        users := Remove(users, studentId);
        events := events + [Event(Room(roomId), UpdateMembers(users))];
      }
    }

    /**
     * The intended discipline for polls and timers: every ACTIVE row is the
     * current poll, and the only scheduled timer is the one in the slot,
     * due at the current poll's own deadline.
     */
    ghost predicate Fenced()
      reads this
    {
      && (forall i :: 0 <= i < |polls| && polls[i].status == Active ==> current.Some? && polls[i] == current.value.row)
      && (forall h :: h in pending ==>
            timeoutSlot == Some(h) && current.Some? &&
            pending[h] == current.value.row.startedAt + TimeoutDelay(current.value.row.timer))
    }

    /**
     * create_poll corrected: the previous poll is ended (and its timer
     * cleared) before the new one is created.
     */
    method OnCreatePollFenced(question: string, texts: seq<string>, timer: int, now: int)
      requires Valid() && Fenced()
      modifies this
      ensures Valid() && Fenced()
      ensures current.Some? && current.value.row == PollRow(old(nextId), question, timer, Active, now)
      ensures nextId == old(nextId) + 1 + |texts|
      ensures events == old(events) +
        (if old(current).Some? then [Event(GlobalRoom, PollEnded)] else []) +
        [Event(GlobalRoom, NewPoll(current.value, timer))]
      ensures polls ==
        (if old(current).Some? then MarkEnded(old(polls), old(current).value.row.id) else old(polls)) + [current.value.row]
      ensures pending == map[old(nextHandle) := now + TimeoutDelay(timer)]
      ensures timeoutSlot == Some(old(nextHandle)) && nextHandle == old(nextHandle) + 1
      ensures users == old(users)
    {
      EndPoll();
      assert pending == map[] by {
        forall h | h in pending ensures false {
        }
      }
      OnCreatePoll(question, texts, timer, now);
    }
  }

  lemma OptionsOfNewPoll(options: seq<PollOption>, made: seq<PollOption>, pollId: nat)
    requires forall i :: 0 <= i < |options| ==> options[i].pollId < pollId
    requires forall i :: 0 <= i < |made| ==> made[i].pollId == pollId
    ensures OptionsOf(options + made, pollId) == made
  {
    OptionsOfAppend(options, made, pollId);
    OptionsOfFresh(options, pollId);
    OptionsOfAll(made, pollId);
  }

  lemma {:induction false} OptionsOfFresh(options: seq<PollOption>, pollId: nat)
    requires forall i :: 0 <= i < |options| ==> options[i].pollId < pollId
    ensures OptionsOf(options, pollId) == []
  {
    if options != [] {
      OptionsOfFresh(options[..|options| - 1], pollId);
    }
  }

  lemma {:induction false} OptionsOfAll(made: seq<PollOption>, pollId: nat)
    requires forall i :: 0 <= i < |made| ==> made[i].pollId == pollId
    ensures OptionsOf(made, pollId) == made
  {
    if made != [] {
      OptionsOfAll(made[..|made| - 1], pollId);
      assert made[..|made| - 1] + [made[|made| - 1]] == made;
    }
  }

  /** Under the fenced discipline at most one poll row is ACTIVE. */
  lemma FencedAtMostOneActive(s: Session, i: nat, j: nat)
    requires s.Valid() && s.Fenced()
    requires i < j < |s.polls|
    ensures !(s.polls[i].status == Active && s.polls[j].status == Active)
  {
  }

  /**
   * Under the corrected submit_vote, every two votes a poll's tally counts
   * come from two different users.
   */
  lemma CheckedVotesHaveDistinctVoters(s: Session, pollId: nat)
    requires s.Valid() && VotesMatchOptions(s.ledger.votes, s.options)
    ensures DistinctVotersIn(s.ledger.votes, s.options, pollId)
  {
    MatchedVotesHaveDistinctVoters(s.ledger.votes, s.options, pollId);
  }

  /** FirstActive of a table that begins with `polls` looks no further when `polls` has an ACTIVE row. */
  lemma {:induction false} FirstActivePrefix(polls: seq<PollRow>, later: seq<PollRow>)
    requires FirstActive(polls).Some?
    ensures FirstActive(polls + later) == FirstActive(polls)
  {
    if polls[0].status != Active {
      assert (polls + later)[1..] == polls[1..] + later;
      FirstActivePrefix(polls[1..], later);
    }
  }

  /**
   * An ACTIVE row whose time is up and that no one ends, followed by any
   * later polls: join_room finds that row first and sends the joiner
   * nothing, whatever the later polls are.
   */
  lemma StaleActiveRowHidesLaterPolls(polls: seq<PollRow>, later: seq<PollRow>, options: seq<PollOption>, votes: seq<Vote>, socketId: string, now: int)
    requires FirstActive(polls).Some?
    requires var row := polls[FirstActive(polls).value]; RawRemaining(row.timer, row.startedAt, now) <= 0
    ensures JoinResync(polls + later, options, votes, socketId, now) == []
  {
    FirstActivePrefix(polls, later);
    var i := FirstActive(polls).value;
    assert (polls + later)[i] == polls[i];
  }
}
