/**
 * The records the server keeps in its tables (users, polls, options, votes),
 * the snapshot of a poll that the handlers pass around, and the events the
 * server emits over its sockets.
 */
module Schema {
  import opened Wrappers

  datatype Role = Student | Teacher

  datatype PollStatus = Active | Ended

  /** A row of the user table; `socketId` is rebound on every join. */
  datatype User = User(id: nat, name: string, role: Role, socketId: Option<string>)

  /** A row of the poll table. `timer` is the duration in seconds, `startedAt` a clock reading in ms. */
  datatype PollRow = PollRow(id: nat, question: string, timer: int, status: PollStatus, startedAt: int)

  /** A row of the option table. */
  datatype PollOption = PollOption(id: nat, pollId: nat, text: string)

  /** A poll row together with its options, as the poll queries return it. */
  datatype Poll = Poll(row: PollRow, options: seq<PollOption>)

  /** A row of the vote table. */
  datatype Vote = Vote(pollId: nat, userId: nat, optionId: nat)

  /** One row of the live tally. */
  datatype ResultRow = ResultRow(optionId: nat, votes: nat, percentage: real)

  /** Where an event goes: the shared poll room, a named room, or a single socket. */
  datatype Target = GlobalRoom | Room(roomId: string) | ToSocket(socketId: string)

  datatype Message =
    | NewPoll(poll: Poll, timer: int)
    | PollEnded
    | UpdateResults(results: seq<ResultRow>)
      // `votes` is present only when the poll came from the table query of join_room
    | SyncPollState(poll: Poll, votes: Option<seq<Vote>>, remainingTime: int)
    | UpdateMembers(members: seq<User>)
    | Kicked

  datatype Event = Event(to: Target, message: Message)

  /** JavaScript truthiness of a socket id: present and not the empty string. */
  predicate Truthy(socketId: Option<string>) {
    socketId.Some? && socketId.value != ""
  }
}
