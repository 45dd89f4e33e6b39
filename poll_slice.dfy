/**
 * The student client's poll store: which screen is shown, the poll being
 * answered, the countdown, the live results and whether this client voted.
 * `PollStore` updates its fields in place, one method per reducer; `Reduce`
 * and `Run` state the same reducers on values so that action sequences can
 * be reasoned about.
 */
module PollSlice {
  import opened Wrappers
  import Schema

  datatype ViewState = Waiting | Voting | Results | Kicked

  datatype PollState = PollState(
    poll: Option<Schema.Poll>,
    viewState: ViewState,
    timer: int,
    liveResults: seq<Schema.ResultRow>,
    hasSubmitted: bool)

  /** No poll, the waiting screen, timer 0, no results, nothing submitted. */
  const Initial: PollState := PollState(None, Waiting, 0, [], false)

  datatype PollAction =
    | SetActivePoll(poll: Schema.Poll, timer: int)
    | SetTimer(timer: int)
    | UpdateResults(results: seq<Schema.ResultRow>)
    | MarkSubmitted
    | EndPoll

  /** The reducer of each action, on values. */
  function Reduce(s: PollState, a: PollAction): PollState {
    match a
    case SetActivePoll(poll, timer) =>
      s.(poll := Some(poll), timer := timer, viewState := Voting, liveResults := [], hasSubmitted := false)
    case SetTimer(timer) => s.(timer := timer)
    case UpdateResults(results) => s.(liveResults := results, viewState := Results)
    case MarkSubmitted => s.(hasSubmitted := true, viewState := Results)
    case EndPoll => Initial
  }

  /** The state after dispatching `acts` in order, starting from `s`. */
  function Run(s: PollState, acts: seq<PollAction>): PollState {
    if acts == [] then s else Reduce(Run(s, acts[..|acts| - 1]), acts[|acts| - 1])
  }

  /** Dispatching `a` and then `b` is dispatching `a + b`. */
  lemma {:induction false} RunAppend(s: PollState, a: seq<PollAction>, b: seq<PollAction>)
    ensures Run(s, a + b) == Run(Run(s, a), b)
  {
    if b == [] {
      assert a + b == a;
    } else {
      RunAppend(s, a, b[..|b| - 1]);
      assert (a + b)[..|a + b| - 1] == a + b[..|b| - 1];
    }
  }

  /**
   * What every reachable state satisfies: the waiting screen has no poll,
   * no results and nothing submitted; the voting screen has a poll and no
   * results and nothing submitted; a submitted vote shows the results; the
   * kicked screen is never shown.
   */
  predicate Coherent(s: PollState) {
    && s.viewState != Kicked
    && (s.viewState == Waiting ==> s.poll.None? && s.liveResults == [] && !s.hasSubmitted)
    && (s.viewState == Voting ==> s.poll.Some? && s.liveResults == [] && !s.hasSubmitted)
    && (s.hasSubmitted ==> s.viewState == Results)
  }

  lemma InitialCoherent()
    ensures Coherent(Initial)
  {
  }

  lemma ReduceKeepsCoherent(s: PollState, a: PollAction)
    requires Coherent(s)
    ensures Coherent(Reduce(s, a))
  {
  }

  /** From any coherent state every action sequence stays coherent, so KICKED is never reached. */
  lemma {:induction false} RunKeepsCoherent(s: PollState, acts: seq<PollAction>)
    requires Coherent(s)
    ensures Coherent(Run(s, acts))
    ensures Run(s, acts).viewState != Kicked
  {
    if acts != [] {
      RunKeepsCoherent(s, acts[..|acts| - 1]);
      ReduceKeepsCoherent(Run(s, acts[..|acts| - 1]), acts[|acts| - 1]);
    }
  }

  /** Starting from the initial state the view is always WAITING, VOTING or RESULTS. */
  lemma NeverKicked(acts: seq<PollAction>)
    ensures Run(Initial, acts).viewState in {Waiting, Voting, Results}
  {
    RunKeepsCoherent(Initial, acts);
  }

  /** endPoll restores exactly the initial state, whatever came before. */
  lemma EndPollResets(s: PollState)
    ensures Reduce(s, EndPoll) == Initial
  {
  }

  /** endPoll twice is endPoll once. */
  lemma EndPollIdempotent(s: PollState)
    ensures Reduce(Reduce(s, EndPoll), EndPoll) == Reduce(s, EndPoll)
  {
  }

  /** Whatever happened before an endPoll is forgotten. */
  lemma {:induction false} EndPollForgetsHistory(s: PollState, t: PollState, before: seq<PollAction>, after: seq<PollAction>)
    ensures Run(s, before + [EndPoll] + after) == Run(t, [EndPoll] + after)
  {
    if after == [] {
      assert (before + [EndPoll] + after)[..|before|] == before;
      assert ([EndPoll] + after)[..0] == [];
    } else {
      var init := after[..|after| - 1];
      EndPollForgetsHistory(s, t, before, init);
      assert (before + [EndPoll] + after)[..|before + [EndPoll] + after| - 1] == before + [EndPoll] + init;
      assert ([EndPoll] + after)[..|[EndPoll] + after| - 1] == [EndPoll] + init;
    }
  }

  /** The store of the student screens, one method per reducer. */
  class PollStore {
    var poll: Option<Schema.Poll>
    var viewState: ViewState
    var timer: int
    var liveResults: seq<Schema.ResultRow>
    var hasSubmitted: bool

    function State(): PollState
      reads this
    {
      PollState(poll, viewState, timer, liveResults, hasSubmitted)
    }

    constructor ()
      ensures State() == Initial
    {
      poll, viewState, timer, liveResults, hasSubmitted := None, Waiting, 0, [], false;
    }

    /** setActivePoll: shows the voting screen for the payload's poll and timer, with results and submission cleared. */
    method SetActivePoll(p: Schema.Poll, t: int)
      modifies this
      ensures poll == Some(p) && timer == t && viewState == Voting && liveResults == [] && !hasSubmitted
      ensures State() == Reduce(old(State()), PollAction.SetActivePoll(p, t))
    {
      poll := Some(p);
      timer := t;
      viewState := Voting;
      liveResults := [];
      hasSubmitted := false;
    }

    /** setTimer: only the countdown changes. */
    method SetTimer(t: int)
      modifies this
      ensures timer == t
      ensures poll == old(poll) && viewState == old(viewState) && liveResults == old(liveResults) && hasSubmitted == old(hasSubmitted)
      ensures State() == Reduce(old(State()), PollAction.SetTimer(t))
    {
      timer := t;
    }

    /** updateResults: the results are replaced and shown; poll, timer and submission are kept. */
    method UpdateResults(results: seq<Schema.ResultRow>)
      modifies this
      ensures liveResults == results && viewState == Results
      ensures poll == old(poll) && timer == old(timer) && hasSubmitted == old(hasSubmitted)
      ensures State() == Reduce(old(State()), PollAction.UpdateResults(results))
    {
      liveResults := results;
      viewState := Results;
    }

    /** markSubmitted: the vote is recorded as sent and the results screen shown; nothing else changes. */
    method MarkSubmitted()
      modifies this
      ensures hasSubmitted && viewState == Results
      ensures poll == old(poll) && timer == old(timer) && liveResults == old(liveResults)
      ensures State() == Reduce(old(State()), PollAction.MarkSubmitted)
    {
      hasSubmitted := true;
      viewState := Results;
    }

    /** endPoll: back to the initial state. */
    method EndPoll()
      modifies this
      ensures State() == Initial
      ensures State() == Reduce(old(State()), PollAction.EndPoll)
    {
      poll := None;
      viewState := Waiting;
      timer := 0;
      liveResults := [];
      hasSubmitted := false;
    }
  }
}
