/**
 * The client's user store: the name and role the user joined with, and
 * whether they have joined. `UserStore` updates its fields in place; `Reduce`
 * and `Run` state the reducers on values.
 */
module UserSlice {

  datatype UserState = UserState(name: string, role: string, joined: bool)

  /** Empty name, empty role, not joined. */
  const Initial: UserState := UserState("", "", false)

  datatype UserAction = SetUser(name: string, role: string) | ResetUser

  function Reduce(s: UserState, a: UserAction): UserState {
    match a
    case SetUser(name, role) => UserState(name, role, true)
    case ResetUser => Initial
  }

  /** The state after dispatching `acts` in order, starting from `s`. */
  function Run(s: UserState, acts: seq<UserAction>): UserState {
    if acts == [] then s else Reduce(Run(s, acts[..|acts| - 1]), acts[|acts| - 1])
  }

  /** Dispatching `a` and then `b` is dispatching `a + b`. */
  lemma {:induction false} RunAppend(s: UserState, a: seq<UserAction>, b: seq<UserAction>)
    ensures Run(s, a + b) == Run(Run(s, a), b)
  {
    if b == [] {
      assert a + b == a;
    } else {
      RunAppend(s, a, b[..|b| - 1]);
      assert (a + b)[..|a + b| - 1] == a + b[..|b| - 1];
    }
  }

  /** After at least one action the state depends only on the most recent one. */
  lemma LastActionDecides(s: UserState, acts: seq<UserAction>)
    requires acts != []
    ensures Run(s, acts) == Reduce(Initial, acts[|acts| - 1])
  {
  }

  /**
   * From the initial state the user counts as joined exactly when the most
   * recent action was setUser, and then name and role are that action's.
   */
  lemma JoinedIffLastSetUser(acts: seq<UserAction>)
    ensures Run(Initial, acts).joined <==> acts != [] && acts[|acts| - 1].SetUser?
    ensures Run(Initial, acts).joined ==>
      Run(Initial, acts).name == acts[|acts| - 1].name && Run(Initial, acts).role == acts[|acts| - 1].role
    ensures !Run(Initial, acts).joined ==> Run(Initial, acts) == Initial
  {
  }

  /** setUser twice with the same payload is setUser once. */
  lemma SetUserIdempotent(s: UserState, name: string, role: string)
    ensures Reduce(Reduce(s, SetUser(name, role)), SetUser(name, role)) == Reduce(s, SetUser(name, role))
  {
  }

  /** Of two setUser actions in a row the second wins. */
  lemma LastSetUserWins(s: UserState, n1: string, r1: string, n2: string, r2: string)
    ensures Reduce(Reduce(s, SetUser(n1, r1)), SetUser(n2, r2)) == UserState(n2, r2, true)
  {
  }

  class UserStore {
    var name: string
    var role: string
    var joined: bool

    function State(): UserState
      reads this
    {
      UserState(name, role, joined)
    }

    constructor ()
      ensures State() == Initial
    {
      name, role, joined := "", "", false;
    }

    /** setUser: name and role from the payload, and joined. */
    method SetUser(n: string, r: string)
      modifies this
      ensures name == n && role == r && joined
      ensures State() == Reduce(old(State()), UserAction.SetUser(n, r))
    {
      name := n;
      role := r;
      joined := true;
    }

    /** resetUser: back to the initial state from any state. */
    method ResetUser()
      modifies this
      ensures State() == Initial
      ensures State() == Reduce(old(State()), UserAction.ResetUser)
    {
      name := "";
      role := "";
      joined := false;
    }
  }
}
