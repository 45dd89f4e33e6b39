/**
 * The user table as the room and poll handlers query and change it:
 * first-match lookups, the find-or-create of join_room, the delete of
 * kick_student and the teacher query of submit_vote.
 */
module Membership {
  import opened Wrappers
  import opened Schema

  /** `findFirst`: the index of the first user satisfying `p`, in table order. */
  function FirstMatch(users: seq<User>, p: User -> bool): (r: Option<nat>)
    ensures r.None? <==> forall i :: 0 <= i < |users| ==> !p(users[i])
    ensures r.Some? ==> r.value < |users| && p(users[r.value])
    ensures r.Some? ==> forall j :: 0 <= j < r.value ==> !p(users[j])
  {
    if users == [] then None
    else if p(users[0]) then Some(0)
    else
      match FirstMatch(users[1..], p)
      case None => None
      case Some(k) => Some(k + 1)
  }

  /** `findFirst({ where: { name, role } })` */
  function FindByIdentity(users: seq<User>, name: string, role: Role): (r: Option<nat>)
    ensures r.None? <==> forall i :: 0 <= i < |users| ==> !(users[i].name == name && users[i].role == role)
    ensures r.Some? ==> r.value < |users| && users[r.value].name == name && users[r.value].role == role
    ensures r.Some? ==> forall j :: 0 <= j < r.value ==> !(users[j].name == name && users[j].role == role)
  {
    FirstMatch(users, (u: User) => u.name == name && u.role == role)
  }

  /** `findFirst({ where: { socketId } })` */
  function FindBySocket(users: seq<User>, socketId: string): (r: Option<nat>)
    ensures r.None? <==> forall i :: 0 <= i < |users| ==> users[i].socketId != Some(socketId)
    ensures r.Some? ==> r.value < |users| && users[r.value].socketId == Some(socketId)
    ensures r.Some? ==> forall j :: 0 <= j < r.value ==> users[j].socketId != Some(socketId)
  {
    FirstMatch(users, (u: User) => u.socketId == Some(socketId))
  }

  /** `findUnique({ where: { id } })` */
  function FindById(users: seq<User>, id: nat): (r: Option<nat>)
    ensures r.None? <==> forall i :: 0 <= i < |users| ==> users[i].id != id
    ensures r.Some? ==> r.value < |users| && users[r.value].id == id
    ensures r.Some? ==> forall j :: 0 <= j < r.value ==> users[j].id != id
  {
    FirstMatch(users, (u: User) => u.id == id)
  }

  predicate UniqueIds(users: seq<User>) {
    forall i, j :: 0 <= i < j < |users| ==> users[i].id != users[j].id
  }

  /** No two users share a (name, role) pair. */
  predicate UniqueIdentities(users: seq<User>) {
    forall i, j :: 0 <= i < j < |users| ==> !(users[i].name == users[j].name && users[i].role == users[j].role)
  }

  /**
   * The user table after join_room: the user found by (name, role) gets the
   * joining socket's id, or a new user with that name, role and socket id is
   * appended under `freshId`.
   */
  function Join(users: seq<User>, name: string, role: Role, socketId: string, freshId: nat): seq<User> {
    match FindByIdentity(users, name, role)
    case None => users + [User(freshId, name, role, Some(socketId))]
    case Some(k) => users[k := users[k].(socketId := Some(socketId))]
  }

  /**
   * An unknown (name, role) pair is appended as a new user holding the
   * socket; a known one keeps its id and place and only its socket id
   * changes; every other user is unchanged; afterwards the pair is found and
   * holds the joining socket.
   */
  lemma JoinSpec(users: seq<User>, name: string, role: Role, socketId: string, freshId: nat)
    ensures var r := Join(users, name, role, socketId, freshId);
      FindByIdentity(users, name, role).None? ==>
        |r| == |users| + 1 && r[..|users|] == users && r[|users|] == User(freshId, name, role, Some(socketId))
    ensures var r := Join(users, name, role, socketId, freshId);
      FindByIdentity(users, name, role).Some? ==>
        var k := FindByIdentity(users, name, role).value;
        |r| == |users| &&
        (forall i :: 0 <= i < |users| && i != k ==> r[i] == users[i]) &&
        r[k] == User(users[k].id, name, role, Some(socketId))
    ensures var r := Join(users, name, role, socketId, freshId);
      var k := FindByIdentity(r, name, role);
      k.Some? && r[k.value].socketId == Some(socketId)
  {
    var r := Join(users, name, role, socketId, freshId);
    if FindByIdentity(users, name, role).None? {
      assert r[|users|].name == name && r[|users|].role == role;
    }
  }

  /** join_room keeps (name, role) pairs unique, and ids unique when `freshId` is unused. */
  lemma JoinKeepsUnique(users: seq<User>, name: string, role: Role, socketId: string, freshId: nat)
    requires UniqueIdentities(users) && UniqueIds(users)
    requires forall i :: 0 <= i < |users| ==> users[i].id != freshId
    ensures UniqueIdentities(Join(users, name, role, socketId, freshId))
    ensures UniqueIds(Join(users, name, role, socketId, freshId))
  {
    JoinSpec(users, name, role, socketId, freshId);
    var r := Join(users, name, role, socketId, freshId);
    if FindByIdentity(users, name, role).None? {
      forall i, j | 0 <= i < j < |r|
        ensures !(r[i].name == r[j].name && r[i].role == r[j].role) && r[i].id != r[j].id
      {
        if j == |users| {
          assert r[i] == users[i];
        } else {
          assert r[i] == users[i] && r[j] == users[j];
        }
      }
    }
  }

  /** The user-table invariant: ids and (name, role) pairs are unique, and every id is below `bound`. */
  predicate WellFormedUsers(users: seq<User>, bound: nat) {
    UniqueIds(users) && UniqueIdentities(users) && forall i :: 0 <= i < |users| ==> users[i].id < bound
  }

  lemma WellFormedUsersGrow(users: seq<User>, bound: nat, bound': nat)
    requires WellFormedUsers(users, bound) && bound <= bound'
    ensures WellFormedUsers(users, bound')
  {
  }

  /** join_room with `freshId` as the next unused id keeps the invariant, the bound moving past a created user. */
  lemma JoinKeepsWellFormed(users: seq<User>, name: string, role: Role, socketId: string, freshId: nat)
    requires WellFormedUsers(users, freshId)
    ensures WellFormedUsers(Join(users, name, role, socketId, freshId),
      if FindByIdentity(users, name, role).None? then freshId + 1 else freshId)
  {
    JoinKeepsUnique(users, name, role, socketId, freshId);
    var r := Join(users, name, role, socketId, freshId);
    var k := FindByIdentity(users, name, role);
    if k.None? {
      assert r == users + [User(freshId, name, role, Some(socketId))];
      forall i | 0 <= i < |r| ensures r[i].id < freshId + 1 {
        if i < |users| {
          assert r[i] == users[i];
        }
      }
    } else {
      assert r == users[k.value := users[k.value].(socketId := Some(socketId))];
      forall i | 0 <= i < |r| ensures r[i].id < freshId {
        assert r[i].id == users[i].id;
      }
    }
  }

  /** `user.delete({ where: { id } })`: every user with that id leaves the table. */
  function Remove(users: seq<User>, id: nat): (r: seq<User>)
    ensures |r| <= |users|
  {
    if users == [] then []
    else (if users[0].id == id then [] else [users[0]]) + Remove(users[1..], id)
  }

  /** A user is left after the delete exactly when it was there and has another id. */
  lemma {:induction false} RemoveMembers(users: seq<User>, id: nat, u: User)
    ensures u in Remove(users, id) <==> u in users && u.id != id
  {
    if users != [] {
      RemoveMembers(users[1..], id, u);
      assert users == [users[0]] + users[1..];
    }
  }

  /** kick_student's delete keeps the invariant. */
  lemma RemoveKeepsWellFormed(users: seq<User>, id: nat, bound: nat)
    requires WellFormedUsers(users, bound)
    ensures WellFormedUsers(Remove(users, id), bound)
  {
    RemoveKeepsUnique(users, id);
    var r := Remove(users, id);
    forall i | 0 <= i < |r| ensures r[i].id < bound {
      RemoveMembers(users, id, r[i]);
    }
  }

  /** Removing the one user with an id shrinks the table by exactly one. */
  lemma {:induction false} RemoveOne(users: seq<User>, id: nat)
    requires UniqueIds(users) && FindById(users, id).Some?
    ensures |Remove(users, id)| == |users| - 1
  {
    var k := FindById(users, id).value;
    if k == 0 {
      assert FindById(users[1..], id).None? by {
        forall i | 0 <= i < |users[1..]| ensures users[1..][i].id != id {
          assert users[1..][i] == users[i + 1];
        }
      }
      RemoveNone(users[1..], id);
    } else {
      assert UniqueIds(users[1..]) by {
        forall i, j | 0 <= i < j < |users[1..]| ensures users[1..][i].id != users[1..][j].id {
          assert users[1..][i] == users[i + 1] && users[1..][j] == users[j + 1];
        }
      }
      assert users[1..][k - 1] == users[k];
      RemoveOne(users[1..], id);
    }
  }

  lemma {:induction false} RemoveNone(users: seq<User>, id: nat)
    requires FindById(users, id).None?
    ensures Remove(users, id) == users
  {
    if users != [] {
      assert FindById(users[1..], id).None? by {
        forall i | 0 <= i < |users[1..]| ensures users[1..][i].id != id {
          assert users[1..][i] == users[i + 1];
        }
      }
      RemoveNone(users[1..], id);
    }
  }

  /** Two users that differ in id and in (name, role). */
  predicate Apart(a: User, b: User) {
    a.id != b.id && !(a.name == b.name && a.role == b.role)
  }

  lemma UniqueTail(users: seq<User>)
    requires users != [] && UniqueIds(users) && UniqueIdentities(users)
    ensures UniqueIds(users[1..]) && UniqueIdentities(users[1..])
  {
    var tail := users[1..];
    forall i, j | 0 <= i < j < |tail| ensures Apart(tail[i], tail[j]) {
      assert tail[i] == users[i + 1] && tail[j] == users[j + 1];
    }
  }

  lemma UniqueCons(x: User, rest: seq<User>)
    requires UniqueIds(rest) && UniqueIdentities(rest)
    requires forall u :: u in rest ==> Apart(x, u)
    ensures UniqueIds([x] + rest) && UniqueIdentities([x] + rest)
  {
    var r := [x] + rest;
    forall i, j | 0 <= i < j < |r| ensures Apart(r[i], r[j]) {
      assert r[j] == rest[j - 1];
      if i > 0 {
        assert r[i] == rest[i - 1];
      }
    }
  }

  /** Deleting users keeps ids and (name, role) pairs unique. */
  lemma {:induction false} RemoveKeepsUnique(users: seq<User>, id: nat)
    requires UniqueIds(users) && UniqueIdentities(users)
    ensures UniqueIds(Remove(users, id)) && UniqueIdentities(Remove(users, id))
  {
    if users != [] {
      var tail := users[1..];
      UniqueTail(users);
      RemoveKeepsUnique(tail, id);
      var rest := Remove(tail, id);
      if users[0].id != id {
        forall u | u in rest ensures Apart(users[0], u) {
          RemoveMembers(tail, id, u);
          var m :| 0 <= m < |tail| && tail[m] == u;
          assert tail[m] == users[m + 1];
        }
        UniqueCons(users[0], rest);
      } else {
        assert Remove(users, id) == rest;
      }
    }
  }

  /** `findMany({ where: { role: "TEACHER" } })`: the teachers, in table order. */
  function Teachers(users: seq<User>): (ts: seq<User>)
    ensures |ts| <= |users|
  {
    if users == [] then []
    else (if users[0].role == Teacher then [users[0]] else []) + Teachers(users[1..])
  }

  /** The query returns exactly the users whose role is TEACHER. */
  lemma {:induction false} TeachersMembers(users: seq<User>, u: User)
    ensures u in Teachers(users) <==> u in users && u.role == Teacher
  {
    if users != [] {
      TeachersMembers(users[1..], u);
      assert users == [users[0]] + users[1..];
    }
  }
}
