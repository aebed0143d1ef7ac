/** Controllers/UsersController.cs: login, registration, profile update and user deletion. */
module UsersController {
  import opened Models
  import opened Data

  /** The ids of the users called `name`. */
  function UsersNamed(s: Store, name: string): set<int>
  {
    set k | k in s.users && s.users[k].username == name
  }

  /** No two users share a username. */
  predicate UniqueUsernames(s: Store)
  {
    forall a, b :: a in s.users && b in s.users && s.users[a].username == s.users[b].username ==> a == b
  }

  /** With unique usernames, at most one user has a given name. */
  lemma UniqueNamed(s: Store, name: string, k: int)
    requires UniqueUsernames(s) && k in UsersNamed(s, name)
    ensures UsersNamed(s, name) == {k}
  {
    forall j | j in UsersNamed(s, name) ensures j == k {
    }
  }

  /** What a successful login hands back besides the token: the user's id and role. */
  datatype Session = Session(userId: int, role: string)

  /**
   * Login: Unauthorized when no user has the name; otherwise the first user
   * found with that name (the query has no ordering, so any of them) is
   * compared on the password, and a match yields its id and role.
   */
  method Login(s: Store, username: string, password: string) returns (r: Result<Session, Status>)
    ensures UsersNamed(s, username) == {} ==> r == Err(Unauthorized)
    ensures r.Err? ==> r.error == Unauthorized
    ensures r.Ok? ==> r.value.userId in UsersNamed(s, username)
    ensures r.Ok? ==> s.users[r.value.userId].password == password && r.value.role == s.users[r.value.userId].role
    ensures UniqueUsernames(s) ==>
      (r.Ok? <==> exists k :: k in s.users && s.users[k].username == username && s.users[k].password == password)
  {
    var named := UsersNamed(s, username);
    if named == {} {
      assert forall k :: k in s.users && s.users[k].username == username ==> k in named;
      return Err(Unauthorized);
    }
    var id := Pick(named);
    if s.users[id].password != password {
      if UniqueUsernames(s) {
        UniqueNamed(s, username, id);
        forall k | k in s.users && s.users[k].username == username ensures s.users[k].password != password {
          assert k in named;
        }
      }
      return Err(Unauthorized);
    }
    r := Ok(Session(id, s.users[id].role));
  }

  /** Adding a user whose name is not taken keeps usernames unique. */
  lemma AddUserKeepsUnique(s: Store, id: int, u: User)
    requires UniqueUsernames(s) && UsersNamed(s, u.username) == {} && id !in s.users
    ensures UniqueUsernames(s.(users := s.users[id := u]))
  {
    forall k | k in s.users ensures s.users[k].username != u.username {
      assert k !in UsersNamed(s, u.username);
    }
  }

  /**
   * Register: BadRequest, with nothing saved, when the username is taken;
   * otherwise exactly one user is added under a fresh id, its role "Student"
   * when none is given. Register therefore keeps usernames unique.
   */
  method Register(db: EduSyncContext, username: string, password: string, email: string, role: Nullable<string>)
    returns (r: Result<int, Status>)
    requires db.Valid()
    modifies db
    ensures db.Valid()
    ensures r.Err? <==> UsersNamed(old(db.State()), username) != {}
    ensures r.Err? ==> r.error == BadRequest && db.State() == old(db.State())
    ensures r.Ok? ==> r.value == old(db.nextId) && r.value !in old(db.users)
    ensures r.Ok? ==> db.State() == old(db.State()).(users := old(db.users)[r.value := NewUser(username, password, email, role)],
                                                     nextId := r.value + 1)
    ensures UniqueUsernames(old(db.State())) ==> UniqueUsernames(db.State())
  {
    var s := db.State();
    if UsersNamed(s, username) != {} {
      return Err(BadRequest);
    }
    var id := s.nextId;
    var u := NewUser(username, password, email, role);
    if UniqueUsernames(s) {
      AddUserKeepsUnique(s, id, u);
    }
    var saved := db.SaveChanges(s.(users := s.users[id := u], nextId := id + 1));
    assert saved;
    r := Ok(id);
  }

  /** The store with user `id`'s username, email and role replaced. */
  function UpdatedUser(s: Store, id: int, username: string, email: string, role: string): Store
    requires id in s.users
  {
    s.(users := s.users[id := s.users[id].(username := username, email := email, role := role)])
  }

  /** The update keeps the password and every other user; no other table changes. */
  lemma UpdateUserFrame(s: Store, id: int, username: string, email: string, role: string)
    requires id in s.users
    ensures var t := UpdatedUser(s, id, username, email, role);
      && t.users.Keys == s.users.Keys
      && t.users[id] == User(username, s.users[id].password, email, role)
      && (forall k :: k in s.users && k != id ==> t.users[k] == s.users[k])
      && (Valid(s) ==> Valid(t))
  {
  }

  /** UpdateUser has no uniqueness check: renaming a user to another user's name duplicates it. */
  lemma UpdateUserMayDuplicate(s: Store, id: int, other: int, email: string, role: string)
    requires id in s.users && other in s.users && id != other
    ensures !UniqueUsernames(UpdatedUser(s, id, s.users[other].username, email, role))
  {
    var t := UpdatedUser(s, id, s.users[other].username, email, role);
    assert t.users[id].username == t.users[other].username;
  }

  /**
   * UpdateUser: BadRequest on an id mismatch, NotFound for an unknown user;
   * otherwise username, email and role are overwritten.
   */
  method UpdateUser(db: EduSyncContext, id: int, bodyId: int, username: string, email: string, role: string)
    returns (r: Result<(), Status>)
    requires db.Valid()
    modifies db
    ensures db.Valid()
    ensures id != bodyId ==> r == Err(BadRequest)
    ensures id == bodyId && id !in old(db.users) ==> r == Err(NotFound)
    ensures r.Ok? <==> id == bodyId && id in old(db.users)
    ensures r.Err? ==> db.State() == old(db.State())
    ensures r.Ok? ==> id in old(db.users) && db.State() == UpdatedUser(old(db.State()), id, username, email, role)
  {
    if id != bodyId {
      return Err(BadRequest);
    }
    var s := db.State();
    if id !in s.users {
      return Err(NotFound);
    }
    UpdateUserFrame(s, id, username, email, role);
    var saved := db.SaveChanges(UpdatedUser(s, id, username, email, role));
    assert saved;
    r := Ok(());
  }

  /**
   * DeleteUser: NotFound for an unknown user; a user who still instructs a
   * course or holds an enrollment is refused by the database, a server error
   * that changes nothing; otherwise the user and their answers are deleted.
   */
  method DeleteUser(db: EduSyncContext, id: int) returns (r: Result<(), Status>)
    requires db.Valid()
    modifies db
    ensures db.Valid()
    ensures id !in old(db.users) ==> r == Err(NotFound)
    ensures id in old(db.users) ==> (r.Ok? <==> !StillReferenced(old(db.State()), id))
    ensures id in old(db.users) && r.Err? ==> r.error == ServerError
    ensures r.Err? ==> db.State() == old(db.State())
    ensures r.Ok? ==> Delete(old(db.State()), UserRow(id)) == Ok(db.State())
    ensures r.Ok? ==> db.users == old(db.users) - {id} && forall x :: x in db.answers ==> db.answers[x].userId != id
  {
    var s := db.State();
    if id !in s.users {
      return Err(NotFound);
    }
    DeleteUserRestricted(s, id);
    var outcome := Delete(s, UserRow(id));
    if outcome.Err? {
      return Err(ServerError);
    }
    DeleteKeepsValid(s, UserRow(id));
    var saved := db.SaveChanges(outcome.value);
    assert saved;
    r := Ok(());
  }
}
