/**
 * User accounts: the registry keyed by username, subscription of a user to
 * access points, the subscriber query, the in-memory copy made when saving, and
 * the status each route answers with (access-point-api/src/user.rs).
 */
module Accounts {
  import opened Wrappers
  import opened Ap

  /** A user account: username, password hash and the identifiers it follows. */
  datatype User = User(username: string, password: string, accessPoints: set<APID>)

  /**
   * `User::new`: hash the password with the external hashing function `hash`
   * (which may fail) and start with no access points.
   */
  function NewUser(username: string, password: string, hash: string -> Option<string>): (r: Option<User>)
    ensures r.None? <==> hash(password).None?
    ensures r.Some? ==>
      r.value.username == username && r.value.password == hash(password).value && r.value.accessPoints == {}
  {
    match hash(password)
    case None => None
    case Some(h) => Some(User(username, h, {}))
  }

  /** The registry after `username` subscribes to `id`: that user's set gains `id`; nothing else changes. */
  function WithAccessPoint(users: map<string, User>, username: string, id: APID): (after: map<string, User>)
    requires username in users
    ensures after.Keys == users.Keys
    ensures forall name :: name in users && name != username ==> after[name] == users[name]
    ensures after[username].accessPoints == users[username].accessPoints + {id}
    ensures after[username].username == users[username].username
    ensures after[username].password == users[username].password
  {
    users[username := users[username].(accessPoints := users[username].accessPoints + {id})]
  }

  /** Subscribing twice to the same point is the same as subscribing once. */
  lemma WithAccessPointIdempotent(users: map<string, User>, username: string, id: APID)
    requires username in users
    ensures WithAccessPoint(WithAccessPoint(users, username, id), username, id) == WithAccessPoint(users, username, id)
  {
    var once := WithAccessPoint(users, username, id);
    assert once[username].accessPoints + {id} == once[username].accessPoints;
  }

  /** `Users`: the accounts keyed by username; every call is one atomic step. */
  class Users {
    var users: map<string, User>

    /** Every account is stored under its own username. */
    ghost predicate Valid()
      reads this
    {
      forall name :: name in users ==> users[name].username == name
    }

    /** `Users::new`: no accounts. */
    constructor ()
      ensures Valid() && users == map[]
    {
      users := map[];
    }

    /** The copy `save` builds entry by entry before serialising it: exactly the stored accounts. */
    method Snapshot() returns (copy: map<string, User>)
      ensures copy == users
    {
      copy := map[];
      var pending := users.Keys;
      while pending != {}
        invariant pending <= users.Keys
        invariant copy.Keys == users.Keys - pending
        invariant forall name :: name in copy ==> copy[name] == users[name]
        decreases pending
      {
        var name :| name in pending;
        copy := copy[name := users[name]];
        pending := pending - {name};
      }
    }

    /** `add`: `Err` and no change when the username is taken; otherwise store the user under it. */
    method Add(user: User) returns (res: Outcome)
      modifies this
      ensures user.username in old(users) ==> res == Err && users == old(users)
      ensures user.username !in old(users) ==> res == Outcome.Ok && users == old(users)[user.username := user]
      ensures old(Valid()) ==> Valid()
    {
      if user.username in users {
        return Err;
      }
      users := users[user.username := user];
      res := Outcome.Ok;
    }

    /** `add_access_point`: `Err` and no change for an unknown user; otherwise add `id` to that user's set. */
    method AddAccessPoint(username: string, id: APID) returns (res: Outcome)
      modifies this
      ensures username !in old(users) ==> res == Err && users == old(users)
      ensures username in old(users) ==> res == Outcome.Ok && users == WithAccessPoint(old(users), username, id)
      ensures old(Valid()) ==> Valid()
    {
      if username in users {
        var user := users[username];
        users := users[username := user.(accessPoints := user.accessPoints + {id})];
        return Outcome.Ok;
      }
      res := Err;
    }

    /** `get`: a copy of the account stored under `username`, or `None`. */
    function Get(username: string): (r: Option<User>)
      reads this
      ensures r.Some? <==> username in users
      ensures r.Some? ==> r.value == users[username]
    {
      if username in users then Some(users[username]) else None
    }

    /** `get_users_with_access_point`: the usernames of the accounts whose set holds `id`. */
    function UsersWithAccessPoint(id: APID): (r: set<string>)
      reads this
      ensures forall name :: name in users && id in users[name].accessPoints ==> users[name].username in r
      ensures forall n :: n in r ==> exists name :: name in users && users[name].username == n && id in users[name].accessPoints
      ensures Valid() ==> forall name :: name in r <==> name in users && id in users[name].accessPoints
    {
      set u | u in users.Values && id in u.accessPoints :: u.username
    }
  }

  // ---------------------------------------------------------------------
  // Route results
  // ---------------------------------------------------------------------

  /** The HTTP statuses the user routes answer with. */
  datatype Status = Ok | Conflict | NotFound | InternalServerError

  /** `create_user`'s answer: no user (hashing failed), or the outcome of `add`. */
  function CreateUserStatus(created: Option<Outcome>): (s: Status)
    ensures s == InternalServerError <==> created.None?
    ensures s == Conflict <==> created == Some(Outcome.Err)
    ensures s == Status.Ok <==> created == Some(Outcome.Ok)
  {
    match created
    case None => InternalServerError
    case Some(Ok) => Status.Ok
    case Some(Err) => Conflict
  }

  /** `add_access_point`'s answer: `Ok`, or `NotFound` for an unknown user. */
  function AddAccessPointStatus(res: Outcome): (s: Status)
    ensures s == Status.Ok <==> res == Outcome.Ok
    ensures s == NotFound <==> res == Err
  {
    match res
    case Ok => Status.Ok
    case Err => NotFound
  }

  /** The `create_user` route: hash, then add; the registry changes only on `Ok`. */
  method CreateUser(users: Users, username: string, password: string, hash: string -> Option<string>)
    returns (status: Status)
    modifies users
    ensures hash(password).None? ==> status == InternalServerError && users.users == old(users.users)
    ensures hash(password).Some? && username in old(users.users) ==>
      status == Conflict && users.users == old(users.users)
    ensures hash(password).Some? && username !in old(users.users) ==>
      status == Status.Ok && users.users == old(users.users)[username := User(username, hash(password).value, {})]
    ensures old(users.Valid()) ==> users.Valid()
  {
    var user := NewUser(username, password, hash);
    if user.Some? {
      var res := users.Add(user.value);
      status := CreateUserStatus(Some(res));
    } else {
      status := CreateUserStatus(None);
    }
  }

  /** The `add_access_point` route. */
  method AddAccessPointRoute(users: Users, username: string, id: APID) returns (status: Status)
    modifies users
    ensures username !in old(users.users) ==> status == NotFound && users.users == old(users.users)
    ensures username in old(users.users) ==>
      status == Status.Ok && users.users == WithAccessPoint(old(users.users), username, id)
    ensures old(users.Valid()) ==> users.Valid()
  {
    var res := users.AddAccessPoint(username, id);
    status := AddAccessPointStatus(res);
  }

  /**
   * The `get_user` route: `NotFound` with no body for an unknown user or when the
   * external serialiser `serialize` fails; otherwise `Ok` with the serialised account.
   */
  function GetUserRoute(users: Users, username: string, serialize: User -> Option<string>): (r: (Status, Option<string>))
    reads users
    ensures r.0 == Status.Ok <==> username in users.users && serialize(users.users[username]).Some?
    ensures r.0 != Status.Ok ==> r == (NotFound, None)
    ensures r.0 == Status.Ok ==> r.1 == serialize(users.users[username])
  {
    match users.Get(username)
    case None => (NotFound, None)
    case Some(user) =>
      match serialize(user)
      case None => (NotFound, None)
      case Some(json) => (Status.Ok, Some(json))
  }

  /** Scenario: the account calls in turn (create, a duplicate, subscribe, and the subscriber query). */
  method AccountScenario()
  {
    var users := new Users();
    var hash := (p: string) => Some("h:" + p);
    var s := CreateUser(users, "alice", "pw123", hash);
    assert s == Status.Ok;
    s := CreateUser(users, "alice", "other", hash);
    assert s == Conflict;
    s := AddAccessPointRoute(users, "alice", 0);
    assert s == Status.Ok;
    s := AddAccessPointRoute(users, "bob", 0);
    assert s == NotFound;
    assert users.Valid();
    assert users.UsersWithAccessPoint(0) == {"alice"};
  }
}
