/**
 The administrator's users endpoint: `GET` lists the accounts, `POST`
 validates a body and creates an account with a fresh external id, any
 other method is refused. The account table is a sequence of users; the
 row id the store assigns and the creation time are parameters.
 */
module UsersApi {
  import opened Common
  import opened Domain
  import Text

  /** A parsed JSON body; a field is `None` when it is `null` or absent. */
  datatype UserBody = UserBody(externalId: Option<string>, displayName: Option<string>, email: Option<string>)

  /** A request: its method and its body, `None` when the body is not JSON
      or parses to a falsy value. */
  datatype Request = Request(verb: string, body: Option<UserBody>)

  datatype Reply =
    | Listed(users: seq<User>)
    | Created(user: User)
    | Failure(status: int, message: string)
    | MethodNotAllowed

  /** The HTTP status each reply carries. */
  function Status(r: Reply): int {
    match r
    case Listed(_) => 200
    case Created(_) => 201
    case Failure(status, _) => status
    case MethodNotAllowed => 405
  }

  /** The reply and the account table after the request. */
  datatype Outcome = Outcome(reply: Reply, users: seq<User>)

  /** `SELECT id FROM app_user WHERE external_id = ?1 LIMIT 1` finds a row. */
  predicate ExternalIdTaken(users: seq<User>, externalId: string) {
    exists k :: 0 <= k < |users| && users[k].externalId == externalId
  }

  function FindExternalId(users: seq<User>, externalId: string): (r: bool)
    ensures r <==> ExternalIdTaken(users, externalId)
  {
    if |users| == 0 then false
    else if users[0].externalId == externalId then true
    else
      var r := FindExternalId(users[1..], externalId);
      assert ExternalIdTaken(users, externalId) <==> ExternalIdTaken(users[1..], externalId) by {
        if ExternalIdTaken(users, externalId) {
          var k :| 0 <= k < |users| && users[k].externalId == externalId;
          assert users[1..][k - 1] == users[k];
        }
        if ExternalIdTaken(users[1..], externalId) {
          var k :| 0 <= k < |users[1..]| && users[1..][k].externalId == externalId;
          assert users[k + 1] == users[1..][k];
        }
      }
      r
  }

  /** The `POST` branch: trim the fields, require both names, refuse a taken
      external id, otherwise append the new account. */
  function CreateUser(users: seq<User>, body: UserBody, newId: int, now: int): (o: Outcome)
    ensures var ext := Text.Trim(body.externalId.GetOr(""));
      var name := Text.Trim(body.displayName.GetOr(""));
      && (ext == "" || name == "" ==>
            o == Outcome(Failure(400, "externalId and displayName are required"), users))
      && (ext != "" && name != "" && ExternalIdTaken(users, ext) ==>
            o == Outcome(Failure(409, "externalId already exists"), users))
      && (ext != "" && name != "" && !ExternalIdTaken(users, ext) ==>
            var u := User(newId, ext, name, if body.email.None? then None else Some(Text.Trim(body.email.value)), now);
            o == Outcome(Created(u), users + [u]))
  {
    var ext := Text.Trim(body.externalId.GetOr(""));
    var name := Text.Trim(body.displayName.GetOr(""));
    var email := if body.email.None? then None else Some(Text.Trim(body.email.value));
    if ext == "" || name == "" then Outcome(Failure(400, "externalId and displayName are required"), users)
    else if FindExternalId(users, ext) then Outcome(Failure(409, "externalId already exists"), users)
    else
      var u := User(newId, ext, name, email, now);
      Outcome(Created(u), users + [u])
  }

  /** `onRequest`: dispatch on the method. */
  function Handle(users: seq<User>, req: Request, newId: int, now: int): (o: Outcome)
    ensures req.verb == "GET" ==> o == Outcome(Listed(users), users)
    ensures req.verb != "GET" && req.verb != "POST" ==> o == Outcome(MethodNotAllowed, users)
    ensures req.verb == "POST" && req.body.None? ==> o == Outcome(Failure(400, "Invalid JSON body"), users)
    ensures req.verb == "POST" && req.body.Some? ==> o == CreateUser(users, req.body.value, newId, now)
  {
    if req.verb == "GET" then Outcome(Listed(users), users)
    else if req.verb == "POST" then
      if req.body.None? then Outcome(Failure(400, "Invalid JSON body"), users)
      else CreateUser(users, req.body.value, newId, now)
    else Outcome(MethodNotAllowed, users)
  }

  /** Only a `201` reply changes the table, and then by exactly one account
      appended at the end. */
  lemma OnlyCreationChangesUsers(users: seq<User>, req: Request, newId: int, now: int)
    ensures var o := Handle(users, req, newId, now);
      (Status(o.reply) == 201 <==> o.reply.Created?)
      && (o.reply.Created? ==> o.users == users + [o.reply.user])
      && (!o.reply.Created? ==> o.users == users)
  {
  }

  /** External ids are unique across the table. */
  predicate UniqueExternalIds(users: seq<User>) {
    forall i, j :: 0 <= i < j < |users| ==> users[i].externalId != users[j].externalId
  }

  /** Creation keeps external ids unique. */
  lemma CreationKeepsExternalIdsUnique(users: seq<User>, req: Request, newId: int, now: int)
    requires UniqueExternalIds(users)
    ensures UniqueExternalIds(Handle(users, req, newId, now).users)
  {
    var o := Handle(users, req, newId, now);
    OnlyCreationChangesUsers(users, req, newId, now);
    if o.reply.Created? {
      var body := req.body.value;
      assert o == CreateUser(users, body, newId, now);
      var ext := Text.Trim(body.externalId.GetOr(""));
      assert o.reply.user.externalId == ext && !ExternalIdTaken(users, ext);
      AppendFreshKeepsUnique(users, o.reply.user);
    }
  }

  /** A created account has non-empty names with no surrounding whitespace. */
  lemma CreatedNamesAreTrimmed(users: seq<User>, req: Request, newId: int, now: int)
    requires Handle(users, req, newId, now).reply.Created?
    ensures var u := Handle(users, req, newId, now).reply.user;
      && u.externalId != "" && u.displayName != ""
      && Text.Trim(u.externalId) == u.externalId
      && Text.Trim(u.displayName) == u.displayName
  {
    var body := req.body.value;
    var ext := Text.Trim(body.externalId.GetOr(""));
    var name := Text.Trim(body.displayName.GetOr(""));
    assert Handle(users, req, newId, now) == CreateUser(users, body, newId, now);
    Text.TrimKeepsTrimmed(ext);
    Text.TrimKeepsTrimmed(name);
  }

  lemma AppendFreshKeepsUnique(users: seq<User>, u: User)
    requires UniqueExternalIds(users)
    requires !ExternalIdTaken(users, u.externalId)
    ensures UniqueExternalIds(users + [u])
  {
    var r := users + [u];
    forall i, j | 0 <= i < j < |r|
      ensures r[i].externalId != r[j].externalId
    {
      assert r[i] == users[i];
      if j < |users| {
        assert r[j] == users[j];
      }
    }
  }

  /** Repeating a successful creation is refused with `409`. */
  lemma RepeatedCreationConflicts(users: seq<User>, body: UserBody, id1: int, id2: int, t1: int, t2: int)
    requires Handle(users, Request("POST", Some(body)), id1, t1).reply.Created?
    ensures var after := Handle(users, Request("POST", Some(body)), id1, t1).users;
      Handle(after, Request("POST", Some(body)), id2, t2) == Outcome(Failure(409, "externalId already exists"), after)
  {
    var after := Handle(users, Request("POST", Some(body)), id1, t1).users;
    assert after[|users|].externalId == Text.Trim(body.externalId.GetOr(""));
  }
}
