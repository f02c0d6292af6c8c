/**
 * The request and event handlers of server.ts, over the one shared Storage.
 * The HTTP handler's status and error selection is the pure function Decide;
 * HandleRequest carries out the store update Decide selects. Socket emits are
 * returned as a list of actions instead of being sent.
 */
module Server {
  import opened Wrappers
  import opened Records
  import opened Users
  import opened Store

  const GeneralRoom := "general"
  const LoginPath := "/api/login"
  const RegisterPath := "/api/register"

  /**
   * The outcome of `JSON.parse` on a request body: not JSON at all, the JSON
   * literal `null`, or any other value, of which only the `username` and
   * `password` fields matter (None when absent, null or undefined).
   */
  datatype JsonBody = NotJson | JsonNull | JsonValue(username: Option<string>, password: Option<string>)

  datatype Request = Request(verb: string, url: string, body: JsonBody)

  /** The JSON object the server answers with. */
  datatype Payload = EmptyObject | TokenObject(token: string) | ErrorObject(error: string)

  /** A response, or a TypeError escaping the handler (reading `username` of `null`). */
  datatype Verdict = Reply(status: nat, payload: Payload) | Uncaught

  /** The store update a request leads to. */
  datatype Effect = NoEffect | IssueToken(username: string, token: string) | CreateUser(username: string, password: string)

  datatype Decision = Decision(verdict: Verdict, effect: Effect)

  /** The body is a JSON value whose `username` and `password` are both defined. */
  predicate HasCredentials(req: Request)
  {
    req.body.JsonValue? && req.body.username.Some? && req.body.password.Some?
  }

  /** A POST to `path` that gets past the body checks. */
  predicate IsPostTo(req: Request, path: string)
  {
    req.verb == "POST" && HasCredentials(req) && req.url == path
  }

  function Username(req: Request): string
    requires HasCredentials(req)
  {
    req.body.username.value
  }

  function Password(req: Request): string
    requires HasCredentials(req)
  {
    req.body.password.value
  }

  /**
   * The status, the answer and the store update of one HTTP request; `uuid`
   * is the value `crypto.randomUUID()` would return if a token is issued.
   */
  function Decide(store: Storage, req: Request, uuid: string): (d: Decision)
    reads store
    ensures d.effect != NoEffect ==> d.verdict.Reply? && d.verdict.status == 200
    ensures d.verdict.Reply? && d.verdict.status != 200 ==> d.effect == NoEffect
    ensures req.verb == "OPTIONS" ==> d == Decision(Reply(200, EmptyObject), NoEffect)
    ensures d.verdict == Uncaught <==> req.verb == "POST" && req.body == JsonNull
    ensures d.verdict == Reply(400, ErrorObject("Invalid JSON")) <==>
      req.verb == "POST" && (req.body.NotJson? || (req.body.JsonValue? && !HasCredentials(req)))
    ensures d.verdict == Reply(404, ErrorObject("Not found")) <==>
      || (req.verb != "OPTIONS" && req.verb != "POST")
      || (req.verb == "POST" && HasCredentials(req) && req.url != LoginPath && req.url != RegisterPath)
    ensures d.effect.IssueToken? <==>
      IsPostTo(req, LoginPath) && store.HasUser(Username(req)) && store.GetUser(Username(req)).CheckPassword(Password(req))
    ensures d.effect.IssueToken? ==>
      d == Decision(Reply(200, TokenObject(uuid)), IssueToken(Username(req), uuid))
    ensures IsPostTo(req, LoginPath) && !store.HasUser(Username(req)) ==>
      d == Decision(Reply(401, ErrorObject("Invalid username")), NoEffect)
    ensures IsPostTo(req, LoginPath) && store.HasUser(Username(req)) && !store.GetUser(Username(req)).CheckPassword(Password(req)) ==>
      d == Decision(Reply(401, ErrorObject("Invalid password")), NoEffect)
    ensures d.effect.CreateUser? <==>
      IsPostTo(req, RegisterPath) && !store.HasUser(Username(req)) && User.IsValidUsername(Username(req))
    ensures d.effect.CreateUser? ==>
      d == Decision(Reply(200, EmptyObject), CreateUser(Username(req), Password(req)))
    ensures IsPostTo(req, RegisterPath) && store.HasUser(Username(req)) ==>
      d == Decision(Reply(401, ErrorObject("Username already taken")), NoEffect)
    ensures IsPostTo(req, RegisterPath) && !store.HasUser(Username(req)) && !User.IsValidUsername(Username(req)) ==>
      d == Decision(Reply(401, ErrorObject("Invalid username")), NoEffect)
  {
    if req.verb == "OPTIONS" then
      Decision(Reply(200, EmptyObject), NoEffect)
    else if req.verb == "POST" then
      match req.body
      case NotJson => Decision(Reply(400, ErrorObject("Invalid JSON")), NoEffect)
      case JsonNull => Decision(Uncaught, NoEffect)
      case JsonValue(username, password) =>
        if username.None? || password.None? then
          Decision(Reply(400, ErrorObject("Invalid JSON")), NoEffect)
        else if req.url == LoginPath then
          if store.HasUser(username.value) then
            if store.GetUser(username.value).CheckPassword(password.value) then
              Decision(Reply(200, TokenObject(uuid)), IssueToken(username.value, uuid))
            else
              Decision(Reply(401, ErrorObject("Invalid password")), NoEffect)
          else
            Decision(Reply(401, ErrorObject("Invalid username")), NoEffect)
        else if req.url == RegisterPath then
          if !store.HasUser(username.value) then
            if User.IsValidUsername(username.value) then
              Decision(Reply(200, EmptyObject), CreateUser(username.value, password.value))
            else
              Decision(Reply(401, ErrorObject("Invalid username")), NoEffect)
          else
            Decision(Reply(401, ErrorObject("Username already taken")), NoEffect)
        else
          Decision(Reply(404, ErrorObject("Not found")), NoEffect)
    else
      Decision(Reply(404, ErrorObject("Not found")), NoEffect)
  }

  /**
   * Answers one HTTP request and applies its store update: a login makes the
   * issued token the account's only live one, a registration creates the
   * account; every other request leaves the store as it was.
   */
  method HandleRequest(store: Storage, req: Request, uuid: string) returns (verdict: Verdict)
    requires store.Valid()
    modifies store, store.users.Values
    ensures store.Valid()
    ensures verdict == old(Decide(store, req, uuid)).verdict
    ensures old(Decide(store, req, uuid)).effect == NoEffect ==>
      unchanged(store) && forall name :: name in store.users ==> unchanged(store.users[name])
    ensures var effect := old(Decide(store, req, uuid)).effect;
      effect.IssueToken? ==>
        && store.users == old(store.users)
        && store.tokens == old(store.tokens)[uuid := TokenUserPair(uuid, effect.username)]
        && store.users[effect.username].lastToken == uuid
        && (forall name :: name in store.users && name != effect.username ==> unchanged(store.users[name]))
        && store.HasToken(uuid)
        && (forall t :: t in store.tokens && store.tokens[t].username == effect.username && t != uuid ==> !store.HasToken(t))
        && (forall t :: old(store.HasToken(t)) && old(store.tokens[t].username) != effect.username && t != uuid ==> store.HasToken(t))
        && store.socketToToken == old(store.socketToToken) && store.userToSocket == old(store.userToSocket)
        && store.roomToSockets == old(store.roomToSockets) && store.socketToRooms == old(store.socketToRooms)
        && store.file == old(store.file)
    ensures var effect := old(Decide(store, req, uuid)).effect;
      effect.CreateUser? ==>
        && store.users.Keys == old(store.users).Keys + {effect.username}
        && fresh(store.users[effect.username])
        && store.users[effect.username].CheckPassword(effect.password)
        && store.users[effect.username].lastToken == ""
        && (forall name :: name in old(store.users) ==> store.users[name] == old(store.users)[name] && unchanged(store.users[name]))
        && store.file == old(store.file) + RecordLine(UserRecord(effect.username, store.users[effect.username].passwordHash))
        && store.tokens == old(store.tokens)
        && store.socketToToken == old(store.socketToToken) && store.userToSocket == old(store.userToSocket)
        && store.roomToSockets == old(store.roomToSockets) && store.socketToRooms == old(store.socketToRooms)
  {
    var decision := Decide(store, req, uuid);
    verdict := decision.verdict;
    match decision.effect
    case NoEffect =>
    case IssueToken(name, _) =>
      var user := store.GetUser(name);
      var token := user.GenerateToken(uuid);
      store.AddToken(token, name);
    case CreateUser(name, password) =>
      store.AddUser(name, password);
  }

  /** One emit of a socket handler, or its joining a socket.io room. */
  datatype Action =
    | JoinChannel(room: string)
    | EmitToSelf(event: string, args: seq<string>)
    | EmitToOthers(room: string, event: string, args: seq<string>)

  /** The emits of a socket handler, or a TypeError escaping it (a socket without a resolvable account). */
  datatype Outcome = Handled(actions: seq<Action>) | Threw

  /**
   * The `join` event: a live token puts the socket into the general room and
   * records it as its account's socket, with no check that the account is
   * already online; any other token only earns an error emit.
   */
  method Join(store: Storage, socketId: string, token: string) returns (actions: seq<Action>)
    requires store.Valid()
    modifies store
    ensures store.Valid()
    ensures old(store.HasToken(token)) ==>
      var name := old(store.tokens[token].username);
      var entry := SocketTokenUserPair(socketId, token, name);
      && actions == [JoinChannel(GeneralRoom), EmitToSelf("joined", [name]), EmitToOthers(GeneralRoom, "joined", [name])]
      && store.socketToToken == old(store.socketToToken)[socketId := entry]
      && store.userToSocket == old(store.userToSocket)[name := entry]
      && store.HoldsLiveSession(socketId)
      && store.IsUserOnline(name) && store.GetSocketByUsername(name) == Some(socketId)
    ensures !old(store.HasToken(token)) ==>
      actions == [EmitToSelf("error", ["Invalid token"])] && unchanged(store)
    ensures store.users == old(store.users) && store.tokens == old(store.tokens) && store.file == old(store.file)
    ensures store.roomToSockets == old(store.roomToSockets) && store.socketToRooms == old(store.socketToRooms)
  {
    if store.HasToken(token) {
      var user := store.GetUserByToken(token).value;
      actions := [JoinChannel(GeneralRoom), EmitToSelf("joined", [user.username]), EmitToOthers(GeneralRoom, "joined", [user.username])];
      store.AddSocketToToken(socketId, token);
    } else {
      actions := [EmitToSelf("error", ["Invalid token"])];
    }
  }

  /**
   * The `chat` event: the message goes, exactly as received, to the sender
   * and to the rest of the general room. The socket's token is not checked
   * for being live; a socket that never joined makes the handler throw.
   */
  function Chat(store: Storage, socketId: string, message: string): (outcome: Outcome)
    reads store
    ensures outcome.Threw? <==> store.SocketUsername(socketId).None?
    ensures outcome.Handled? ==>
      var name := store.SocketUsername(socketId).value;
      outcome.actions == [EmitToSelf("chat", [name, message]), EmitToOthers(GeneralRoom, "chat", [name, message])]
  {
    match store.GetTokenBySocket(socketId)
    case None => Threw
    case Some(token) =>
      match store.GetUserByToken(token)
      case None => Threw
      case Some(user) =>
        Handled([EmitToSelf("chat", [user.username, message]), EmitToOthers(GeneralRoom, "chat", [user.username, message])])
  }

  /**
   * The `disconnect` event: a known socket announces its departure and is
   * removed while its token is live. Afterwards the socket holds no live
   * session, and without one the store is left as it was, so a second
   * disconnect changes nothing.
   */
  method Disconnect(store: Storage, socketId: string) returns (outcome: Outcome)
    requires store.Valid()
    modifies store
    ensures store.Valid()
    ensures !old(store.HasSocket(socketId)) ==> outcome == Handled([])
    ensures old(store.HasSocket(socketId)) && old(store.SocketUsername(socketId)).None? ==> outcome == Threw
    ensures old(store.HasSocket(socketId)) && old(store.SocketUsername(socketId)).Some? ==>
      outcome == Handled([EmitToOthers(GeneralRoom, "left", [old(store.SocketUsername(socketId)).value])])
    ensures !old(store.HoldsLiveSession(socketId)) ==> unchanged(store)
    ensures old(store.HoldsLiveSession(socketId)) ==>
      && store.socketToToken == old(store.socketToToken) - {socketId}
      && store.userToSocket == old(store.userToSocket) - {old(store.SocketUsername(socketId)).value}
    ensures !store.HoldsLiveSession(socketId)
    ensures store.users == old(store.users) && store.tokens == old(store.tokens) && store.file == old(store.file)
    ensures store.roomToSockets == old(store.roomToSockets) && store.socketToRooms == old(store.socketToRooms)
  {
    if !store.HasSocket(socketId) {
      return Handled([]);
    }
    var token := store.GetTokenBySocket(socketId).value;
    var user := store.GetUserByToken(token);
    if user.None? {
      return Threw;
    }
    outcome := Handled([EmitToOthers(GeneralRoom, "left", [user.value.username])]);
    store.RemoveSocket(socketId);
  }

  /**
   * The line a registration appends reads back as the same account: an
   * accepted name holds no separator, and neither does a hex digest.
   */
  lemma RegisteredRecordReadsBack(name: string, passwordHash: string)
    requires User.IsValidUsername(name)
    requires ' ' !in passwordHash && '\n' !in passwordHash
    ensures ParseFile(RecordLine(UserRecord(name, passwordHash))) == [UserRecord(name, passwordHash), EmptyRecord]
  {
    ValidUsernameHasNoSeparator(name);
    LineRoundTrip(UserRecord(name, passwordHash));
  }
}
