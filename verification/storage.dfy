/**
 * The in-memory store (models/storage.ts): accounts, issued tokens, which
 * socket holds which session, and room membership. Every map is replaced by
 * the methods that change it; the User objects in `users` are shared with the
 * callers, which update their `lastToken` in place.
 */
module Store {
  import opened Wrappers
  import opened Records
  import opened Users

  datatype TokenUserPair = TokenUserPair(token: string, username: string)

  datatype SocketTokenUserPair = SocketTokenUserPair(socket: string, token: string, username: string)

  /** No element occurs twice. */
  predicate Distinct(xs: seq<string>)
  {
    forall i, j :: 0 <= i < j < |xs| ==> xs[i] != xs[j]
  }

  /** `Array.from` over a JavaScript Set: every element once. */
  method ArrayFrom(xs: set<string>) returns (items: seq<string>)
    ensures |items| == |xs| && Distinct(items)
    ensures forall x :: x in items <==> x in xs
  {
    items := [];
    var rest := xs;
    while rest != {}
      invariant rest <= xs
      invariant forall x :: x in xs ==> (x in items <==> x !in rest)
      invariant forall x :: x in items ==> x in xs
      invariant Distinct(items)
      invariant |items| + |rest| == |xs|
      decreases |rest|
    {
      var x :| x in rest;
      items := items + [x];
      rest := rest - {x};
    }
  }

  class Storage {
    var users: map<string, User>
    var tokens: map<string, TokenUserPair>
    var socketToToken: map<string, SocketTokenUserPair>
    var userToSocket: map<string, SocketTokenUserPair>
    var roomToSockets: map<string, set<string>>
    var socketToRooms: map<string, set<string>>
    /** The contents of `users.txt`. */
    var file: string
    /** The SHA-256 digest handed to every User this store creates. */
    const digest: string -> string

    /**
     * Every key agrees with the entry it names, every user hashes with the
     * store's digest, and no room is left without members.
     */
    ghost predicate Valid()
      reads this
    {
      && (forall name :: name in users ==> users[name].username == name && users[name].digest == digest)
      && (forall t :: t in tokens ==> tokens[t].token == t)
      && (forall s :: s in socketToToken ==> socketToToken[s].socket == s && socketToToken[s].username in users)
      && (forall name :: name in userToSocket ==> userToSocket[name].username == name && name in users)
      && RoomsOccupied()
    }

    /** Every existing room has at least one member. */
    ghost predicate RoomsOccupied()
      reads this
    {
      forall room :: room in roomToSockets ==> roomToSockets[room] != {}
    }

    /** The store starts empty and loads the accounts of the record file `data` ("" when it did not exist). */
    constructor (digest: string -> string, data: string)
      ensures Valid()
      ensures this.digest == digest && file == data
      ensures users.Keys == Tabulate(ParseFile(data)).Keys
      ensures forall name :: name in users ==>
        && fresh(users[name]) && users[name].username == name && users[name].digest == digest
        && users[name].passwordHash == Tabulate(ParseFile(data))[name] && users[name].lastToken == ""
      ensures tokens == map[] && socketToToken == map[] && userToSocket == map[]
      ensures roomToSockets == map[] && socketToRooms == map[]
    {
      this.digest := digest;
      users := map[];
      tokens := map[];
      socketToToken := map[];
      userToSocket := map[];
      roomToSockets := map[];
      socketToRooms := map[];
      file := data;
      new;
      LoadUsersFromFile();
    }

    /** Adds one User per line of the file; a later line for a name replaces an earlier one. */
    method LoadUsersFromFile()
      requires Valid()
      modifies this
      ensures Valid()
      ensures users.Keys == old(users).Keys + Tabulate(ParseFile(file)).Keys
      ensures forall name :: name in Tabulate(ParseFile(file)) ==>
        && fresh(users[name]) && users[name].username == name && users[name].digest == digest
        && users[name].passwordHash == Tabulate(ParseFile(file))[name] && users[name].lastToken == ""
      ensures forall name :: name in old(users) && name !in Tabulate(ParseFile(file)) ==> users[name] == old(users)[name]
      ensures tokens == old(tokens) && socketToToken == old(socketToToken) && userToSocket == old(userToSocket)
      ensures roomToSockets == old(roomToSockets) && socketToRooms == old(socketToRooms) && file == old(file)
    {
      LoadRecords(ParseFile(file));
    }

    /** Loads the records in order, so that the last record of each name is the one kept. */
    method LoadRecords(records: seq<UserRecord>)
      requires Valid()
      modifies this
      ensures Valid()
      ensures users.Keys == old(users).Keys + Tabulate(records).Keys
      ensures forall name :: name in Tabulate(records) ==>
        fresh(users[name]) && users[name].passwordHash == Tabulate(records)[name] && users[name].lastToken == ""
      ensures forall name :: name in old(users) && name !in Tabulate(records) ==> users[name] == old(users)[name]
      ensures tokens == old(tokens) && socketToToken == old(socketToToken) && userToSocket == old(userToSocket)
      ensures roomToSockets == old(roomToSockets) && socketToRooms == old(socketToRooms) && file == old(file)
    {
      ghost var loaded: map<string, string> := map[];
      var i := 0;
      while i < |records|
        invariant 0 <= i <= |records|
        invariant loaded == Tabulate(records[..i])
        invariant Valid()
        invariant users.Keys == old(users).Keys + loaded.Keys
        invariant forall name :: name in loaded ==>
          fresh(users[name]) && users[name].passwordHash == loaded[name] && users[name].lastToken == ""
        invariant forall name :: name in old(users) && name !in loaded ==> users[name] == old(users)[name]
        invariant tokens == old(tokens) && socketToToken == old(socketToToken) && userToSocket == old(userToSocket)
        invariant roomToSockets == old(roomToSockets) && socketToRooms == old(socketToRooms) && file == old(file)
      {
        var record := records[i];
        LoadRecord(record);
        TabulateAppend(records, i);
        loaded := loaded[record.username := record.passwordHash];
        i := i + 1;
      }
      assert records[..i] == records;
    }

    /** Creates the User of one record line and files it under its name, replacing an earlier one. */
    method LoadRecord(record: UserRecord)
      requires Valid()
      modifies this
      ensures Valid()
      ensures users.Keys == old(users).Keys + {record.username}
      ensures fresh(users[record.username]) && users[record.username].passwordHash == record.passwordHash
      ensures users[record.username].lastToken == ""
      ensures forall name :: name in old(users) && name != record.username ==> users[name] == old(users)[name]
      ensures tokens == old(tokens) && socketToToken == old(socketToToken) && userToSocket == old(userToSocket)
      ensures roomToSockets == old(roomToSockets) && socketToRooms == old(socketToRooms) && file == old(file)
    {
      var user := new User(record.username, record.passwordHash, false, digest);
      users := users[record.username := user];
    }

    /** Appends the user's record line to `users.txt`. */
    method AddUserToFile(user: User)
      modifies this
      ensures file == old(file) + RecordLine(UserRecord(user.username, user.passwordHash))
      ensures users == old(users) && tokens == old(tokens)
      ensures socketToToken == old(socketToToken) && userToSocket == old(userToSocket)
      ensures roomToSockets == old(roomToSockets) && socketToRooms == old(socketToRooms)
    {
      file := file + (user.username + " " + user.passwordHash + "\n");
    }

    predicate HasUser(name: string)
      reads this
    {
      name in users
    }

    /** A token is live when it is registered, names an account, and is that account's last token. */
    predicate HasToken(token: string)
      reads this, users.Values
    {
      && token in tokens
      && tokens[token].username in users
      && users[tokens[token].username].IsTokenValid(token)
    }

    /** Creates the account with the digest of its password and appends it to the record file. */
    method AddUser(name: string, password: string)
      requires Valid()
      modifies this
      ensures Valid()
      ensures users.Keys == old(users).Keys + {name} && HasUser(name)
      ensures fresh(users[name]) && users[name].CheckPassword(password) && users[name].lastToken == ""
      ensures forall other :: other in old(users) && other != name ==> users[other] == old(users)[other]
      ensures file == old(file) + RecordLine(UserRecord(name, users[name].passwordHash))
      ensures tokens == old(tokens) && socketToToken == old(socketToToken) && userToSocket == old(userToSocket)
      ensures roomToSockets == old(roomToSockets) && socketToRooms == old(socketToRooms)
    {
      var user := new User(name, password, true, digest);
      users := users[name := user];
      AddUserToFile(user);
    }

    /** The `!` in the source asserts that the name is present. */
    function GetUser(name: string): User
      requires name in users
      reads this
    {
      users[name]
    }

    /** The account a token was issued to, or undefined. */
    function GetUserByToken(token: string): Option<User>
      reads this
    {
      if token in tokens && tokens[token].username in users then Some(users[tokens[token].username]) else None
    }

    method EraseToken(token: string)
      requires Valid()
      modifies this
      ensures Valid()
      ensures tokens == old(tokens) - {token} && !HasToken(token)
      ensures forall other :: other != token && old(HasToken(other)) ==> HasToken(other)
      ensures users == old(users) && socketToToken == old(socketToToken) && userToSocket == old(userToSocket)
      ensures roomToSockets == old(roomToSockets) && socketToRooms == old(socketToRooms) && file == old(file)
    {
      tokens := tokens - {token};
    }

    method AddToken(token: string, name: string)
      requires Valid()
      modifies this
      ensures Valid()
      ensures tokens == old(tokens)[token := TokenUserPair(token, name)]
      ensures name in users && users[name].IsTokenValid(token) ==> HasToken(token)
      ensures users == old(users) && socketToToken == old(socketToToken) && userToSocket == old(userToSocket)
      ensures roomToSockets == old(roomToSockets) && socketToRooms == old(socketToRooms) && file == old(file)
    {
      tokens := tokens[token := TokenUserPair(token, name)];
    }

    /**
     * Records that `socket` holds `token`, under the socket and under the
     * token's account; an earlier socket of that account is overwritten in
     * `userToSocket` but stays in `socketToToken`.
     */
    method AddSocketToToken(socket: string, token: string)
      requires Valid()
      requires token in tokens && tokens[token].username in users
      modifies this
      ensures Valid()
      ensures var entry := SocketTokenUserPair(socket, token, old(tokens[token].username));
        && socketToToken == old(socketToToken)[socket := entry]
        && userToSocket == old(userToSocket)[entry.username := entry]
      ensures var name := old(tokens[token].username);
        && HasSocket(socket) && IsUserOnline(name)
        && GetTokenBySocket(socket) == Some(token) && GetSocketByUsername(name) == Some(socket)
      ensures users == old(users) && tokens == old(tokens) && file == old(file)
      ensures roomToSockets == old(roomToSockets) && socketToRooms == old(socketToRooms)
    {
      var name := GetUserByToken(token).value.username;
      var entry := SocketTokenUserPair(socket, token, name);
      socketToToken := socketToToken[socket := entry];
      userToSocket := userToSocket[name := entry];
    }

    function GetTokenBySocket(socket: string): (token: Option<string>)
      reads this
      ensures token.Some? <==> HasSocket(socket)
    {
      if socket in socketToToken then Some(socketToToken[socket].token) else None
    }

    /** The socket is known and the token it joined with is still live. */
    predicate HoldsLiveSession(socket: string)
      reads this, users.Values
    {
      socket in socketToToken && HasToken(socketToToken[socket].token)
    }

    /**
     * Forgets the socket and its account's presence, but only while its token
     * is live; otherwise nothing changes. Afterwards the socket holds no live
     * session, so a second call changes nothing.
     */
    method RemoveSocket(socket: string)
      requires Valid()
      modifies this
      ensures Valid()
      ensures !old(HoldsLiveSession(socket)) ==> unchanged(this)
      ensures old(HoldsLiveSession(socket)) ==>
        && socketToToken == old(socketToToken) - {socket}
        && userToSocket == old(userToSocket) - {old(tokens[socketToToken[socket].token].username)}
      ensures !HoldsLiveSession(socket)
      ensures users == old(users) && tokens == old(tokens) && file == old(file)
      ensures roomToSockets == old(roomToSockets) && socketToRooms == old(socketToRooms)
    {
      if !HasSocket(socket) {
        return;
      }
      if !HasToken(GetTokenBySocket(socket).value) {
        return;
      }
      var user := GetUserByToken(GetTokenBySocket(socket).value).value;
      userToSocket := userToSocket - {user.username};
      socketToToken := socketToToken - {socket};
    }

    predicate HasSocket(socket: string)
      reads this
    {
      socket in socketToToken
    }

    predicate IsUserOnline(name: string)
      reads this
    {
      name in userToSocket
    }

    method OnlineUsers() returns (names: seq<string>)
      ensures Distinct(names)
      ensures forall name :: name in names <==> IsUserOnline(name)
    {
      names := ArrayFrom(userToSocket.Keys);
    }

    function GetSocketByUsername(name: string): (socket: Option<string>)
      reads this
      ensures socket.Some? <==> IsUserOnline(name)
    {
      if name in userToSocket then Some(userToSocket[name].socket) else None
    }

    predicate HasSocketByUsername(name: string)
      reads this
    {
      name in userToSocket
    }

    /**
     * Puts the socket into the room, creating the room when needed; the
     * socket's own room set is reset to empty rather than recording the room.
     */
    method AddSocketToRoom(socket: string, room: string)
      requires Valid()
      modifies this
      ensures Valid()
      ensures HasRoom(room) && socket in roomToSockets[room]
      ensures roomToSockets == old(roomToSockets)[room := (if room in old(roomToSockets) then old(roomToSockets)[room] else {}) + {socket}]
      ensures socketToRooms == old(socketToRooms)[socket := {}]
      ensures users == old(users) && tokens == old(tokens) && file == old(file)
      ensures socketToToken == old(socketToToken) && userToSocket == old(userToSocket)
    {
      if !HasRoom(room) {
        roomToSockets := roomToSockets[room := {}];
      }
      socketToRooms := socketToRooms[socket := {}];
      roomToSockets := roomToSockets[room := roomToSockets[room] + {socket}];
    }

    /**
     * Takes the socket out of an existing room, deleting the room when it
     * becomes empty; the socket's whole room set is dropped.
     */
    method RemoveSocketFromRoom(socket: string, room: string)
      requires Valid()
      modifies this
      ensures Valid()
      ensures room !in old(roomToSockets) ==>
        roomToSockets == old(roomToSockets) && socketToRooms == old(socketToRooms)
      ensures room in old(roomToSockets) ==>
        && socketToRooms == old(socketToRooms) - {socket}
        && var left := old(roomToSockets)[room] - {socket};
           roomToSockets == if left == {} then old(roomToSockets) - {room} else old(roomToSockets)[room := left]
      ensures users == old(users) && tokens == old(tokens) && file == old(file)
      ensures socketToToken == old(socketToToken) && userToSocket == old(userToSocket)
    {
      if !HasRoom(room) {
        return;
      }
      roomToSockets := roomToSockets[room := roomToSockets[room] - {socket}];
      socketToRooms := socketToRooms - {socket};
      if roomToSockets[room] == {} {
        roomToSockets := roomToSockets - {room};
      }
    }

    method GetSocketsInRoom(room: string) returns (sockets: seq<string>)
      requires Valid()
      ensures !HasRoom(room) ==> sockets == []
      ensures HasRoom(room) ==> sockets != [] && |sockets| == |roomToSockets[room]| && Distinct(sockets)
      ensures HasRoom(room) ==> forall s :: s in sockets <==> s in roomToSockets[room]
    {
      if !HasRoom(room) {
        return [];
      }
      sockets := ArrayFrom(roomToSockets[room]);
    }

    /** The account name behind a socket, when its token still names an account. */
    function SocketUsername(socket: string): Option<string>
      reads this
    {
      if socket in socketToToken && socketToToken[socket].token in tokens && tokens[socketToToken[socket].token].username in users
      then Some(users[tokens[socketToToken[socket].token].username].username)
      else None
    }

    /** The account names of a room's members; the `!` in the source asserts every member resolves to one. */
    method GetUsersInRoom(room: string) returns (names: seq<string>)
      requires Valid()
      requires HasRoom(room) ==> forall s :: s in roomToSockets[room] ==> SocketUsername(s).Some?
      ensures !HasRoom(room) ==> names == []
      ensures HasRoom(room) ==> |names| == |roomToSockets[room]|
      ensures HasRoom(room) ==> forall name :: name in names <==> exists s :: s in roomToSockets[room] && SocketUsername(s) == Some(name)
    {
      var sockets := GetSocketsInRoom(room);
      names := [];
      var i := 0;
      while i < |sockets|
        invariant 0 <= i <= |sockets|
        invariant |names| == i
        invariant forall k :: 0 <= k < i ==> Some(names[k]) == SocketUsername(sockets[k])
      {
        assert HasRoom(room) && sockets[i] in roomToSockets[room];
        var user := GetUserByToken(GetTokenBySocket(sockets[i]).value).value;
        names := names + [user.username];
        i := i + 1;
      }
      if HasRoom(room) {
        forall name | name in names
          ensures exists s :: s in roomToSockets[room] && SocketUsername(s) == Some(name)
        {
          var k :| 0 <= k < |names| && names[k] == name;
          assert sockets[k] in roomToSockets[room];
        }
        forall s | s in roomToSockets[room]
          ensures SocketUsername(s).value in names
        {
          var k :| 0 <= k < |sockets| && sockets[k] == s;
          assert names[k] == SocketUsername(s).value;
        }
      }
    }

    predicate HasRoom(room: string)
      reads this
    {
      room in roomToSockets
    }

    /** The `!` in the source asserts a known socket has a room set. */
    method GetRoomsBySocket(socket: string) returns (rooms: seq<string>)
      requires HasSocket(socket) ==> socket in socketToRooms
      ensures !HasSocket(socket) ==> rooms == []
      ensures HasSocket(socket) ==> Distinct(rooms) && forall r :: r in rooms <==> r in socketToRooms[socket]
    {
      if !HasSocket(socket) {
        return [];
      }
      rooms := ArrayFrom(socketToRooms[socket]);
    }
  }

  /**
   * Every account of a valid store hashes with the store's digest, so an
   * account loaded from the line registration wrote for `password` accepts it.
   */
  lemma StoredAccountAcceptsPassword(store: Storage, name: string, password: string)
    requires store.Valid() && name in store.users
    requires store.users[name].passwordHash == store.digest(name + password)
    ensures store.users[name].CheckPassword(password)
  {
  }

  /** At most one live token per account: the newest login wins. */
  lemma OneLiveTokenPerUser(store: Storage, t1: string, t2: string)
    requires store.HasToken(t1) && store.HasToken(t2)
    requires store.tokens[t1].username == store.tokens[t2].username
    ensures t1 == t2
  {
  }
}
