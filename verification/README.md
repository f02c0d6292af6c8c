# open-local-chat-server: accounts, sessions, presence and rooms

A Dafny model of the bookkeeping core of a small real-time chat server.
Account holders register and log in over HTTP, receive a session token, and
join a socket channel with that token; the server keeps, in one in-memory
store, the accounts (loaded from and appended to a `users.txt` record file),
the issued tokens, which socket holds which account's session, and room
membership.

The model follows the source's own structure:

- `records.dfy` (module `Records`): the `users.txt` line format and its
  parser, including JavaScript's `split` semantics, proved to round-trip.
- `users.dfy` (module `Users`): class `User` with the "newest token wins"
  rule (a single `lastToken` field compared by equality) and the username
  validator (`^[a-z][a-z0-9_-]{2,19}$` plus a denylist), proved equal to a
  plain length/character characterisation.
- `storage.dfy` (module `Store`): class `Storage` with the six maps the
  source updates in place, an object invariant `Valid()` (every key agrees
  with the entry it names, every account hashes with the store's digest,
  every existing room has a member), and one method or query per source
  operation.
- `server.dfy` (module `Server`): the HTTP handler's status/error decision
  table (`Decide`, pure) and its store updates (`HandleRequest`), and the
  socket handlers `join`, `chat` and `disconnect`. Emits are returned as a
  list of actions.
- `config.dfy` (module `Settings`): class `Config` and `readFromFile`'s
  field-by-field defaults and fail-fast checks over an already parsed file.
- `wrappers.dfy`: the `Option` type used for `undefined` and absent fields.

SHA-256 is the `digest: string -> string` field given to the store and to
every user, so nothing is assumed about it. `crypto.randomUUID()` is the
`uuid` argument of `GenerateToken` and `HandleRequest`. The contents of
`users.txt` are the store's `file` field; `Storage`'s constructor receives
them as a string ("" when the file did not exist).

The model keeps the code's behaviour where it is surprising:

- `join` does not check whether the account is already online.
- `chat` neither normalises nor limits the message, and does not re-check
  the token.
- `addSocketToRoom` resets the socket's room set to empty instead of
  recording the room.
- `removeSocketFromRoom` drops the socket's whole room set.
- `removeSocket` removes a socket only while its token is still live. A
  socket whose account has since logged in again stays recorded.
- `removeSocket` deletes the presence entry by account name. When two
  sockets joined with the same token, disconnecting the first takes the
  account offline while the second socket stays recorded.
- The trailing newline of the record file loads as an account named "" with
  password hash "".
- A socket handler that dereferences an account that does not exist throws.
  This happens in `chat` on a socket that never joined, and in `disconnect`
  when the socket's token has been erased. The model returns `Threw` for
  these.
- The HTTP handler throws on a body that parses to `null`, because it reads
  `username` of `null`. The model returns `Uncaught` for it.
- An exception escaping these event callbacks is uncaught, which by default
  ends the Node.js process; the model only reports the outcome and does not
  model what the runtime does next.
- `readFromFile` throws a TypeError, before assigning any field, when
  `config.json` holds `null`, because it reads `port` of `null`. The model
  returns `NullDereference` for it.

Some behaviour one might expect of a chat server is absent from the code, and
the model leaves it out as well:

- The code has no per-account epoch counter; validity is the equality
  `lastToken == token`.
- There is no `AlreadyOnline` rejection.
- There are no logout, enter-room or leave-room events.
- There is no message normalisation and no length limit.
- There is no discovery responder.
- Login failures are reported as "Invalid username" or "Invalid password",
  not with one shared message.
- Registration does not check the password.
- The username check uses its own hard-coded bounds and a nine-name
  denylist, not the configuration, whose default list has ten names
  (it adds "system").
- server.ts uses a fixed port (9001) and a fixed general room ("general")
  rather than the configuration.

## Model

| member | source | states |
|---|---|---|
| `Records.Split` | models/storage.ts:84-86 | `split` with a one-character separator yields at least one field, no field holds the separator, and joining the fields with the separator gives back the input |
| `Records.SplitAtFirstSeparator` | models/storage.ts:84-86 | text free of the separator, then a separator, then anything, splits into that text followed by the split of the rest |
| `Records.SplitWithoutSeparator` | models/storage.ts:86 | a string without the separator splits into itself alone |
| `Records.LineRoundTrip` | models/storage.ts:84-93 | the line `username + " " + hash + "\n"` written for a user reads back as that same pair, then the empty record the trailing newline produces, provided neither field holds a space or newline |
| `Records.FileRoundTrip` | models/storage.ts:84-93 | a file written record by record reads back as those records in order, followed by the empty record |
| `Records.Tabulate` | models/storage.ts:85-88 | the names of the loaded table are exactly the names of the parsed records |
| `Records.TabulateAppend` | models/storage.ts:85-88 | loading one more line overwrites that line's name with its hash, leaving the other names as they were |
| `Records.TabulateLastWins` | models/storage.ts:85-88 | for each name the loaded hash is that of the last line with that name |
| `Users.User.constructor` | models/user.ts:8-17 | with `isPassword` the digest of name+password is stored and `checkPassword(password)` holds; without it the argument is stored verbatim; the new user has no token (`getToken() == ""`) |
| `Users.User.GenerateToken` | models/user.ts:33-44 | the returned token becomes the only one `isTokenValid` accepts, so every earlier token is invalidated; name and digest are constant |
| `Users.User.ResetToken` | models/user.ts:46-48 | `lastToken` becomes "", so no non-empty token is valid any more |
| `Users.RepeatsNameCharExactly` | models/user.ts:55 | `[a-z0-9_-]{lo,hi}` matches exactly the strings of length lo..hi made only of that class |
| `Users.ValidUsernameExactly` | models/user.ts:54-62 | `isValidUsername` holds iff the length is 3..20, the first character is a-z, the others are in `[a-z0-9_-]`, and the name is not one of the nine forbidden names (both directions) |
| `Users.ValidUsernameHasNoSeparator` | models/user.ts:55 | an accepted username contains no space and no newline |
| `Store.ArrayFrom` | models/storage.ts:198 | `Array.from` of a set lists every element exactly once and nothing else |
| `Store.Storage.constructor` | models/storage.ts:55-67 | a new store has empty token, presence and room maps and exactly the accounts loaded from the record file, each named by its key, hashing with the store's digest, and with no token; the invariant holds |
| `Store.Storage.LoadUsersFromFile` | models/storage.ts:80-89 | adds one fresh user per parsed line, keyed by its name, hashing with the store's digest, with the hash of the last line for that name and no token; other state unchanged |
| `Store.Storage.LoadRecords` | models/storage.ts:85-88 | loading records in order adds a fresh user for every name with the hash of its last record and no token, keeps accounts whose names do not occur, and keeps the invariant |
| `Store.Storage.LoadRecord` | models/storage.ts:86-87 | one record line becomes a fresh user with that hash and no token, filed under its name and replacing an earlier one; nothing else changes |
| `Store.StoredAccountAcceptsPassword` | models/user.ts:19-31 | in a valid store an account whose stored hash is the digest of its name and a password accepts that password, because every account hashes with the store's digest |
| `Store.Storage.AddUserToFile` | models/storage.ts:91-94 | appends exactly the user's record line to the file |
| `Store.Storage.AddUser` | models/storage.ts:110-113 | afterwards `hasUser(name)` and `getUser(name).checkPassword(password)` hold; the new user has no token; other users, tokens, presence and rooms are untouched; the record line is appended |
| `Store.Storage.EraseToken` | models/storage.ts:124-126 | deletes exactly that token entry, so `hasToken` fails for it, and every other live token stays live |
| `Store.Storage.AddToken` | models/storage.ts:128-131 | maps the token to the name, leaving other token entries; the token is live if it is that user's last token |
| `Store.OneLiveTokenPerUser` | models/storage.ts:100-108 | `hasToken` (registered, names a known user, equals that user's `lastToken`) holds for at most one token per account |
| `Store.Storage.AddSocketToToken` | models/storage.ts:133-138 | for a token of a known user, stores the same socket/token/user triple under the socket and under the user (overwriting that user's earlier socket); afterwards `hasSocket`, `isUserOnline`, `getTokenBySocket` and `getSocketByUsername` agree |
| `Store.Storage.RemoveSocket` | models/storage.ts:144-153 | a no-op unless the socket is known and its token live; otherwise deletes exactly the socket's entry and its user's presence entry; users, tokens and rooms unchanged; afterwards the socket holds no live session |
| `Store.Storage.OnlineUsers` | models/storage.ts:163-165 | lists each online user once, and only those |
| `Store.Storage.AddSocketToRoom` | models/storage.ts:175-181 | the room exists afterwards with the socket among its members, other rooms unchanged; the socket's room set becomes empty; no room is left empty |
| `Store.Storage.RemoveSocketFromRoom` | models/storage.ts:183-192 | a no-op for an absent room; otherwise the socket leaves the room, the room is deleted iff it became empty, and the socket's room set is dropped; no room is left empty |
| `Store.Storage.GetSocketsInRoom` | models/storage.ts:194-199 | `[]` for an absent room; otherwise each member once and only members, never empty |
| `Store.Storage.GetUsersInRoom` | models/storage.ts:201-208 | one name per member socket, and the names are exactly the accounts behind the room's sockets |
| `Store.Storage.GetRoomsBySocket` | models/storage.ts:214-219 | `[]` for an unknown socket; otherwise each room of its room set once |
| `Server.Decide` | server.ts:15-89 | OPTIONS gets 200; a POST body that is not JSON or lacks username or password gets 400 "Invalid JSON"; login with an unknown name gets 401 "Invalid username", with a wrong password 401 "Invalid password", otherwise 200 with the new token; register of a taken name gets 401 "Username already taken" before validity is checked, an invalid name 401 "Invalid username", otherwise 200; any other method or URL gets 404; a store update happens only with status 200 |
| `Server.HandleRequest` | server.ts:24-79 | answers with `Decide`'s verdict; a request with no update leaves the store and every user untouched; a login makes the issued token live and every other token of that account dead, keeping other accounts' live tokens live; a registration adds a fresh user whose password checks and appends its record line |
| `Server.RegisteredRecordReadsBack` | server.ts:63-68 | the line registration appends for an accepted name reads back as that account, followed by the empty record |
| `Server.Join` | server.ts:99-110 | with a live token: joins the general room, emits `joined` to the sender and the room, and records the socket as the account's socket without any already-online check; otherwise emits "Invalid token" and changes nothing |
| `Server.Chat` | server.ts:112-117 | the message goes unchanged, with the sender's name, to the sender and to the general room; a socket with no account behind it makes the handler throw |
| `Server.Disconnect` | server.ts:119-127 | an unknown socket changes nothing; a known one emits `left` and is removed while its token is live; afterwards the socket holds no live session, and without one the store is unchanged, so a second disconnect has no effect on the store |
| `Settings.Config.constructor` | models/config.ts:4-14 | the field initialisers: zeroes, empty strings and an empty list |
| `Settings.TryReadFromFileJson` | models/config.ts:30-39 | a parsed object comes back as parsed; an unreadable or unparsable file reads as `{}`; the null value comes back exactly when the file parses to `null` |
| `Settings.Config.ReadFromFile` | models/config.ts:41-68 | a file holding `null` throws before any field is assigned; otherwise each field takes the file's value when present (0 included) and its default otherwise; an unreadable or unparsable file gives all defaults; fails on username bounds, then password bounds, then message length, in that order, leaving later fields unassigned; otherwise succeeds iff the three consistency conditions hold |

## Left out

- File I/O: `createFileIfNotExists`, `readFileSync`, `appendFileSync` and `writeFileSync`. The record file is a string field. The configuration file is given as already read and parsed.
- Cryptography: SHA-256 is an uninterpreted `digest` function and `randomUUID` an argument. Nothing is proved about digests or UUIDs, so a UUID equal to an earlier token is not excluded.
- The network layer: the HTTP server, response headers, body chunk accumulation, `listen`, console logging, and the delivery of socket.io emits and room joins. Emits are only returned as actions.
- Singletons: `Storage.instance`/`getInstance`, `Config.instance`/`getInstance` and `Config.writeToFile`. The model has single objects. `Config`'s constructor also reads and writes the file; here it only sets the field initialisers, and `ReadFromFile` is called separately.
- JSON values of unexpected types, such as a numeric username or a string length bound. Request fields are strings or absent, and configuration numbers are integers.
- `getUserByToken`, `getUser`, `hasUser`, `hasToken`, `hasSocket`, `getTokenBySocket`, `isUserOnline`, `getSocketByUsername`, `hasSocketByUsername`, `hasRoom`, `User.checkPassword`, `User.isTokenValid`, `User.getToken` and the `Config` getters are modelled as functions or predicates that read the fields. Their definitions are what the rows above rely on, so they have no rows of their own.
- Other definitions used by the rows above also have no rows of their own: the record-line parser `Records.ParseLine`/`ParseLines`/`ParseFile`, the writer `Records.RecordLine`/`Serialise`, `Users.User.ComputeHash` (the digest of name plus password), `Users.User.IsValidUsername` (characterised by `Users.ValidUsernameExactly`) and the HTTP body test `Server.HasCredentials`.
- `Store.ArrayFrom`: does not model the insertion order that JavaScript's `Array.from` gives; any duplicate-free order is allowed.
- `Store.Storage.OnlineUsers`: does not model insertion order, for the same reason.
- `Store.Storage.GetSocketsInRoom`: does not model insertion order, for the same reason.
- `Store.Storage.GetRoomsBySocket`: does not model insertion order, for the same reason.
- `Store.Storage.GetUsersInRoom`: states the names as a set plus a count, not their order.
- `Store.Storage.GetUsersInRoom` and `Store.Storage.GetRoomsBySocket`: they require what the source's `!` assertions assume (every member socket resolves to an account, or a known socket has a room set). The model proves no room/socket index invariant that would guarantee it, because the code does not maintain one.
