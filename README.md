# Chat server registry, presence and broadcast — a Dafny model

The chat demo's server keeps a process-wide registry `sockets` of live
connections. The registry maps the id that the `open` listener drew from
`_.uniqueId()` to the connection object. Route handlers run on behalf of one
connection:

- `auth!` attaches a session key and a user id to it;
- `signIn!` logs in and then runs `auth!`;
- `usersById` reads accounts with its key;
- `createMessage!` posts a chat message;
- `users` returns the presence list.

Presence is computed from the registry. `authenticatedSockets` keeps the
connections that have a user id. `getUsers` maps them to their user ids, drops
duplicates and turns each id into a `usersById` reference. `broadcast` sends a
`pave` patch to every authenticated connection. When a connection closes, its
entry is removed. If it was its user's last connection, the others are told
that the user left.

The model is organised as follows:

- `protocol.dfy` (`Protocol`) holds the values exchanged:
  - the patches (`Delta`), messages and deliveries;
  - handler errors, with the texts `Authentication Failed` and `Authentication Required`;
  - the answers of the identity service;
  - the fixed constants: event `pave`, community id 2, device `Pave Demo`, and the two system message texts.
- `presence.dfy` (`Presence`) holds the pure projections over a snapshot of the registry, listed in enumeration order: `Authenticated`, `Unique`, `Users`, `Broadcast`. It also holds their lemmas.
- `accounts.dfy` (`Accounts`) holds the `usersById` handler and its field projection fold.
- `registry.dfy` (`Registry`) holds the imperative part:
  - a `Socket` class whose `id`, `key` and `userId` fields are updated in place;
  - a `Server` class holding the `sockets` map and underscore's id counter;
  - the `open` and `close` listeners and the `auth!`, `signIn!`, `users` and `createMessage!` handlers as methods.

  `Server.Records()` is the registry as the handlers enumerate it. Ids drawn from `_.uniqueId()` are integer-like keys, and JavaScript enumerates those in ascending numeric order (`KeysBelow`). `Valid()` is the invariant that every socket sits under its own id and no id exceeds the counter.
- `scenario.dfy` (`Scenario`) is a client of the contracts. Two users connect and sign in, one chats, and the other leaves. What each step sends follows from the handler contracts alone.

Some conventions:

- The identity service calls (`GET /keys/me`, `POST /authentication/login`, `GET /accounts/:id`) are function parameters of the handlers.
- `new Date()` is an input `at`.
- Each `socket.send` is a returned `Delivery`. It records the receiving socket's id, the event and the patch.
- A missing `socket.key` is `""`, and a missing `socket.userId` is `None`. Both are falsy in the source.

## Model

| member | source | states |
|---|---|---|
| Presence.Authenticated | src/server/index.js:12 | A connection is in the result iff it is in the registry snapshot and has a user id; the result is no longer than the snapshot |
| Presence.AuthenticatedKeepsOrder | src/server/index.js:12 | Filtering a concatenation is concatenating the filtered parts, so the authenticated connections keep the registry's order |
| Presence.AuthenticatedSingle | src/server/index.js:12 | A single connection passes the filter iff it has a user id |
| Presence.HasUser | src/server/index.js:36 | Some connection carries user id `id` iff some authenticated connection does |
| Presence.UserIds | src/server/index.js:16 | One user id per authenticated connection, in the same order, so the mapped ids are exactly the ids some connection carries |
| Presence.Unique | src/server/index.js:17 | The result holds exactly the values of the input, each once |
| Presence.UniqueKeepsFirstOrder | src/server/index.js:17 | The result lists the values in the order of their first occurrences in the input |
| Presence.Broadcast | src/server/index.js:21-22 | One delivery per authenticated connection, addressed to their ids in registry order, each the `pave` event carrying the given patch |
| Presence.Users | src/server/index.js:14-19 | `usersById(id)` is in the presence list iff some connection carries user id `id`; the list has no duplicates, so a user with several connections appears once and unauthenticated connections contribute nothing |
| Presence.BroadcastReachesExactlyAuthenticated | src/server/index.js:21-22 | Socket `k` receives a broadcast iff some connection with id `k` is authenticated; with distinct registry ids, nobody receives it twice |
| Presence.BroadcastReaches | src/server/index.js:21-22 | An authenticated connection is among a broadcast's recipients |
| Presence.AuthenticatedKeepsDistinctIds | src/server/index.js:12 | Filtering the authenticated connections keeps registry ids distinct |
| Presence.Without | src/server/index.js:116 | Deleting entry `k` keeps exactly the connections whose id is not `k`, and the id list loses exactly `k` |
| Presence.ReplaceAuthenticates | src/server/index.js:37-38 | Once a registered connection takes a user id, that user is present and the connection is authenticated |
| Registry.KeysBelow | src/server/index.js:10 | The registry's keys are enumerated in strictly increasing order, each registered key exactly once |
| Registry.KeysBelowDelete | src/server/index.js:116 | Enumerating the keys after a `delete` is the earlier enumeration with that key removed |
| Registry.SnapshotExtend | src/server/index.js:109 | Registering a socket under a new largest id appends its record to the enumeration |
| Registry.SnapshotDelete | src/server/index.js:116 | Reading the registry after deleting an entry is reading it before and dropping that entry |
| Registry.Server.constructor | src/server/index.js:10 | The registry starts empty, with the id counter at 0 |
| Registry.Server.Order | src/server/index.js:10 | The registry's keys are enumerated in strictly increasing order: exactly the registered keys up to the last id handed out |
| Registry.Server.Records | src/server/index.js:10 | In a valid registry, the enumeration yields one record per registered key, each carrying that key as its id, in enumeration order |
| Registry.Server.RecordIdsDistinct | src/server/index.js:10 | In a valid registry no id is listed twice |
| Registry.Server.RecordsMatchRegistry | src/server/index.js:10 | The enumeration lists exactly the registered sockets with their current key and user id |
| Registry.Server.SessionChangeKeepsValid | src/server/index.js:37-38 | Assigning a socket's key and user id keeps every socket under its own id |
| Registry.Server.SessionChange | src/server/index.js:37-38 | Assigning a socket's key and user id changes the enumeration only in that socket's record, and not at all when the socket is no longer registered |
| Registry.Server.Open | src/server/index.js:108-109 | The socket gets the next id, larger than every id in use; it is added under that id and every other entry is unchanged; the enumeration gains its record at the end; the registry invariant is kept |
| Registry.Server.Close | src/server/index.js:114-130 | Exactly the socket's entry is deleted. Something is sent only if the socket had a user id that no remaining connection has. In that case the remaining authenticated connections receive the "left the chat." system message and the presence list recomputed after the deletion, which lacks the departed user |
| Registry.Server.UsersRoute | src/server/index.js:29 | The `users` route lists user `id` iff some registered socket has user id `id`, each user once |
| Registry.Server.Auth | src/server/index.js:31-55 | A rejected key, or an answer lacking `data` or `data.target`, propagates the error and changes nothing. A socket that already holds a key is left unchanged and nothing is sent. Otherwise the socket takes the key and the user id and the registry view changes only in that socket. Every authenticated connection receives the presence list recomputed after the change, plus a "joined the chat." message iff no registered connection had that user before. The caller receives the `{key, userId}` patch. For a registered socket, the new user is in the broadcast list and the socket itself receives it |
| Registry.Server.SignIn | src/server/index.js:57-67 | Login is posted with community 2 and device `Pave Demo`. A rejected login fails with `AUTH_FAILED`, sends nothing and leaves the socket unchanged. A successful response without `data` fails with the error raised while reading it, not `AUTH_FAILED`, and also changes nothing. Otherwise the outcome is exactly that of `auth!` with the received key |
| Registry.Server.CreateMessage | src/server/index.js:90-103 | Fails with `AUTH_REQUIRED` iff the socket has no user id, and then sends nothing. Otherwise it sends one chat message, without the system flag, from the sender's user with the given content and time, as the `pave` event. It goes to every registered authenticated socket exactly once and to no other |
| Accounts.FieldOf | src/server/index.js:79-80 | A field the account holds is read as it is; a field it lacks reads as `null` |
| Accounts.Project | src/server/index.js:78-82 | The projected object has exactly the requested fields as keys, each holding the account's value or `null` where the account has none |
| Accounts.AccountPatch | src/server/index.js:74-86 | The patch is for the requested id. It is a `$merge` iff the lookup found an account, or the response had no record and no fields were requested; the merge then holds exactly the requested fields, as read from the account. Otherwise it is an error node carrying the error's message |
| Accounts.UsersById | src/server/index.js:69-88 | Fails with `AUTH_REQUIRED` iff the socket has no key. Otherwise there is one patch per requested id, in order. A successful lookup yields a `$merge` of the projected fields for that id. A failed lookup, or a response without a record when fields are requested, yields `$set {$error: message}` for that id alone |

## Left out

- The Express static server, the WebSocket server and the Promise/callback wrapper around the listeners (src/server/index.js:133-147). They are I/O and asynchronous plumbing. Handlers are modelled as running to completion one at a time.
- The `pave` listener (src/server/index.js:111-112). The graph cache, the `Store`/`Router` query machinery and how patches are merged into clients' caches belong to the `pave`, `pave-subscription` and `live-socket` packages, which are not part of this model. Handlers are called directly with their parameters, and patches are returned as values.
- The identity service (`orgsync-api`) is network I/O. Each endpoint is a function parameter, so repeated requests in one handler get the same answer. In `usersById`, a duplicated id therefore gets the same patch twice.
- `socket.send` is a returned list of deliveries. Transport failures are not modelled.
- Timestamps (`new Date()`) are an input value.
- User ids are positive. A user id of 0, which the source would treat as unauthenticated, does not arise.
- Account values are JSON with integer numbers only. Floating-point values are not modelled.
- Accounts.Project: does not model prototype-inherited properties such as a requested field named `__proto__` or `constructor`, which JavaScript would read from `Object.prototype`.
- Accounts.UsersById: of the malformed account answers, only a missing record (`AccountMissing`) is modelled separately. Any other error raised while reading an answer is caught per id like a failed lookup, which `AccountRejected` covers.
- Registry.Server.SignIn: the value `store.run` hands back for the nested `auth!` query is taken to be `auth!`'s own outcome. The exact text of the `TypeError` raised by a login response without `data` is an input (`LoginMalformed`).
- Registry.Server.Auth: does not model a `/keys/me` answer whose `data.target` has no usable `id` (absent or `null`). In the source that answer throws nothing. The socket takes the key with a falsy user id, a "joined the chat." push referencing `usersById` `undefined` goes out with the presence list, and the caller gets `{key, userId: undefined}`. The connection then holds a key without a user, so later `auth!` calls do nothing and `createMessage!` fails. `KeyOwner` carries a positive user id, so the model cannot express this answer.
- Registry.Server.Open: requires that the socket not already be registered, since a connection opens once. The id counter belongs to the registry and steps by exactly 1. In the source it is underscore's process-wide counter, which any other caller of `_.uniqueId()` also advances, so successive socket ids need not be consecutive. No other property in the model depends on consecutive ids: they rely only on each new id being larger than every id handed out before.
- The browser client and the build configuration are not part of this model.
