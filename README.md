# Chat-room session protocol

A model of the chat-room server's session protocol from
`config/functions/bootstrap.js`. Every connected socket can send three events:

- `join`: claim a username in a room. The name must not already be taken in
  that room. On success the server greets the caller, tells the rest of the room
  and sends the whole room its new roster.
- `sendMessage`: relay a text to the sender's room.
- `disconnect`: drop the socket's records and tell the room.

The persistence service that keeps the chatter records is modelled as an
in-memory roster, `seq<Chatter>`, in insertion order. Each record carries the
identifier the store assigns, the username, the room, the status and the socket
id. The four store calls the protocol makes are `find`, `findOne`, `create` and
`delete`. `delete` removes every record that matches and returns them.

Files:

- `wrappers.dfy`: `Option`. It stands for a record that may be missing, or a
  JavaScript value that may be `undefined`.
- `chatter_store.dfy` (module `ChatterStore`): the `Chatter` record, the
  attribute filters, `Find`, `FindOne` and `Remove`. It also holds the lemmas
  about them: a delete loses no record, appending commutes with find and delete,
  and deleting keeps keys unique.
- `session.dfy` (module `Session`):
  - the query helpers, as pure functions of the roster;
  - the emitted events (target, event name, payload);
  - the store invariant `WellFormed`: usernames are unique within a room,
    identifiers are unique, and every record is `ONLINE`;
  - the class `ChatServer`. It holds the roster, the next store identifier and
    an append-only outbox of emitted events. Its methods are the two mutating
    helpers and the three handlers. Each handler returns the list of
    acknowledgement-callback calls it made.
- `walkthrough.dfy` (module `Walkthrough`): a client that replays one room's
  life. alice joins room "5", a second alice is refused, alice speaks, and
  alice's socket closes twice. It checks each step's events from the handlers'
  contracts alone.

Behaviour kept as the code has it:

- Double acknowledgement. After an error acknowledgement the handler calls the
  callback again with no argument. `Join` and `SendMessage` return
  `[Some(error), None]` for an error and `[None]` for success. The transport
  delivers only the first call to the client. That is library behaviour and is
  not modelled.
- Disconnect roster target. The departure `message` goes to the first deleted
  record's room. The `roomInfo` that follows takes its target and its `room`
  field from the array of deleted records, not from a record, so both are
  `undefined` (`ToRoom(None)`, `RoomInfo(None, …)`). Only its `users` list is
  the first deleted record's room, read after the delete.
- `sendMessage` looks the sender up by the store's record identifier (`_id`),
  not by socket id.
- `join` does not check that the username or room is non-empty. No handler has
  a precondition beyond the store invariant.
- A `create` that returns nothing gets the error acknowledgement "user could not
  be created". `storeCreates` stands for the store's answer.

## Model

| member | source | states |
|---|---|---|
| `ChatterStore.Find` | config/functions/bootstrap.js:15 | `find(filter)` returns exactly the roster's records that match the filter, and never more records than the roster holds |
| `ChatterStore.FindOne` | config/functions/bootstrap.js:30 | `findOne(filter)` returns a record exactly when some record matches, and the record it returns is in the roster and matches |
| `ChatterStore.Remove` | config/functions/bootstrap.js:40 | after `delete(filter)` the roster holds exactly the old records that do not match |
| `ChatterStore.FindEmpty` | config/functions/bootstrap.js:57 | a `find` result has length 0 exactly when no record matches, both directions |
| `ChatterStore.FindRemovePartition` | config/functions/bootstrap.js:39-42 | the records `delete` returns plus the records it keeps are, as a multiset, exactly the old roster |
| `ChatterStore.RemoveUnmatched` | config/functions/bootstrap.js:108-110 | a delete that returns no record leaves the roster unchanged |
| `ChatterStore.RemoveIdempotent` | config/functions/bootstrap.js:108-110 | after a delete, no record matches the same filter, and deleting again changes nothing |
| `ChatterStore.FindAppend` | config/functions/bootstrap.js:62-77 | a `find` after a `create` returns the old matches, then the new record if it matches |
| `ChatterStore.RemoveAppend` | config/functions/bootstrap.js:39-42 | a delete after a create keeps what it kept before, plus the new record if it does not match |
| `ChatterStore.ConsUniqueBy` | config/functions/bootstrap.js:55-62 | a roster with one more record at its head has unique keys exactly when the rest does and the new key is unused |
| `ChatterStore.AppendUniqueBy` | config/functions/bootstrap.js:55-62 | a roster with one more record at its end has unique keys exactly when the old roster does and the new key is unused |
| `ChatterStore.RemoveKeepsUniqueBy` | config/functions/bootstrap.js:106-108 | deleting records never makes two remaining records share a key |
| `ChatterStore.FindOneById` | config/functions/bootstrap.js:29-32 | when identifiers are unique, `findOne` by identifier returns the one record that carries it |
| `Session.CheckUserExistsInRoom` | config/functions/bootstrap.js:14-17 | returns exactly the records holding the username in the room; it is empty exactly when the name is free there |
| `Session.CheckUserExists` | config/functions/bootstrap.js:29-32 | returns nothing exactly when no record has the identifier, otherwise a roster record with that identifier |
| `Session.GetUsersInRoom` | config/functions/bootstrap.js:34-37 | returns exactly the records of the room |
| `Session.JoinKeepsWellFormed` | config/functions/bootstrap.js:55-62 | creating an ONLINE record with a free username in its room and a fresh identifier keeps usernames unique per room and identifiers unique |
| `Session.LeaveKeepsWellFormed` | config/functions/bootstrap.js:106-108 | a delete keeps usernames unique per room and identifiers unique |
| `Session.JoinThenLeave` | config/functions/bootstrap.js:106-108 | a socket that held no record joins, then disconnects: the roster is restored exactly |
| `Session.ChatServer.CreateUser` | config/functions/bootstrap.js:19-27 | the store either appends one record with the given fields under the next identifier and returns it, or returns nothing and changes nothing |
| `Session.ChatServer.DeleteUserFromRoom` | config/functions/bootstrap.js:39-42 | removes exactly the records bound to the socket, returns exactly those, and loses no other record |
| `Session.ChatServer.Join` | config/functions/bootstrap.js:53-87 | keeps the store invariant. If the name is taken in the room: no state change and acks [error "already exists", none]. If the store creates nothing: no state change and acks [error "could not be created", none]. Otherwise: exactly one ONLINE record bound to the socket is appended, and three events follow in order: welcome to the socket, joined notice to the room without the sender, then roomInfo to the whole room with its post-create roster (the old members plus the new record). Acks are [none] |
| `Session.ChatServer.SendMessage` | config/functions/bootstrap.js:89-104 | the roster never changes. For a known identifier: one `message {user: username, text}` to that record's room, acks [none]. For an unknown one: nothing emitted, acks [error "doesn't exist", none] |
| `Session.ChatServer.Disconnect` | config/functions/bootstrap.js:106-123 | keeps the store invariant and removes exactly the records bound to the socket. With none: no state change at all, so a second disconnect is a no-op. Otherwise: the departure message to the first deleted record's room, then a roomInfo to an undefined room whose users are exactly that room's remaining records |

## Left out

- Socket.io server construction and the CORS and environment configuration (config/functions/bootstrap.js:44-51) are transport setup.
- `socket.join(user.room)` (line 65), membership bookkeeping inside the socket library, and delivery of emitted events to sockets are left out. The model records only each event's target.
- The persistence service's internals are modelled only as the in-memory roster. Its choice of identifiers is modelled as a counter.
- A store call that throws is left out. The handler's `catch` only logs, so the handler's remaining effects do not happen. The model treats every store call as completing.
- `console.log` calls are left out.
- Concurrency is left out. Each handler runs as one atomic step, so the check-then-create race between two simultaneous joins is not modelled.
- The ack callback being absent is left out. In the source, calling a missing callback throws and lands in the `catch`.
