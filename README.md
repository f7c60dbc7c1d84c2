# Relay registry and router, modelled in Dafny

This project models the core of a small real-time messaging relay. Clients
connect over socket.io and register a display name. The server keeps a
process-wide `users` map from socket id to username, and it broadcasts the
full list of names after every change. A client sends a direct message
addressed by name. The server looks the name up, then either delivers the
message and confirms it to the sender, or sends the sender an error.

Files:

- `wrappers.dfy`: the `Option` type used for "found" and "not found".
- `ordered_table.dfy` (module `OrderedTable`): a JavaScript `Map` as a
  sequence of `(key, value)` entries in insertion order. `Set`, `Get` and
  `Delete` follow `Map.prototype.set`, `Map.prototype.get` and
  `Map.prototype.delete` (sections 24.1.3.9, 24.1.3.6 and 24.1.3.3 of
  ECMA-262). Setting a present key replaces its value in place. Setting a new
  key appends it. Deleting keeps the other entries in order. `Values` is
  `Array.from(users.values())`, and `FirstKeyOf` is the first-match scan.
- `events.dfy` (module `Events`): socket ids, usernames and outbound events.
  Each event carries its destination. `Everyone` stands for `io.emit`.
  `Socket(id)` stands for `io.to(id).emit`, or for `socket.emit` to the
  socket being handled.
- `relay.dfy` (module `Relay`): the class `Server`, whose field `users` is the
  map. Its methods are the `register`, `sendMessage` and `disconnect`
  handlers, and each returns the events the handler would emit. `Route` is
  the specification of `sendMessage`. The lemmas cover the tie-break between
  sockets that share a name and the presence list after a disconnect.
  `Scenario` is a client: two users register, one messages the other, the
  recipient leaves, and a second message to it fails.

Behaviour of the code that the model keeps as written:

- The presence list is in insertion order and keeps duplicate names. A
  socket that re-registers keeps its original position.
- When several sockets share a name, the message goes to the socket whose
  entry was inserted first. A newcomer that takes a name already in use does
  not receive that name's messages while an earlier holder keeps the name.
  When the recipient of a name disconnects, its messages pass to the next
  entry holding that name (`NextHolderInherits`). So the newcomer becomes
  the recipient once every earlier holder has disconnected or re-registered
  under another name. An old socket that re-registers under the
  name keeps its early position, so it wins over newer holders of that name.
- After a socket disconnects, its name stays in the list when another socket
  still holds the same name (`RegisterThenDisconnect`).
- `sendMessage` reads the clock twice. So `receiveMessage` and `messageSent`
  carry separate timestamps, which need not be equal.
- `from` is relayed as the caller gives it. It is never checked against the
  sender's registered name.

## Model

| member | source | states |
|---|---|---|
| `OrderedTable.Get` | server.js:76 | the lookup finds nothing exactly when the socket id is absent; a hit returns a value stored under that id |
| `OrderedTable.Set` | server.js:32 | re-setting a present id leaves the key order unchanged; a new id is appended at the end; the id then maps to the new name; every entry with another id keeps its value and position |
| `OrderedTable.SetSpec` | server.js:32 | setting keeps socket ids distinct, and the lookup of every other id is unchanged |
| `OrderedTable.Delete` | server.js:77 | deleting an absent id leaves the table identical; deleting a present id removes exactly one entry |
| `OrderedTable.DeleteSpec` | server.js:77 | after deleting, ids stay distinct, the deleted id is absent, and the lookup of every other id is unchanged |
| `OrderedTable.DeleteTwice` | server.js:75-77 | a second delete of the same id changes nothing |
| `OrderedTable.DeleteIsWithout` | server.js:77 | deleting equals filtering out the entries with that id, so the remaining entries keep their insertion order |
| `OrderedTable.ValueAfterDelete` | server.js:77-81 | after a delete, a name is in the values list exactly when an entry with a different id holds it |
| `OrderedTable.Values` | server.js:36 | the broadcast name list has one name per entry, in insertion order, with duplicates kept |
| `OrderedTable.FirstKeyOf` | server.js:45-51 | the scan finds nothing exactly when no entry has the name; otherwise it returns the id of the earliest entry with that name, and no earlier entry has it |
| `Relay.NotOnline` | server.js:70 | the error text is `User "` followed by the requested name and then `" is not online`, so the name can be read back from the text |
| `Relay.Route` | server.js:41-72 | two events exactly when some registered socket has the name `to`: `receiveMessage` to the earliest such socket, then `messageSent` to the sender; each carries `from`, `to` and `message` unchanged with its own timestamp; otherwise one `error` to the sender with the text `User "<to>" is not online` |
| `Relay.Server.constructor` | server.js:13 | the registry starts empty |
| `Relay.Server.Register` | server.js:31-38 | the table becomes `Set(old table, socket, name)`, ids stay distinct, other sockets' names are unchanged, and exactly one `userList` is broadcast to everyone, holding all names in insertion order after the update |
| `Relay.Server.FindRecipient` | server.js:45-51 | the loop returns exactly `FirstKeyOf` of the registry: the id of the earliest entry whose name is `to`, or none exactly when no entry has that name |
| `Relay.Server.SendMessage` | server.js:41-72 | emits exactly what `Route` gives for the current registry; it has no `modifies` clause, so it never changes the registry |
| `Relay.Server.Disconnect` | server.js:75-83 | the entry is removed if present, and the table is unchanged if absent; the socket is absent afterwards; other sockets' names are unchanged; exactly one `userList` is broadcast with all names after the removal |
| `Relay.EarliestWins` | server.js:45-51 | of two sockets with the same name, the one inserted later is never the recipient |
| `Relay.ReRegisterKeepsPriority` | server.js:31-51 | a socket that re-registers a name keeps its position, and it becomes the recipient when no earlier entry has that name, even if later entries do |
| `Relay.NewcomerLoses` | server.js:31-51 | a new socket that registers a name already held is not the recipient for that name right after it registers |
| `Relay.NextHolderInherits` | server.js:45-51 | in any table with distinct ids: the earliest holder of a name is its recipient, and after that socket is deleted (`users.delete`), the next entry holding the name (no holder in between) becomes the recipient |
| `Relay.RegisterThenDisconnect` | server.js:31-83 | after `register(c, u)` the name `u` is listed; after `disconnect(c)` it is still listed exactly when another socket holds `u` |
| `Relay.Scenario` | server.js:27-84 | for any two distinct sockets with distinct names: the two registrations broadcast `[alice]` then `[alice, bob]`; alice's message is delivered to bob's socket and confirmed to alice, each with its own timestamp; bob's disconnect broadcasts `[alice]`; alice's next message to bob gives one `User "<bob>" is not online` error to alice |

## Left out

- Express static file serving, the `/` route and the `/health` endpoint (server.js:15-25): HTTP plumbing with no state.
- The `http` and socket.io setup, the `PORT` choice and `server.listen` (server.js:1-10, 86-88): process startup and I/O.
- The socket.io transport itself: emits are modelled as the returned event list, with the destination as a field of each event.
- `new Date().toLocaleTimeString()` (server.js:59, 67): a locale-dependent clock. The two timestamps are passed in as separate string parameters.
- `console.log` and the `connection` event (server.js:28): logging only. The `users.get` at server.js:76 also only feeds the log; `Get` models it, but no handler returns its result.
- Concurrency: handlers run one at a time on the event loop, so each handler is one atomic method call.
- Payload types: the handlers accept any JSON value for the username and for `from`, `to` and `message`. The model uses strings, so `===` is string equality and the error text concatenates strings. A `sendMessage` payload that cannot be destructured (for example `null`) throws in JavaScript. That path is not modelled.
- Socket ids are a non-empty string type. The transport never issues an empty id, so the truthiness test at server.js:53 coincides with "an entry was found".
