# Sphaira message negotiation and player roster, in Dafny

Sphaira is a multiplayer space game, with a client and a server written in C#
on the Lidgren transport. Every application message begins with a 16-bit
message-type code. Both sides refer to message types by name, and the codes
are decided by the server, as follows.

- The server gives each name a code when a handler is registered for it:
  the code is the name's position in registration order.
- A client sends the reserved code `0xffff` to ask for the table of names.
- The server answers with `0xffff`, a 16-bit count, and the names in order.
- The client rebuilds its name-to-code map and its code-indexed handler
  array from that answer.
- On top of this layer, the server tracks one player per connection:
  - each new player gets the smallest free id;
  - a roster (the count, then every id) is broadcast whenever a player joins
    or a departure is detected;
  - position reports are relayed to everyone else;
  - world-info requests are answered to the requester alone.

The project models these parts:

| file | module | models |
|---|---|---|
| `wire.dfy` | `Wire` | What crosses the wire: 16-bit codes, message-body fields, delivery modes, outgoing messages, and the Option/Result wrappers. |
| `type_table.dfy` | `TypeTable` | The name-to-code map shared by both registries, and the table payload: the server writes it and the client reads it. |
| `server_net.dfy` | `ServerNet` | The server's registry as a class. It has a map of handlers by name, a map of codes, a list of names and a list of handlers. Its data-message dispatch covers both the sentinel reply and the handler call. |
| `client_net.dfy` | `ClientNet` | The client's registry as a class. Its handlers are a nullable array indexed by code. The class covers registration, the table request, table rebuilding, dispatch, and the code written at the head of an outgoing message. |
| `negotiation.dfy` | `Negotiation` | The two registries run against each other: after one negotiation, the client's codes are the server's, and a message sent by name reaches the handler registered under that name. |
| `roster.dfy` | `Roster` | The player record and the smallest-free-id choice. It also defines what a roster message body is and the list queries the session code uses. |
| `server_program.dfy` | `ServerProgram` | The server's session state as a class. It covers get-or-create, adding a player, roster broadcast, the two message handlers, and the reconciliation step of the main loop. |

These choices shape the model:

- Handlers are type parameters, so they are opaque tokens.
- Connections are naturals, compared by identity.
- Floats (positions, radius, density, elapsed time) are raw bit patterns that are passed through and never computed on.
- A message the source sends is returned as a value. On the server it is a `Send`: its recipients, its body fields, its delivery mode and its channel. On the client it is an `Outgoing`: its payload, its delivery mode and its channel, because the client has only one peer.
- The transport's live connection list is a parameter.
- Where the source enumerates a `Dictionary`, the model lets the next entry be any remaining one. The proofs therefore hold for every enumeration order.

## Model

| member | source | states |
|---|---|---|
| `TypeTable.PositionsSnoc` | Sphaira.Server/Network/NetWrapper.cs:57-60 | Adding a fresh name under the count so far keeps "every name's code is its position, and no other keys". |
| `TypeTable.PositionsInverse` | Sphaira.Client/Network/NetWrapper.cs:100-106 | With distinct names and at most 2^16 of them, the code of any key is in range, and the name at that position is the key. |
| `TypeTable.PositionsUnique` | Sphaira.Client/Network/NetWrapper.cs:98-112 | Two maps that both give each of the same names its position are equal. The client's rebuilt map is therefore the server's. |
| `TypeTable.ReadStrs` | Sphaira.Client/Network/NetWrapper.cs:103-104 | Reading n strings from a payload yields exactly n names, and the i-th field read is a string carrying the i-th name. |
| `TypeTable.Parse` | Sphaira.Client/Network/NetWrapper.cs:100-104 | A parsed table has a leading 16-bit count equal to the number of names, followed by exactly those names as string fields. |
| `TypeTable.ReadStrsOfStrs` | Sphaira.Client/Network/NetWrapper.cs:103-104 | Reading back the string fields of any list of names gives that list, whatever follows it. |
| `TypeTable.Encode` | Sphaira.Server/Network/NetWrapper.cs:66-73 | The table is one field longer than the name list. It starts with the count of names cut to 16 bits, and field i+1 is the i-th name as a string. |
| `TypeTable.ParseEncode` | Sphaira.Server/Network/NetWrapper.cs:66-73 | For fewer than 2^16 names, the client reads back exactly the names the server wrote, in order. |
| `TypeTable.ParseEncodeWraps` | Sphaira.Server/Network/NetWrapper.cs:68 | With exactly 2^16 names, the 16-bit count wraps to 0 and the client reads an empty table. |
| `ServerNet.IndexOf` | Sphaira.Server/Network/NetWrapper.cs:62 | The position found holds the name, and the name does not occur before it. |
| `ServerNet.RegisterNewKeepsTables` | Sphaira.Server/Network/NetWrapper.cs:57-60 | Appending a new name, under the old count as its code, and its handler keeps the registry invariant. The new name's first position is the old count. |
| `ServerNet.RegisterKnownKeepsTables` | Sphaira.Server/Network/NetWrapper.cs:61-63 | Replacing the handler at a known name's position keeps the invariant, and the name's code is that position. |
| `ServerNet.MessageRegistry.constructor` | Sphaira.Server/Network/NetWrapper.cs:13-18 | All four tables start empty, and the invariant holds. |
| `ServerNet.MessageRegistry.RegisterMessageHandler` | Sphaira.Server/Network/NetWrapper.cs:49-64 | The name is bound to the handler. A new name is appended to the names and handlers under the old count as its code. A known name keeps its code, and only its slot changes. The invariant is preserved: distinct names, each name's code is its position, and each slot holds its name's handler. |
| `ServerNet.MessageRegistry.CreateMessage` | Sphaira.Server/Network/NetWrapper.cs:37-42 | A registered name starts the message with its code, which leads back to the name. An unregistered name is a failed lookup. |
| `ServerNet.MessageRegistry.SendMessageTypes` | Sphaira.Server/Network/NetWrapper.cs:66-73 | The written table is the count followed by every name in registration order. For fewer than 2^16 names, parsing it gives back the names. |
| `ServerNet.MessageRegistry.Dispatch` | Sphaira.Server/Network/NetWrapper.cs:96-112 | The sentinel gets exactly one reply, to the sender only: the sentinel, then the table, sent reliable and unordered. Any other code invokes the handler of the name at that position exactly when the code is below the number of handlers. Every other code logs "Unhandled", including after a successful call. |
| `ClientNet.MessageRegistry.constructor` | Sphaira.Client/Network/NetWrapper.cs:14-20 | No handlers, no codes, a null handler array, and the invariant holds. |
| `ClientNet.MessageRegistry.RegisterMessageHandler` | Sphaira.Client/Network/NetWrapper.cs:72-83 | The name is bound to the handler, and every other name's handler is unchanged. A negotiated name gets the handler in its slot, and every other slot is unchanged. A name that is not negotiated leaves the array untouched. A negotiated name while the array is null fails with a null dereference. |
| `ClientNet.MessageRegistry.RequestMessageTypes` | Sphaira.Client/Network/NetWrapper.cs:85-91 | The request is the bare sentinel, sent reliable and ordered on channel 0. The handler array becomes null, and nothing else changes. |
| `ClientNet.MessageRegistry.ReceiveMessageTypes` | Sphaira.Client/Network/NetWrapper.cs:98-112 | The result is a fresh array with one slot per received name. The code map is exactly the received names with their positions, so nothing from an earlier table survives. Each slot holds the handler registered under its name, or is empty. |
| `ClientNet.MessageRegistry.Dispatch` | Sphaira.Client/Network/NetWrapper.cs:135-152 | The sentinel means a table rebuild and never a handler call. A handler is invoked exactly when the array exists, the code is in range and the slot is bound. It is the handler registered under the negotiated name of that code. Everything else is dropped as unhandled with its code. |
| `ClientNet.MessageRegistry.CheckData` | Sphaira.Client/Network/NetWrapper.cs:135-152 | A sentinel message rebuilds the tables from its parsed table. Any other message leaves codes and slots unchanged and is dispatched as above. |
| `ClientNet.MessageRegistry.SendMessage` | Sphaira.Client/Network/NetWrapper.cs:56-70 | A negotiated name starts the message with its code, followed by the body, and the code leads back to the name. The message goes with the caller's delivery mode and channel. An un-negotiated name is a failed lookup. |
| `Negotiation.Negotiate` | Sphaira.Client/Network/NetWrapper.cs:85-112 | After the request, the server's reply and the client's rebuild, the client's negotiated names and code map equal the server's. The client's slot for each of the server's names holds the client's handler for that name. |
| `Negotiation.DeliverToServer` | Sphaira.Server/Network/NetWrapper.cs:107-109 | Once negotiated, a message the client sends by a registered name invokes exactly the server handler last registered under that name. |
| `Negotiation.RegisterAtSentinel` | Sphaira.Server/Network/NetWrapper.cs:57-59 | When the server already holds 65535 names, the next new name gets the sentinel's code 0xffff. A client receiving a message started under that name treats it as the answer to a table request. |
| `Negotiation.DeliverToClient` | Sphaira.Client/Network/NetWrapper.cs:143-151 | Once negotiated, a message the server starts by name reaches the client's handler for that name exactly when one is registered. Otherwise it is unhandled with the server's code. |
| `Roster.IdSetSize` | Sphaira.Server/Program.cs:41-42 | There are no more ids in use than players. |
| `Roster.BelowSize` | Sphaira.Server/Program.cs:41 | The candidate range 0..n-1 has n members. |
| `Roster.AllUsedBelow` | Sphaira.Server/Program.cs:41-42 | If every id from 0 to x is in use, there are more than x players. So the search over 0..Count always finds a free id. |
| `Roster.FirstFreeId` | Sphaira.Server/Program.cs:41-42 | The id chosen is free, every smaller id is in use, and it is at most the number of players. |
| `Roster.AddWellFormed` | Sphaira.Server/Program.cs:44-46 | Adding a player under a fresh connection with a free id keeps ids pairwise distinct and grows the map by one. |
| `Roster.RosterSoFarStart` | Sphaira.Server/Program.cs:56 | A body holding only the count is a roster with nothing written yet. |
| `Roster.EntriesAppend` | Sphaira.Server/Program.cs:59 | Writing one more field adds exactly that field to the entries after the count. |
| `Roster.IdFieldsFresh` | Sphaira.Server/Program.cs:58-60 | With distinct ids, a player's id differs from those of all other players. |
| `Roster.RosterSoFarStep` | Sphaira.Server/Program.cs:58-60 | Writing one more player's id keeps the entries distinct. They remain exactly the ids of the players written so far. |
| `Roster.RosterSoFarDone` | Sphaira.Server/Program.cs:53-62 | Once every player is written, the body is a roster: the count, then each player's id exactly once. |
| `Roster.RosterIgnoresPosition` | Sphaira.Server/Program.cs:127 | A roster lists ids only, so storing a position leaves it a roster of the players. |
| `Roster.RemovingStep` | Sphaira.Server/Program.cs:149-151 | Removing a pending disconnected player's connection keeps exactly the players that are live or still pending. |
| `Roster.RemovingDone` | Sphaira.Server/Program.cs:148-151 | When nothing is pending, exactly the players with a live connection are kept, and ids stay distinct. |
| `Roster.RemovingChanged` | Sphaira.Server/Program.cs:146-148 | Some player is removed exactly when the disconnected set is non-empty. |
| `Roster.Disconnected` | Sphaira.Server/Program.cs:146 | A player is in the result exactly when it is a current player whose connection is not in the live list. |
| `Roster.RemoveFirst` | Sphaira.Server/Program.cs:129-130 | Removing a present connection shortens the list by one. Removing an absent one changes nothing. |
| `Roster.RemoveFirstCount` | Sphaira.Server/Program.cs:129-130 | The result is the list minus one occurrence of the connection: the same multiset of connections, with one copy removed. |
| `Roster.RemoveFirstDistinct` | Sphaira.Server/Program.cs:129-130 | In a list without repeats, the sender is gone, and every other connection is kept. |
| `ServerProgram.GameServer.constructor` | Sphaira.Server/Program.cs:31-32 | The world parameters are stored, and there are no players. |
| `ServerProgram.GameServer.UpdatePlayers` | Sphaira.Server/Program.cs:53-62 | Sends "PlayerInfo" to the given recipients, reliable and ordered on channel 0. The body is the player count followed by each current player's id exactly once. |
| `ServerProgram.GameServer.AddPlayer` | Sphaira.Server/Program.cs:39-51 | The new player has the given connection, the origin position, and the smallest id no current player holds, which is at most the count. Only the new entry is added, ids stay distinct, and the new roster goes to all live connections. |
| `ServerProgram.GameServer.GetPlayer` | Sphaira.Server/Program.cs:34-37 | An existing player is returned with nothing changed and nothing sent. Otherwise exactly one player is added, as by AddPlayer: it has this connection, the origin as its position and the smallest free id, every other record is kept, and one roster is sent. |
| `ServerProgram.GameServer.OnWorldInfo` | Sphaira.Server/Program.cs:114-123 | The sender has a player afterwards. A known sender changes nothing. A new sender gets a record with its connection, the origin and the smallest free id, and every other record is kept. The last message goes to the sender alone, reliable and ordered. It carries the seed, radius, density, elapsed time and the sender's id. It is preceded by a roster exactly when the sender was new. |
| `ServerProgram.GameServer.SetPosition` | Sphaira.Server/Program.cs:127 | Only the given player's position changes. |
| `ServerProgram.GameServer.OnPlayerPos` | Sphaira.Server/Program.cs:125-138 | The sender's record afterwards holds the received position. Every other player is unchanged. The relay goes to the live connections without the sender, sequenced on channel 1. It carries the sender's id and position, and is preceded by a roster exactly when the sender was new. |
| `ServerProgram.GameServer.Reconcile` | Sphaira.Server/Program.cs:145-154 | Exactly the players with a live connection are kept, with their records unchanged. A roster of the remaining players goes to the live connections if and only if some player was removed, and at most one message is sent. |

## Left out

- The Lidgren transport is not modelled: starting and connecting, `ReadMessage`/`Recycle`, and the `Thread.Sleep` polling loops. These are I/O, and the waits have no bound. Each data message is modelled as one step.
- Neither `CheckForMessages` while-loop is modelled. Each is a read loop over transport messages: server `NetWrapper.cs:80-119`, client `NetWrapper.cs:119-159`. One iteration of the `Data` branch is the step the model keeps.
- The `Status` getters, the debug and status-changed branches, and all `Console`/`Trace` output are left out. They only print. The server's "Unhandled" line is kept as a flag on the dispatch step.
- The console prompts, the float range checks and the seed fallback in the server's `Main` (`Program.cs:66-104`) are interactive I/O. The seed, radius and density are constructor parameters.
- Float values are bit patterns. `ReadFloat`, `Vector3` and the `Stopwatch` reading are passed through and never computed on.
- `NetWrapper.RegisterIdentifier`, `NetWrapper.Connections` and the server's name-based `SendMessage` overloads are not part of this model. They are called from `Sphaira.Server/Program.cs:55`, `112` and `129` but not defined in `Sphaira.Server/Network/NetWrapper.cs`. The live connection list is a parameter, and a sent message is a `Send` value.
- The server wrapper's `SendMessage` and `StartListening` are not modelled. They pass a message or a configuration straight to the transport.
- ClientNet.MessageRegistry.CheckData: malformed table payloads are not modelled. It requires that a sentinel message carries a well-formed table of distinct names. A short or ill-typed payload would make the C# reader throw, and the server never sends one.
- ClientNet.MessageRegistry.ReceiveMessageTypes: requires distinct names, fewer than 2^16 of them, so it does not model the exception `Dictionary.Add` raises part way through a table with a repeated name. The server's names are always distinct.
- ServerProgram.GameServer.GetPlayer: requires fewer than 65535 players, and so do `AddPlayer`, `OnWorldInfo` and `OnPlayerPos`. The model therefore does not cover the 16-bit wrap of the roster count. The transport is started with a cap of 128 connections (`Program.cs:140`).
- ServerProgram.GameServer.GetPlayer: looks the connection up as a map key. The C# code searches the records for one whose connection matches, which is the same record because every key is its record's connection.
- ServerProgram.GameServer.OnPlayerPos: states the relay recipients as `RemoveFirst(connections, sender)`. The meaning of that list (the connections less one copy of the sender; with no repeats, everyone but the sender) is stated by `Roster.RemoveFirstCount` and `Roster.RemoveFirstDistinct`, not repeated in the method's contract.
- The order of a roster's ids is not modelled. It is the `Dictionary`'s enumeration order, which carries no meaning, and the contracts hold for every order.
- ClientNet.MessageRegistry.SendMessage: takes the sequence channel as a natural number. The C# parameter is an `int`, and the transport's rejection of a negative or out-of-range channel is not modelled. The overload without a body builder is the case of an empty body.
- Registering the 65536th name on the server is modelled: it gets the code `0xffff`, the sentinel's code (`Negotiation.RegisterAtSentinel`). The model does not go on to state what the client's table rebuild then makes of such a message's body. The facts that relate codes back to names are stated only for at most 2^16 names.
- ServerNet.MessageRegistry.Dispatch: assumes the invoked handler returns, and so does `ClientNet.MessageRegistry.Dispatch`. A handler that throws is not modelled. Neither receive loop has a `catch` around the call (server `NetWrapper.cs:108`, client `NetWrapper.cs:146`), so the exception leaves the receive loop. The server's "Unhandled" line is then not written and the message is not recycled.

Two behaviours of the code are kept as written:

- The server answers a table request reliable and unordered (`NetWrapper.cs:103`), not reliable and ordered.
- The server logs "Unhandled message type" even after it has invoked a handler, because its `Data` branch has no `break` after the call (`NetWrapper.cs:107-111`).
