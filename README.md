# ClassChat: session registry, command dispatcher, message router and input classifier

ClassChat is a TCP chat room in C#. The server keeps a registry that maps each
connection to a `User` (an id, a name and a mutable group). It answers five
built-in commands (`help`, `host`, `users`, `joingroup`, `leavegroup`). It
relays group broadcasts and direct messages. A liveness sweep evicts
connections that no longer accept a write. The client classifies each typed
line as one of four things: a local directive (`ip`, `clear`, `exit`), a
server command, a direct message `@name text`, or a group message. A group
message is the line prefixed with `G@group:`.

This project models those decisions in Dafny and proves what they promise:

- which registry entries change;
- the exact reply texts;
- who receives a relayed message, with which group tag;
- how a typed line is split into receiver and text;
- that the client and the server agree on the command table, and on the registration frame whenever the user JSON does not itself contain the "<user>" marker.

Layout, one module per concern:

| file | module | models |
|---|---|---|
| `wrappers.dfy` | `Wrappers` | `Option` |
| `text.dfy` | `Text` | the .NET string operations the code uses: `IndexOf`, `StartsWith` (as an ordinal, character-by-character prefix test), `TrimEnd('\0')`, `Replace(p, "")`, `Split(c, 2)` |
| `messages.dfy` | `Messages` | `MessageType`, the `Message` record, `ServerResponse`, `CommandResult` |
| `users.dfy` | `Users` | the `User` class, and read-only views of a registry in enumeration order |
| `application.dfy` | `Application` | `ClassChatApplication`: the command table and its five handlers |
| `server.dfy` | `Server` | `ClassChatServer`: registration, sweep, target resolution and the routing body |
| `client.dfy` | `Client` | `ClassChatClient`: `IsCommand`, the input classifier, envelope construction, listing and response intake |
| `protocol.dfy` | `Protocol` | lemmas joining the client to the server |

Modelling choices:

- **`User` is a class.** `id` and `name` are `const` and only `group` is a `var`, as in `User.cs`. The server's `clients` and the application's `userRegistry` are two maps that hold the same `User` objects, so a group change made through one is seen through the other. `ChatServer.Valid()` says the two maps are equal and that no two handles share a `User` object (every registration deserialises a new one).
- **Connections are handles.** A `TcpClient` becomes a `Handle` (a `nat`). Dictionary enumeration order is unspecified. Each operation that enumerates a registry therefore takes an `order: seq<Handle>`. `IsSnapshot` requires it to list every key exactly once. The pure specifications work on `Snapshot(registry, order)`, a sequence of `Entry(handle, UserRecord)` values.
- **Writes are a log.** A network write becomes an element appended to the server's `writes`. `Deliver(target, ServerResponse)` is a relayed or reply envelope. `Listing(target, names)` is the command listing sent at registration. On the client, `sent` is the log of envelopes written.
- **Outside inputs are parameters.** The JSON deserialiser is a parameter `decode: string -> Option<UserRecord>`, where `None` means it throws. The liveness probe is `probe: Handle -> bool`. The read sizes are `size: nat` parameters. The resolved host address is the `hostAddress` constant.
- **Strings are `seq<char>`.** `Environment.NewLine` is taken as `"\n"`.

A group broadcast compares group strings, and `"" == ""`, so a sender in no
group reaches every other user who is also in no group
(`Protocol.UngroupedBroadcastScenario`, a four-user example). A client outside any group can send
such a broadcast by typing `G@name:text` (`Client.UngroupedGroupSyntax`); the
server ignores the receiver name of a group broadcast.

The server removes every "<user>" from the whole registration text, not only
the two framing markers. The client writes the typed username into the JSON
unchanged, so a username that contains "<user>" is registered with the marker
cut out of it. The registration round trip is therefore proved only for JSON
that does not contain the marker.

## Model

| member | source | states |
|---|---|---|
| Users.User.constructor | ClassChatServer/Users/User.cs:9-14 | the new user's id, name and group are exactly the arguments; id and name are `const`, so only group can ever change |
| Users.User.ToString | ClassChatServer/Users/User.cs:16-19 | the string form of a user is exactly its name |
| Users.SnapshotEntry | ClassChatServer/Core/ClassChatServer.cs:107 | an entry of an enumeration of the registry is a registered handle paired with the current view of its user |
| Users.SnapshotDistinct | ClassChatServer/Core/ClassChatServer.cs:150 | an enumeration of the registry that lists every key once repeats no handle |
| Users.SnapshotHas | ClassChatServer/Core/ClassChatServer.cs:150 | an enumeration that lists every key visits every registered user as its current view |
| Text.IndexOf | ClassChatServer/Core/ClassChatServer.cs:129 | the result is -1 exactly when the character is absent; otherwise it is the position of the character's first occurrence |
| Text.FirstWord | ClassChatServer/Core/ClassChatServer.cs:128-133 | the command token is a space-free prefix of the text, and it is either the whole text or is followed by a space |
| Text.FirstWordOf | ClassChatServer/Core/ClassChatServer.cs:128-133 | a space-free word is the token both of itself and of itself followed by a space and any rest |
| Text.SplitFirst | ClassChatServer/Core/ClassChatClient.cs:93 | a two-segment split exists exactly when the separator occurs; the segments rebuild the input around its first separator |
| Text.SplitFirstOf | ClassChatServer/Core/ClassChatClient.cs:105 | splitting `a + c + b` where `a` has no `c` gives back `a` and `b` |
| Text.TrimTrailingNul | ClassChatServer/Core/ClassChatServer.cs:207 | the result is a prefix without a trailing NUL, and everything cut off is NUL |
| Text.TrimUndoesPadding | ClassChatServer/Core/ClassChatServer.cs:200-207 | trimming a zero-filled buffer gives back a payload that does not end in NUL |
| Text.FirstWordIs | ClassChatServer/Core/ClassChatServer.cs:128-133 | a space-free word is the command token of a text exactly when it is the whole text or is followed there by a space |
| Text.RemoveAll | ClassChatServer/Core/ClassChatServer.cs:212 | removing a pattern never lengthens the text and only drops characters of it (the result's multiset is contained in the input's) |
| Text.RemoveAllAbsent | ClassChatServer/Core/ClassChatServer.cs:212 | removing a pattern that does not occur changes nothing |
| Text.RemoveAllTrailing | ClassChatServer/Core/ClassChatServer.cs:212 | if the pattern's first character does not recur in it, removal deletes exactly a trailing copy from a pattern-free text |
| Text.RemoveAllFramed | ClassChatServer/Core/ClassChatServer.cs:212 | removing the marker from `marker + s + marker` gives `s` when `s` has no marker |
| Application.Commands | ClassChatServer/ClassChatApplication.cs:24-31 | the table's keys are exactly help, host, users, joingroup and leavegroup, each bound to its own handler |
| Application.HelpNamesEveryCommand | ClassChatServer/ClassChatApplication.cs:50-62 | the help text has one line per table name, in listing order, and the i-th line begins with an opening quote followed by the i-th name |
| Application.AppendLinesJoined | ClassChatServer/ClassChatApplication.cs:53-60 | appending lines one at a time to a builder gives the builder followed by every line, in order, each terminated by the newline |
| Application.CommandTableExact | ClassChatServer/ClassChatApplication.cs:24-31 | the table has exactly the five names help, host, users, joingroup and leavegroup; the listing holds each once; every handler is reachable |
| Application.IsMessageRequest | ClassChatServer/ClassChatApplication.cs:40-43 | holds iff the text starts with '@' |
| Application.IsGroupMessageRequest | ClassChatServer/ClassChatApplication.cs:45-48 | holds iff the text starts with "G@" |
| Application.OthersExact | ClassChatServer/ClassChatApplication.cs:76-81 | the users listing holds exactly the entries whose id differs from the caller's, so never the caller |
| Application.OthersDistinct | ClassChatServer/ClassChatApplication.cs:76-81 | the listing repeats no handle when the enumeration repeats none |
| Application.ListingStep | ClassChatServer/ClassChatApplication.cs:76-81 | one more user of the enumeration appends its "@Name" line exactly when its id is not the caller's |
| Application.JoinGroupArgument | ClassChatServer/ClassChatApplication.cs:89-98 | `joingroup` alone or with an empty name is rejected with "Invalid Group!" and no change; `joingroup g` sets the group to g, adds g to the set of groups and replies "Joined Group [g]" |
| Application.JoinGroupIdempotent | ClassChatServer/ClassChatApplication.cs:95-98 | repeating a `joingroup` leaves the group and the set of groups as the first call left them and gives the same reply |
| Application.LeaveGroupClears | ClassChatServer/ClassChatApplication.cs:101-109 | `leavegroup` empties the group and keeps the set of groups; from a group g it replies "You have left your group [g]"; a second one replies "You are not in a group!" and changes nothing |
| Application.ReadOnlyHandlers | ClassChatServer/ClassChatApplication.cs:50-85 | `help`, `host` and `users` change neither the caller's group nor the set of groups |
| Application.ChatApplication.constructor | ClassChatServer/ClassChatApplication.cs:14-15 | the application starts with an empty registry and no groups |
| Application.ChatApplication.ShowCommands | ClassChatServer/ClassChatApplication.cs:50-62 | `help` succeeds, whoever asks, with the five help lines joined front to back, each followed by a newline |
| Application.ChatApplication.ShowHost | ClassChatServer/ClassChatApplication.cs:64-67 | `host` succeeds, whoever asks, with "Host:[", the server's address, then "]" |
| Application.ChatApplication.ShowUsers | ClassChatServer/ClassChatApplication.cs:69-85 | the reply is "You are the only active user at this time!" when at most one user is registered; otherwise "\nActive Users:" followed by one "@Name" line per other-id user, in enumeration order |
| Application.ChatApplication.TryJoinGroup | ClassChatServer/ClassChatApplication.cs:87-99 | the reply and the caller's new group and set of groups are those of the join effect on the old state; no other user's group changes |
| Application.ChatApplication.TryLeaveGroup | ClassChatServer/ClassChatApplication.cs:101-109 | the reply and the caller's new group are those of the leave effect on the old state; the set of groups and other users are unchanged |
| Application.ChatApplication.Dispatch | ClassChatServer/Core/ClassChatServer.cs:136-138 | running a table entry gives the reply and state of that handler on the old registry and group state; other users are unaffected |
| Server.IsRegistrationRequest | ClassChatServer/Core/ClassChatServer.cs:257-260 | a read is a registration iff its first six characters are "<user>" |
| Server.Admit | ClassChatServer/Core/ClassChatServer.cs:204-219 | an empty read is exactly `EmptyRead`; an unmarked one exactly `NotRegistration`; a marked payload that does not decode is exactly `Malformed`, whether or not the handle is present, since decoding comes before the presence test; a decodable one from a present handle is exactly `AlreadyRegistered`; registration succeeds iff the read is non-empty, the trimmed text starts with "<user>", the marker-free payload decodes, and the handle is not yet registered, and then with the decoded user |
| Server.ChatServer.constructor | ClassChatServer/Core/ClassChatServer.cs:18 | the server starts with no clients and no writes, sharing the application's empty registry |
| Server.ChatServer.TryRegisterClient | ClassChatServer/Core/ClassChatServer.cs:193-228 | the outcome is the admission decision; on success a fresh user is added under the handle to both registries, nothing else changes, and the command listing is written to that handle; otherwise nothing changes |
| Server.SweepEvicts | ClassChatServer/Core/ClassChatServer.cs:84-96 | after a sweep every failed handle is gone, every live one keeps its user, and every enumeration of the rest visits only live, formerly registered handles |
| Server.ChatServer.Sweep | ClassChatServer/Core/ClassChatServer.cs:84-96 | both registries become exactly the entries whose probe succeeds; writes and groups are unchanged |
| Server.MembersExact | ClassChatServer/Core/ClassChatServer.cs:150-158 | the broadcast recipients are exactly the entries with another id and the sender's group |
| Server.MembersOfRegistry | ClassChatServer/Core/ClassChatServer.cs:149-158 | over a whole enumeration, a handle is a recipient iff it is registered and its user has another id and the sender's group |
| Server.SelectionStep | ClassChatServer/Core/ClassChatServer.cs:150-158 | one more user of the enumeration adds its handle to the recipients exactly when its id differs and its group matches |
| Server.ChatServer.SelectGroupMembers | ClassChatServer/Core/ClassChatServer.cs:149-158 | the collected handles are those of the broadcast recipients, in enumeration order |
| Server.HandlesAt | ClassChatServer/Core/ClassChatServer.cs:156 | the collected handles correspond one for one, in order, with the recipients |
| Server.DeliveriesAt | ClassChatServer/Core/ClassChatServer.cs:163-170 | the i-th write goes to the i-th recipient, carries the original message unchanged, and is tagged with that recipient's group |
| Server.MembersAddressed | ClassChatServer/Core/ClassChatServer.cs:163-166 | every recipient handle is registered, and its user's current group is the group recorded for it |
| Server.BroadcastOnlyToGroup | ClassChatServer/Core/ClassChatServer.cs:149-170 | every broadcast write carries the original message and the sender's group, never goes to the sender, and goes to a user with another id in the sender's group |
| Server.RegistryBroadcastOnlyToGroup | ClassChatServer/Core/ClassChatServer.cs:149-170 | over an enumeration of the whole registry, every write of a registered sender's broadcast goes to a registered handle other than the sender, carrying the original message and the sender's group |
| Server.BroadcastReachesGroup | ClassChatServer/Core/ClassChatServer.cs:161-170 | every other-id user in the sender's group receives the original message tagged with its group |
| Server.ChatServer.SendToEach | ClassChatServer/Core/ClassChatServer.cs:161-170 | the writes grow by one delivery per recipient, in order, each tagged with that recipient's current group |
| Server.ChatServer.RouteBroadcast | ClassChatServer/Core/ClassChatServer.cs:147-172 | a broadcast appends exactly the deliveries to the recipients selected from the registry as it was |
| Server.FirstNamedExact | ClassChatServer/Core/ClassChatServer.cs:230-241 | resolution fails exactly when no entry has the receiver's name; otherwise it finds the earliest entry with that name |
| Server.FirstNamedIn | ClassChatServer/Core/ClassChatServer.cs:232-236 | a resolved target is one of the entries searched |
| Server.ChatServer.FindMessageTarget | ClassChatServer/Core/ClassChatServer.cs:230-241 | the target is the first match in enumeration order; there is none iff no registered user has the receiver's name; a found target is registered under that name |
| Server.ChatServer.RouteDirect | ClassChatServer/Core/ClassChatServer.cs:173-184 | a direct message appends one delivery to the resolved target, tagged with its group, or nothing when no user has that name |
| Server.ChatServer.RouteCommand | ClassChatServer/Core/ClassChatServer.cs:127-146 | a known token runs its handler and appends exactly one reply, from SERVER to the sender, tagged with the sender's group after the handler; an unknown token writes nothing and changes nothing |
| Server.ChatServer.Route | ClassChatServer/Core/ClassChatServer.cs:125-185 | each message kind has its routing effect; only a command can change a group; other users' groups never change; the two registries stay one |
| Client.IsCommand | ClassChatServer/Core/ClassChatClient.cs:175-191 | a line is a command iff some space-free received name is the whole line or is followed in it by a space |
| Client.IsCommandToken | ClassChatServer/Core/ClassChatClient.cs:175-191 | a line is a command iff its first word is one of the received names, whatever follows the first space |
| Client.PromptPrefix | ClassChatServer/Core/ClassChatClient.cs:65 | the prompt tag is empty outside a group, and is the group followed by '@' inside one |
| Client.GroupHandle | ClassChatServer/Core/ClassChatClient.cs:70 | the qualifying prefix is empty outside a group, and is "G@", the group, then ':' inside one |
| Client.CommandMessage | ClassChatServer/Core/ClassChatClient.cs:204-207 | a command envelope has status 1, the username as sender, SERVER as receiver, the typed line as text, and kind Command |
| Client.DirectMessage | ClassChatServer/Core/ClassChatClient.cs:93-95 | a direct envelope exists iff the line has a space; it rebuilds the line as "@" + receiver + " " + text, with a space-free receiver |
| Client.GroupMessage | ClassChatServer/Core/ClassChatClient.cs:105-107 | a group envelope exists iff the qualified line has a ':'; it rebuilds that line as "G@" + receiver + ":" + text, with a ':'-free receiver |
| Client.Classify | ClassChatServer/Core/ClassChatClient.cs:72-112 | only non-empty lines that are not directives are sent, always with status 1 from the user; each kind of envelope rebuilds the typed or qualified line |
| Client.DirectivesStayLocal | ClassChatServer/Core/ClassChatClient.cs:72-78 | an empty line sends nothing, and ip, clear and exit are handled locally |
| Client.CommandPriority | ClassChatServer/Core/ClassChatClient.cs:79-88 | a line whose token is a known command is sent as a command, even when it looks like a message |
| Client.DirectMessageSplit | ClassChatServer/Core/ClassChatClient.cs:89-96 | "@name text" is sent as a direct message to name with text as its text |
| Client.DirectWithoutSpaceSendsNothing | ClassChatServer/Core/ClassChatClient.cs:91-99 | "@name" without a space sends nothing |
| Client.GroupMessageSplit | ClassChatServer/Core/ClassChatClient.cs:101-107 | inside a group without ':' in its name, a plain line is sent as a group broadcast to that group with the whole line as its text |
| Client.UngroupedGroupSyntax | ClassChatServer/Core/ClassChatClient.cs:101-107 | outside a group, "G@name:text" is itself sent as a group broadcast addressed to name |
| Client.Display | ClassChatServer/Core/ClassChatClient.cs:129-139 | a command reply shows its text alone; any other message shows "<", the sender, ">: " and then its text |
| Client.ChatClient.constructor | ClassChatServer/Core/ClassChatClient.cs:16-22 | a new client has no group and no command names, and has sent nothing |
| Client.ChatClient.ReceiveCommandListing | ClassChatServer/Core/ClassChatClient.cs:46-55 | a zero-size read fails the session; otherwise a decoded listing is appended to the command names, and a null one adds nothing |
| Client.ChatClient.HandleInput | ClassChatServer/Core/ClassChatClient.cs:69-112 | the action is the classification of the line in the current group with the current names; a sent envelope is appended to the log |
| Client.ChatClient.ReceiveResponse | ClassChatServer/Core/ClassChatClient.cs:117-144 | a zero-size read is skipped; otherwise the message is shown and the client's group becomes the response's group tag |
| Protocol.RegistrationFrame | ClassChatServer/Core/ClassChatClient.cs:41-42 | the client's registration text starts with the server's marker and ends in '>' |
| Protocol.RegistrationRoundTrip | ClassChatServer/Core/ClassChatServer.cs:207-212 | when the JSON does not contain "<user>", the server recovers exactly the client's JSON from a framed registration in a zero-filled buffer |
| Protocol.FramedRegistrationAdmitted | ClassChatServer/Core/ClassChatServer.cs:210-219 | when the JSON does not contain "<user>", a framed registration that decodes is admitted from a new handle and refused from a registered one |
| Protocol.ListingMatchesTable | ClassChatServer/Core/ClassChatServer.cs:223 | a client holding the sent listing recognises exactly the commands the server's table dispatches |
| Protocol.SentCommandsAreKnown | ClassChatServer/Core/ClassChatClient.cs:79-83 | every command envelope a client sends after taking in the listing names a handler of the table |
| Protocol.GroupBroadcastScenario | ClassChatServer/Core/ClassChatServer.cs:149-170 | with alice and bob in cs101 and carol in no group, alice's broadcast reaches bob alone, tagged cs101 |
| Protocol.UngroupedBroadcastScenario | ClassChatServer/Core/ClassChatServer.cs:152-157 | in a four-user example room, a sender in no group reaches exactly the other user in no group, and in the three-user room it reaches nobody |

## Left out

- Sockets and streams: `TcpListener`, `TcpClient`, `NetworkStream.Read` and `Write`, `Socket.Available` and `DataAvailable` are I/O. Writes are a log and reads are given strings with their sizes.
- Server.ChatServer.SendToEach, Server.ChatServer.RouteDirect and Server.ChatServer.RouteCommand: every write succeeds in the model. In the source, `stream.Write` throws when the peer has gone since the last sweep, and nothing in `Application()` catches it. The remaining broadcast recipients then get nothing and the server process ends. `BroadcastReachesGroup` holds only because the model's writes cannot fail.
- Buffer sizes: the 128-, 512- and 1024-byte buffers are not modelled, and neither is the truncation of longer payloads. A read is its whole text followed by its NUL padding.
- UTF-8 encoding: this is not modelled. A string is a sequence of characters.
- JSON: System.Text.Json is a foreign library. Deserialisation is the `decode` parameter, and serialisation of envelopes is not modelled. `TryRegisterClient` treats a payload that does not decode as `Malformed`, an exception. In `Client.ChatClient.ReceiveCommandListing`, `None` stands only for a listing that decodes to null; a listing that fails to deserialise throws, and the catch at the end of the client's session method ends the session, which is not modelled.
- JSON `null`: a payload that decodes to a null `User` or a null message is not modelled. In the source, a null `User` would be registered; a null `ServerResponse` would end the client session.
- The accept loop of `GetConnections`: it is not modelled. `Malformed` records that its exception ends that loop.
- The liveness probe: the zero-length write of `IsClientActive` is the `probe` parameter.
- DNS: `Dns.GetHostEntry` and `AddressList[2]` are a foreign call. The result is the `hostAddress` constant.
- Threads and timing: the thread pool, the worker threads, `Thread.Sleep`, `volatile _isOnline` and `ConcurrentDictionary` atomicity are concurrency. The busy-wait of `AwaitReceptionCancellation` is left out too. Each modelled operation is one sequential step.
- The polling pump of `Application()`: the loop over all clients, and its skipping of zero-size reads, is not modelled. `Route` is the loop body for one message that was read.
- Enumeration order: dictionary order becomes the `order` parameter. `Commands.Keys` is taken in insertion order, as `CommandListing`.
- Console UI: `RefreshScreen`, prompts, titles, the "Client Connected/Disconnected" logging, and the username loop of the client's `Program.cs` are not modelled.
- `GC.Collect`: it is not modelled.
- `ServerResponse` and `CommandResult`: their C# declarations are outside the modelled files. Their shapes are taken from how they are constructed and deconstructed.
- Environment.NewLine: it is taken as "\n".
- Application.IsGroupMessageRequest: compares ordinally. The source's `StartsWith(string)` overload is culture-sensitive and skips ignorable code points, so a line such as a soft hyphen followed by "G@bob:hi" passes in the source and not in the model. Only `StartsWith('@')` in `IsMessageRequest` is ordinal.
- Server.IsRegistrationRequest: compares ordinally too, while the source's `StartsWith("<user>")` is culture-sensitive, so a registration text that starts with an ignorable code point followed by the marker is accepted in the source and not in the model.
- Server.ChatServer.Route: an envelope that fails to deserialise is not modelled. In the source that exception is not caught inside `Application()`, which runs on its own thread, so it terminates the whole server process, accept loop and sweep included; `Route` only covers envelopes that decoded.
- Client.ChatClient.ReceiveResponse: a response that fails to deserialise is not modelled. In the source the exception is caught at the end of the session method, which ends the session; the model covers only responses that decoded.
- Client.ChatClient.ReceiveResponse: it does not model the null check on the message (line 127). The server never sends a null message.
- Client.ChatClient.HandleInput: "ip" and "clear" are actions, not console output.
