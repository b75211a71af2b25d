# Chat relay core, modelled in Dafny

The relay is a small TCP chat server. A client connects, sends its display name, and then
sends chat messages. The server relays each message to every other connected client. This
project models the server's core in `server.cpp`: the `broadcastMessage` recipient filter and
the `handleClient` session. The session covers the handshake, registration, welcome, join
notice, per-message dispatch, deregistration and leave notice. Sockets, threads and the
mutex are removed. What is left is pure functions over immutable values:

- `CppString` (`cpp_string.dfy`): the standard-library behaviour the code relies on.
  `substr` clamps its count. `find(c, from)` returns `npos` when `from` is at or past the end.
  `std::string(buffer)` copies a C string up to its first NUL. `ReadString` combines these
  into the string built from one `recv` of at most `sizeof(buffer) - 1 = 1023` bytes. A byte
  is modelled as one `char`.
- `ClientRegistry` (`client_registry.dfy`): the global `clients` vector and `client_names`
  map, as one `Registry` value. `Without` is the order-keeping filter that serves two
  purposes: the erase-remove in deregistration, and the recipient test in `broadcastMessage`.
  `SelectRecipients` is the `broadcastMessage` loop itself, proved equal to that filter.
- `MessageDispatch` (`message_dispatch.dfy`): `Classify` sorts a message into three cases,
  `Private(recipient, text)`, `Malformed` or `Chat(text)`, exactly as the `substr(0, 4)` /
  `find(' ', 5)` code decides. `Outgoing` gives the line that is broadcast, or nothing.
- `ClientSession` (`client_session.dfy`): `Session` runs one connection. Its inputs are a
  starting registry, a socket and the sequence of `recv` results. It returns the ordered
  list of `Delivery(targets, payload)` events (one per `send` or `broadcastMessage` call),
  the final registry, and the registered name.
- `Scenarios` (`scenarios.dfy`): concrete runs. These include the three-client chat and the
  `/msg bob hello` example.

Each locked block of the source is one atomic step. No other session runs in the middle of
a session, so the registry that a session's broadcasts see is the registry it started
from, plus that session's own socket.

In these places the code does something a reader of the protocol might not expect. The model
follows the code:

- The code has no newline framer. Each `recv` chunk is one message, taken as it is, cut at
  its first NUL.
- A chat line is `name + ": " + message + "\n"`, even when the message already ends in a
  newline. So `"hi\n"` from alice reaches the others as `"alice: hi\n\n"` (`AliceSaysHi`).
- The registry does not reject a socket that is already registered. `push_back` adds it a
  second time and the name is overwritten. Deregistration removes every copy.
- `/msg` is recognised from the first four characters alone, so `"/msgX a b"` is a command.
  The recipient token starts at index 5. A command with no space at index 5 or later is
  dropped, for example `"/msg hello"`.

## Model

| member | source | states |
|---|---|---|
| CppString.Substr | server.cpp:55-59 | `substr(start, count)` returns at most `count` characters, and fewer when the string ends first; each one is the character at `start + i` |
| CppString.Find | server.cpp:56 | `find(c, from)` returns the first index at or after `from` holding `c`; it returns `npos` exactly when there is no such index, including when `from` is at or past the end |
| CppString.UntilNul | server.cpp:40 | `std::string(buffer)` copies the longest NUL-free prefix and stops at the first NUL |
| CppString.ReadString | server.cpp:31-40 | a read string is a NUL-free prefix of the received bytes, at most 1023 long; it stops just before the first NUL, and is the whole chunk when the chunk has no NUL |
| ClientRegistry.Without | server.cpp:70 | the result holds exactly the elements of the list other than the removed one |
| ClientRegistry.WithoutCounts | server.cpp:70 | erase-remove keeps every other socket's number of occurrences and leaves none of the removed socket |
| ClientRegistry.WithoutKeepsOrder | server.cpp:70 | the sockets that remain keep their relative order |
| ClientRegistry.WithoutAppend | server.cpp:70 | filtering a concatenation is the concatenation of the filtered parts |
| ClientRegistry.WithoutSnoc | server.cpp:18-21 | one more socket at the end of the list is kept exactly when it is not the removed one |
| ClientRegistry.WithoutAbsent | server.cpp:70 | removing a socket that is not in the list leaves the list unchanged |
| ClientRegistry.WithoutIdempotent | server.cpp:70 | removing the same socket twice gives the same list as removing it once |
| ClientRegistry.SelectRecipients | server.cpp:16-22 | the broadcast loop's recipients are exactly the listed sockets other than the sender, in list order |
| ClientRegistry.Register | server.cpp:41-45 | registration appends the socket at the end and leaves the earlier entries in place; it maps the socket to the name and leaves every other name unchanged; it keeps list and map in agreement |
| ClientRegistry.Deregister | server.cpp:68-72 | deregistration removes every occurrence of the socket, keeps the other sockets' counts and order, erases the name only of this socket, and keeps list and map in agreement |
| ClientRegistry.DeregisterAbsent | server.cpp:68-72 | deregistering a socket that is not registered is a no-op |
| ClientRegistry.DeregisterIdempotent | server.cpp:68-72 | teardown run twice equals teardown run once |
| ClientRegistry.DeregisterAfterRegister | server.cpp:41-72 | deregistration undoes registration, whatever the registry held for that socket before |
| ClientRegistry.RegisterDeregisterRoundTrip | server.cpp:41-72 | a socket that was not registered leaves the registry as it found it after registering and deregistering |
| MessageDispatch.Classify | server.cpp:55-58 | a message is a chat line exactly when its first four characters are not `/msg`, and the chat text is then the message itself; a `/msg` message is dropped exactly when it has no space at index 5 or later; otherwise it splits as its first five characters, a space-free recipient, one space, and the text |
| MessageDispatch.Outgoing | server.cpp:55-65 | (through the formatting helper `Payload`) nothing is sent exactly for a `/msg` message with no space at index 5 or later; a non-command is sent as `name: message\n`; a command is sent as `[Private from name]: ` followed by the text after the first space at index 5 or later, then `\n` |
| MessageDispatch.ClassifyPrivateRoundTrip | server.cpp:55-59 | `/msg`, any fifth character, a space-free recipient, a space and a text classify back to that recipient and that text |
| MessageDispatch.PrivatePayloadIgnoresRecipient | server.cpp:56-60 | the broadcast line of a `/msg` command does not depend on the recipient token |
| MessageDispatch.ShortCommandDropped | server.cpp:55-57 | a `/msg` message of length five or less produces no broadcast |
| ClientSession.Broadcast | server.cpp:16-22 | a broadcast carries the payload unchanged to exactly the registered sockets other than the sender |
| ClientSession.Messages | server.cpp:51-53 | the message loop handles one message per positive read, in read order; it stops at the first read of zero or less; each message is the read's NUL-free prefix, at most 1023 characters |
| ClientSession.Dispatch | server.cpp:51-66 | (one message at a time through the helper `Sent`) a run of messages causes at most one broadcast per message; every broadcast goes to the registered sockets other than the sender |
| ClientSession.DispatchPayloads | server.cpp:55-65 | when no message is a malformed command, the i-th broadcast carries the line for the i-th message |
| ClientSession.DispatchLines | server.cpp:51-66 | for any run of messages, malformed commands included, the broadcasts are exactly the non-dropped lines in read order, each one sent to the other clients |
| ClientSession.DispatchAppend | server.cpp:51-66 | broadcasts follow read order: the broadcasts for two consecutive runs of messages are those of the first run followed by those of the second |
| ClientSession.DispatchSameAudience | server.cpp:60-64 | broadcasts depend on the registry only through the recipients it yields |
| ClientSession.Session | server.cpp:30-76 | a session registers exactly when the first read is positive; otherwise nothing is sent and the registry is unchanged; a registered name is at most 1023 characters with no NUL; the final registry is the initial one with the socket deregistered; the first send goes to the socket alone and every later one goes to the other clients, never the socket |
| ClientSession.Chatting | server.cpp:47-74 | after the handshake the trace has at least three entries: first `Welcome, name!\n` to the new socket alone, then `name has joined the chat.\n`, and last `name has left the chat.\n`; everything after the welcome goes to the other clients |
| ClientSession.SessionAudience | server.cpp:43-74 | the join notice (after registration) and the leave notice (after deregistration) reach the same sockets as the registry's other clients at the start |
| ClientSession.SessionTrace | server.cpp:47-74 | the trace is, in order: `Welcome, name!\n` to the socket alone, `name has joined the chat.\n` to the others, the message broadcasts in read order, and then, with the socket already deregistered, `name has left the chat.\n` to the same others |
| ClientSession.SessionRestoresRegistry | server.cpp:41-72 | a session for an unregistered socket ends with the registry it started with |
| ClientSession.SessionKeepsConsistent | server.cpp:41-72 | a session keeps every listed socket named and every named socket listed |
| Scenarios.PrivateCommandLine | server.cpp:55-59 | `/msg bob hello` from alice classifies as a command for `bob` with text `hello`, and its line is `[Private from alice]: hello\n` |
| Scenarios.PrivateCommandExample | server.cpp:55-60 | for any registry and sender socket, `/msg bob hello` from alice is one broadcast of `[Private from alice]: hello\n` to every registered socket other than the sender, bob or not |
| Scenarios.PrivateCommandReachesCarol | server.cpp:55-60 | with bob and carol connected, alice's `/msg bob hello` goes to both bob and carol |
| Scenarios.UncheckedFifthCharacter | server.cpp:55-58 | `/msgX a b` is taken as a command with an empty recipient and text `a b` |
| Scenarios.CommandWithoutBodyDropped | server.cpp:55-57 | `/msg hello` sends nothing |
| Scenarios.AliceSaysHi | server.cpp:30-76 | with bob and carol connected, alice's session welcomes alice alone; bob and carol get the join notice, `alice: hi\n\n` and the leave notice; the registry ends as it started |
| Scenarios.AliceTrace | server.cpp:47-74 | the entries of that run, one by one |
| Scenarios.EarlyClose | server.cpp:34-38 | a connection whose first read is a close or an error is never registered and hears nothing |

## Left out

- `startServer` (server.cpp:84-152) is left out. It is operating-system I/O: socket creation,
  `setsockopt`, bind, listen, accept, the Windows start-up and clean-up calls, and the
  `exit` calls on failure.
- Threads and the mutex (server.cpp:8, 17, 42, 69, 128-145) are left out. Each locked block
  is one atomic step, and interleavings between sessions are not modelled. So a broadcast
  sees the registry as the session left it, not as other sessions may have changed it.
- `send` results and partial writes are left out; the return values are ignored in the
  source too. A send is recorded as a `Delivery` event. A broadcast to no one is still
  recorded, with an empty target list.
- `closesocket` is left out. It releases the operating-system handle and changes nothing in
  the model.
- `server.h` and `main.cpp` are not part of this model. They hold only includes, a
  declaration and a call to `startServer`.
- Bytes are modelled as `char`, since no encoding is involved.
- The `recv` results are a finite list. If the list ends without a result of zero or less,
  the model reads the end as the connection closing.
- `recv` is assumed to keep its length argument: no chunk is longer than 1023 bytes
  (`AllFit`).
