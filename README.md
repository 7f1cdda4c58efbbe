# tailtalk, modelled in Dafny

tailtalk is a terminal chat system: a TCP server (`server/`), an earlier bare
relay (`src/`), and a terminal client (`client/`). This project models their core
logic and proves properties about it:

- **The server** keeps its registry of connected clients in an insertion-ordered
  map from peer address to username. Its main functions are:
  - `broadcast_message`: write to every peer; evict the peers whose write or
    flush fails, once the pass is over.
  - `broadcast_user_list` and `handle_user_list_request`: send the roster, a
    `USER_LIST:` line with a JSON array of the names.
  - `get_username`: prompt, read at most 32 bytes, trim, and refuse empty
    names, "System" in any ASCII case, and names taken in any ASCII case.
  - `handle_client`: the session. Negotiate a name, register, announce the
    join, send the roster, relay chunks as `name: chunk` (or answer `GET_USERS`
    privately), then announce the leave, deregister and send the roster.
- **The legacy relay** keeps its peers in a `HashMap` and relays every chunk
  unchanged to every other peer.
- **The client's reader thread** (`handle_server_messages`) buffers bytes, cuts
  them into lines at `\n`, and turns each non-blank line into at most one event:
  - a roster update, for a `USER_LIST:` line whose payload decodes;
  - nothing, for a `USER_LIST:` line whose payload does not decode;
  - a chat line, for any other line.
- **The client's `App`** holds the message history and the scroll offset:
  - scroll up and down;
  - the auto-scroll arithmetic of `draw` (`is_near_bottom` and
    `calculate_scroll_to_bottom`);
  - the parsing of a server line into author and content at its first colon;
  - the one-time `GET_USERS` request;
  - the Enter key's echo-and-send path.

The model is laid out as follows:

- **Sockets** become a script of read results (`Wire`).
- **Failing peers:** whether the server's writes to the negotiating peer
  succeed is a flag, `writable`. Once the peer has joined, the set of peers
  whose writes fail is a parameter, `dead`.
- **The server registry** is a class whose methods are proved against
  functions on a `State` value (`BroadcastStep`, `JoinStep`, `Session`, ...).
  The session properties are lemmas about those functions.
- **`Protocol`** connects the two ends. It takes what the server writes, frames
  it as the client does, and parses it as the client does.

## Model

| member | source | states |
|---|---|---|
| Text.Trim | server/src/main.rs:79 | The result has no whitespace at either end, and it is empty exactly when the input is all whitespace. |
| Text.TrimIdempotent | server/src/main.rs:79 | Trimming a trimmed string changes nothing. |
| Text.TrimAround | client/src/app.rs:213 | Trimming whitespace, a core with non-whitespace ends, then whitespace gives back exactly the core. |
| Text.TrimSplit | client/src/app.rs:213 | Every string is its trimmed core with whitespace before and after it. |
| Text.EqIgnoreAsciiCaseSymmetric | server/src/main.rs:94 | ASCII-case-insensitive equality is symmetric. |
| Text.Find | client/src/app.rs:216 | The result is None exactly when the character is absent; otherwise it is an index holding the character, with no earlier occurrence. |
| Text.FindFirst | client/src/app.rs:216 | Any index holding the first occurrence is what `find` returns. |
| Wire.Read | server/src/main.rs:133-135 | A read returns at most the buffer size. The bytes returned followed by the bytes left are the bytes before the read, and a failed read consumes none. Every read shrinks the script. |
| Json.Encode | server/src/main.rs:53 | The encoding of a list of names is a bracketed array. |
| Json.EncodeNoControl | server/src/main.rs:53 | An encoded roster holds no control character, in particular no newline, so it stays on one line. |
| Json.DecodeEncode | client/src/events.rs:50 | Decoding what the server encodes gives back exactly the list of names. |
| Json.ItemsParse | client/src/events.rs:50 | The encoded elements of a non-empty list parse back to the list, leaving the text after the closing bracket. |
| Json.EscapeParses | client/src/events.rs:50 | An escaped string body parses back to the string, leaving the text after its closing quote. |
| Registry.IndexOf | server/src/main.rs:116 | The position of an address: None exactly when the address is not registered; otherwise an entry with that address. |
| Registry.InsertEntry | server/src/main.rs:116-122 | `IndexMap::insert` keeps keys unique. A new key goes at the end; an existing key keeps its position and gets the new name; other entries are unchanged. |
| Registry.WithoutMembers | server/src/main.rs:36-37 | After removal, exactly the entries whose address was not removed remain. |
| Registry.AddrsWithout | server/src/main.rs:36-37 | An address is registered after removal exactly when it was registered and was not removed. |
| Registry.WithoutDistinct | server/src/main.rs:36-37 | Removal keeps addresses unique. |
| Registry.WithoutIsSubsequence | server/src/main.rs:37 | `shift_remove` keeps the survivors in their original order. |
| Registry.WithoutTwice | server/src/main.rs:36-43 | Removing one set and then another is removing their union. |
| Registry.WithoutAbsent | server/src/main.rs:161 | Removing an address that is not registered changes nothing. |
| Registry.FanoutSound | server/src/main.rs:24-34 | A broadcast pass writes the message only to registered live peers, and to the sender only when asked to. |
| Registry.FanoutComplete | server/src/main.rs:24-34 | A broadcast pass writes to every targeted live peer; a failure does not stop it. |
| Registry.FailuresMembers | server/src/main.rs:24-34 | `to_remove` holds exactly the registered targeted addresses whose write failed. |
| Registry.FailuresDistinct | server/src/main.rs:24-34 | `to_remove` names each address at most once. |
| Registry.BroadcastEvictsExactlyFailures | server/src/main.rs:15-46 | A broadcast evicts exactly the targeted peers whose write fails. The survivors keep their order, and addresses stay unique. |
| Registry.BroadcastDeliveries | server/src/main.rs:15-46 | A broadcast only appends to what was written. Each new write carries the message, to a live peer other than an excluded sender, and every targeted live peer gets one. |
| Registry.Registry.constructor | server/src/main.rs:177 | The registry starts empty, with nothing written. |
| Registry.Registry.Insert | server/src/main.rs:115-122 | The entries become `InsertEntry` of the old entries; nothing is written. |
| Registry.Registry.ShiftRemove | server/src/main.rs:160-161 | The entry with that address, if any, is removed and the others keep their order; nothing is written. |
| Registry.Registry.Deliver | server/src/main.rs:26-28 | A successful write-and-flush appends exactly one delivery; the entries are unchanged. |
| Server.BroadcastMessage | server/src/main.rs:15-46 | The registry and the outbox become exactly `BroadcastStep` of the old ones: the fan-out in registry order, then eviction of the failures. |
| Server.WriteAll | server/src/main.rs:21-34 | The write pass appends the fan-out and returns the failures in registry order; the entries are unchanged. |
| Server.RemoveAll | server/src/main.rs:36-43 | The removal pass removes exactly the listed addresses and writes nothing. |
| Server.BroadcastUserList | server/src/main.rs:48-55 | The roster line of the current names is broadcast to every peer, the newest included. |
| Server.HandleUserListRequest | server/src/main.rs:57-69 | The roster goes to the requester alone. A failed write is reported and writes nothing. Nobody is evicted. |
| Server.Check | server/src/main.rs:81-101 | A name is refused as empty, then as reserved ("System" in any ASCII case), then as taken in any ASCII case. Each verdict holds exactly when its condition and none of the earlier ones holds. |
| Server.NegotiatedNameAcceptable | server/src/main.rs:71-105 | A negotiated name is non-empty, trimmed, at most 32 characters, not "System" in any ASCII case, and not an existing name in any ASCII case. |
| Server.NegotiationTranscript | server/src/main.rs:71-105 | The peer gets a prompt first and a reason followed by a new prompt after each refusal. Nothing is written once writes fail. |
| Server.EndOfStreamSpins | server/src/main.rs:77-85 | At end of stream a pass writes the prompt and the empty-name message and leaves the stream exactly as it was, so the loop as written repeats them for as long as writes succeed. |
| Server.NegotiateFollowsPass | server/src/main.rs:72-104 | Away from end of stream, `Negotiate` is the loop as written: each pass writes the prompt and, for a refused name, the reason `Check` gives for that name, then goes on from the rest of the stream. |
| Server.NegotiationEndsAtEndOfStream | server/src/main.rs:77-85 | At end of stream the negotiation ends after the prompt with no name accepted (the corrected behaviour, see Findings). |
| Server.AcceptableNameNegotiated | server/src/main.rs:71-105 | The converse of NegotiatedNameAcceptable: an acceptable name sent as the first read is accepted after one prompt, with the rest of the stream left. |
| Server.AcceptedOnlyAlive | server/src/main.rs:73-74 | A negotiation succeeds only over a connection the server can write to. |
| Server.AnyTaken | server/src/main.rs:93-95 | The loop finds exactly whether a registered name equals the candidate up to ASCII case. |
| Server.GetUsername | server/src/main.rs:71-105 | Returns the outcome and the rest of the stream `Negotiate` gives, and writes exactly its transcript to the peer. An accepted name is acceptable. End of stream ends the negotiation (see Findings). |
| Server.RegisteredInsert | server/src/main.rs:115-122 | Registering an acceptable name keeps names unique up to ASCII case, none of them empty or "System". |
| Server.RegisteredWithout | server/src/main.rs:36-37 | Removing entries keeps that invariant. |
| Server.NamesStayUnique | server/src/main.rs:107-169 | A whole session keeps usernames unique up to ASCII case, with none empty or "System". |
| Server.JoinAnnounces | server/src/main.rs:115-131 | Joining registers the client and announces it to every other live peer, and every such peer stays registered. |
| Server.JoinDistinct | server/src/main.rs:115-131 | Joining keeps one entry per address. |
| Server.LeaveAnnounces | server/src/main.rs:156-166 | Leaving announces the departure to every other live peer, and those peers stay registered. |
| Server.LeaveDeregisters | server/src/main.rs:156-166 | After leaving, no entry has the leaver's address. |
| Server.ChunkKeepsPeer | server/src/main.rs:142-153 | Serving one chunk neither evicts nor registers the peer being served. |
| Server.ChunkDeliveries | server/src/main.rs:142-153 | `GET_USERS` (after trimming) gets the roster to the requester alone, or an error, and changes no entry. Any other chunk is relayed as `name: chunk`, only to other peers. |
| Server.ReadLoopOutcome | server/src/main.rs:133-168 | The read loop deregisters the peer when the peer closed the stream. A read error or a failed roster reply leaves the peer registered exactly when it was registered at the start of the loop, and a roster reply fails only to a peer whose writes fail. |
| Server.JoinRegisters | server/src/main.rs:115-131 | After joining, the peer is registered exactly when writes to it succeed: one whose writes fail is evicted by its own roster broadcast. |
| Server.SessionOutcome | server/src/main.rs:107-169 | A failed negotiation changes no entry. A closed session leaves no entry for the peer. A session cut short by a read error leaves the peer registered exactly when writes to it succeed. A failed roster reply happens only to a peer whose writes fail, and that peer is no longer registered. |
| Server.HandleClient | server/src/main.rs:107-169 | The registry, the outbox and the outcome become exactly those of `Session`. |
| Server.ChatLoop | server/src/main.rs:133-168 | The read loop and its clean-up give exactly `ReadLoop`. |
| Server.Join | server/src/main.rs:115-131 | Insert, announce to the others, then send everyone the roster: `JoinStep`. |
| Server.HandleChunk | server/src/main.rs:140-153 | One chunk: `GET_USERS` is answered privately, anything else is relayed (`ChunkStep`). |
| Server.Leave | server/src/main.rs:156-166 | Announce to the others, remove, then send the roster: `LeaveStep`. |
| Legacy.Chunks | src/main.rs:53-58 | Each relayed chunk is non-empty and at most 4096 bytes. |
| Legacy.ChunksArePrefix | src/main.rs:53-63 | The chunks relayed spell a prefix of what the peer sent: no byte is lost, reordered or invented. |
| Legacy.Relay.constructor | src/main.rs:81-82 | The relay starts with no peers and nothing written. |
| Legacy.Relay.BroadcastMessage | src/main.rs:9-39 | Every other live peer gets the message exactly once, and no one else gets it. The targeted peers whose write fails are removed, and only they are. |
| Legacy.Relay.HandleClient | src/main.rs:41-73 | The peer is registered while it sends; each relay goes to another live peer and carries one of its chunks. The peer is removed at end of stream and stays registered after a read error. |
| ClientEvents.LineEvents | client/src/events.rs:45-56 | At most one event per line. A blank line gives nothing. A `USER_LIST:` line gives a roster update with the decoded list exactly when its payload decodes, and nothing otherwise. Any other non-blank line gives exactly one chat event, the line with its `\n`. |
| ClientEvents.SplitLines | client/src/events.rs:41-43 | The complete lines followed by the remainder rebuild the buffer, and no line and no remainder holds a `\n`. |
| ClientEvents.SplitLinesUnique | client/src/events.rs:41-43 | Splitting is the inverse of joining lines with `\n`. |
| ClientEvents.SplitLinesAppend | client/src/events.rs:36-43 | Appending bytes leaves the complete lines in place and carries on from the old remainder. |
| ClientEvents.LinesEventsAppend | client/src/events.rs:41-58 | The events of two batches of lines are the events of the first followed by those of the second. |
| ClientEvents.HandleServerMessages | client/src/events.rs:25-66 | The events sent are exactly `Feed` of the script. That means one per complete non-blank line, then "Server disconnected" at end of stream or "Connection error: " plus the reason on a read error. |
| ClientEvents.DrainLines | client/src/events.rs:41-58 | The inner loop emits the events of the complete lines and keeps the unterminated remainder. |
| ClientEvents.FramingIgnoresChunking | client/src/events.rs:25-66 | When the stream ends cleanly, the events depend only on the bytes sent, not on how reads cut them; an unterminated last line is never shown. |
| ClientApp.LineCount | client/src/app.rs:30-36 | A message takes at least one row. |
| ClientApp.LineCountIsCeiling | client/src/app.rs:30-36 | The row count is the ceiling of the rendered length over the width. |
| ClientApp.HeightMonotone | client/src/app.rs:38-50 | A longer suffix of the history never takes fewer rows. |
| ClientApp.GreedyFitUnique | client/src/app.rs:24-52 | At most one count of bottom messages fits while one more would not. |
| ClientApp.BottomOffsetUnique | client/src/app.rs:12-56 | The scroll-to-bottom offset is uniquely determined. |
| ClientApp.BottomOffsetShowsFittingSuffix | client/src/app.rs:12-56 | When every message has an author, the messages from the offset on fit in the height, and from one earlier they would not. |
| ClientApp.CalculateScrollToBottom | client/src/app.rs:12-56 | Returns the history length minus the largest number of displayed messages that fit from the bottom, counting rows and spacers. The result is 0 for an empty history, never exceeds the history length, and is the history length when the width is 0 (no message is then displayed). |
| ClientApp.ScrollToBottomFits | client/src/app.rs:24-55 | Where the backward loop stops, its count is the greedy bottom fit. |
| ClientApp.IsNearBottom | client/src/app.rs:58-105 | The answer is exactly: the history is empty, or the messages at or below the offset are at most max(height/2, 1) plus the threshold. The line-counting loop does not affect it. |
| ClientApp.ParseServerMessage | client/src/app.rs:211-226 | A server line yields no message exactly when it is blank after trimming. |
| ClientApp.ParseSplitsAtFirstColon | client/src/app.rs:216-219 | A trimmed line with a colon yields the trimmed text before its first colon as author, and the trimmed text after it as content. |
| ClientApp.ParseWithoutColon | client/src/app.rs:220-223 | A trimmed line without a colon is shown whole, from "System". |
| ClientApp.App.constructor | client/src/app.rs:140-153 | A new app has no messages, offset 0, no pending auto-scroll, empty input, and has not yet requested the roster. |
| ClientApp.App.AddMessage | client/src/app.rs:155-157 | Exactly one message is appended and nothing else changes. |
| ClientApp.App.ScrollDown | client/src/app.rs:159-165 | The offset decreases by one, saturating at zero; nothing else changes. |
| ClientApp.App.ScrollUp | client/src/app.rs:167-172 | The offset increases by one while it is below the history length minus one, and then stops. It never passes that bound from below. Nothing else changes. |
| ClientApp.App.OnServerMessage | client/src/app.rs:211-226 | A blank line changes nothing. Any other line appends its parsed message and requests an auto-scroll; the offset is unchanged. |
| ClientApp.App.RequestUserListOnce | client/src/app.rs:181-204 | `GET_USERS\n` is sent once; later passes change nothing. The bytes go out unless the lock or the write fails. A failure adds the error as a "System" message with its prefix, and requests an auto-scroll. |
| ClientApp.App.OnEnter | client/src/app.rs:366-398 | Empty input changes nothing. Otherwise the text is echoed under the user's name and sent with `\n` unless the lock or the write fails. A failure is reported as a "System" message. The input is cleared and an auto-scroll requested. |
| ClientApp.App.AutoScroll | client/src/app.rs:309-327 | With an auto-scroll pending, the offset jumps to the bottom offset of the padded area if the view is near the bottom (the history length when the padded width is 0), and stays otherwise. The request is cleared either way. Without one, nothing changes. |
| ClientApp.ScrollOnDraw | client/src/app.rs:311-324 | The auto-scroll arithmetic: one cell of padding per side and a threshold of 2; the bottom offset when near the bottom (the history length when the padded width is 0), the old offset otherwise. |
| Protocol.OneLine | client/src/events.rs:41-43 | A line without `\n`, sent with its `\n`, is read as exactly that one line. |
| Protocol.RosterReachesClient | server/src/main.rs:48-55 | The roster line the server sends, read by a client whose buffer holds no partial line, is one complete line and gives one roster update with exactly the registered names, in registry order. |
| Protocol.RosterPayloadParses | client/src/events.rs:47-51 | A `USER_LIST:` line whose payload decodes gives one roster update with that list. |
| Protocol.NotRosterLine | client/src/events.rs:47 | A line that starts with a colon-free name other than `USER_LIST`, followed by a colon, is not a roster line. |
| Protocol.ChatLineReachesClient | server/src/main.rs:148-153 | A chat line `name: text`, read by a client whose buffer holds no partial line, is one complete line and one chat event, which the client shows under the sender's name with the text trimmed. This holds for a non-empty trimmed name without `:` or `\n` other than `USER_LIST`, and a text without `\n`. |
| Protocol.ChatLineIsChat | client/src/events.rs:45-55 | Such a chat line is classified as a chat message, not a roster update. |
| Protocol.ChatLineParses | client/src/app.rs:211-226 | The client splits a chat line back into the sender's name and the trimmed text. |
| Protocol.ChatContentTrim | client/src/app.rs:218 | The text after the colon trims to the trimmed chat text. |
| Protocol.ChatLineTrim | client/src/app.rs:213 | The trim of a chat line followed by whitespace is the name, the colon, and the text without its outer whitespace. |
| Protocol.JoinNoticeShownAsSystem | server/src/main.rs:127-128 | A join notice, read by a client whose buffer holds no partial line, is one chat event, which the client shows whole, from "System". This holds for a non-empty trimmed name without `:` or `\n`. |
| Protocol.LeaveNoticeShownAsSystem | server/src/main.rs:156-157 | A leave notice, read by a client whose buffer holds no partial line, is one chat event, which the client shows whole, from "System". This holds for a non-empty trimmed name without `:` or `\n`. |
| Protocol.PlainLineShownAsSystem | client/src/app.rs:220-223 | A colon-free line with non-whitespace ends arrives as one chat event and is shown whole, from "System". |
| Protocol.ColonFreeNotRoster | client/src/events.rs:47 | A line without a colon is never a roster line. |
| Protocol.TrimmedLine | client/src/app.rs:213 | Trimming takes off the `\n` that ends a line and nothing else. |
| Protocol.UserListNameAccepted | server/src/main.rs:71-105 | Registration does not refuse the name `USER_LIST`: unless a peer of that name in some ASCII case is registered, a peer that sends it as its first read gets it after one prompt. |
| Protocol.RosterForgedByUserNamedUserList | server/src/main.rs:148 | A user named `USER_LIST` who sends a JSON array of strings replaces the roster shown by every other client. The chat line arrives as a roster update carrying that array. |
| Protocol.ForgedPayloadDecodes | client/src/events.rs:50 | A space before an encoded list does not change what it decodes to. |

## Left out

- Sockets, `peer_addr`, `try_clone`, `TcpListener` and `main`. A session's reads
  are a script. A failing `peer_addr` or `try_clone` is not modelled.
- Server.Session: write failures are two oracles. `writable` says whether every
  write to the peer during negotiation succeeds; a connection that breaks
  between two prompts is taken as broken from the first. After the join, the
  peers in `dead` fail at every broadcast pass and reply of the session and the
  others at none; a connection that breaks between two passes of one session
  is not captured.
- Threads and locks. Sessions run one at a time, so nothing interleaves between
  `get_username`'s uniqueness check and the insert. The race in which two peers
  negotiate the same name concurrently is therefore not captured.
- Bytes are modelled as characters: `String::from_utf8_lossy`, multi-byte
  characters split across reads, and the difference between a byte count
  (`.len()`) and a character count are not modelled.
- serde_json is modelled only for `Vec<String>`. Surrogate-pair `\u` escapes are
  refused by the decoder model.
- The server's logging to stdout, including the `write_all` of each chat line to
  stdout and its possible error.
- The legacy relay's `HashMap` iteration order, which is unspecified.
  Legacy.Relay.BroadcastMessage states which deliveries happen and that each
  peer gets at most one, not their order.
- Legacy.Relay.HandleClient: states that each relayed payload is one of the
  peer's chunks and goes to a live peer other than the sender. It does not state
  their order or that every chunk reaches every peer.
- Drawing with ratatui, colours, layout, and the connected-users widget
  (`Event::UserListUpdate` only calls `set_users`). The input widget is reduced
  to the text it holds, and its key handling, including the quit key of
  `handle_key_event`, is not modelled. `client/src/input_widget.rs` is not part
  of this model.
- Mouse and key event dispatch (`handle_mouse_event` calls `scroll_up` and
  `scroll_down`), the cursor-blink thread, and `rx.recv().unwrap()`.
- `u16` and `usize` bounds on widths, heights and offsets. Integers are
  unbounded.
- ClientApp.CalculateScrollToBottom: requires a positive width or no authored
  message. In the source a width of 0 with an authored message divides by
  zero and panics.
- ClientApp.IsNearBottom: the same precondition, for the messages at or below
  the offset.
- ClientApp.App.AutoScroll: requires that neither of the two functions above
  would divide by zero, as the source panics there.
- ClientApp.LineCount: the source's branch for an empty rendered text is left
  out. The rendered text always holds ": ", so that branch never runs.
- The scroll offset counts every message, but only messages with a non-empty
  author are displayed. `calculate_scroll_to_bottom` counts only displayed
  messages from the bottom, then subtracts that count from the full history
  length. This is modelled as written (BottomOffset).
- Framing on the client side is stated for a buffer that holds no partial line
  (the Protocol lemmas). The server relays each chunk as it was read, so a chunk
  without a trailing `\n` merges with whatever the client reads next: a roster
  line that follows it is then shown as the tail of a chat line.
- A name containing `:` is accepted. Its join and leave notices are then split
  at that colon and shown under the first part of the name instead of "System".
  The Protocol lemmas about notices exclude such names.
- A user named `USER_LIST` can forge the roster other clients show, because
  the client tells roster lines from chat lines by prefix alone. This is
  modelled as written and stated by Protocol.RosterForgedByUserNamedUserList.

## Findings

| source | as written | input that shows it | evidently intended | confidence | as-written member | corrected member |
|---|---|---|---|---|---|---|
| server/src/main.rs:77-85 | `get_username` does not look at the byte count `read` returns; 0 bytes at end of stream trim to an empty name, which is refused, and the loop prompts and reads again | a peer that closes its stream before sending a name: every later `read` returns 0, so the prompt and "Username cannot be empty" are written again and again while writes succeed | end of stream ends the negotiation, as a read error does | high (not executed) | Server.EndOfStreamSpins | Server.NegotiationEndsAtEndOfStream |
