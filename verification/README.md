# afkttv chat client: line handling, handshake and keepalive

A Dafny model of the text handling in the afkttv Twitch chat client. The client speaks
IRC over a WebSocket: it logs in with a fixed five-line handshake, splits every incoming
frame into CR-LF separated lines, answers the server's `PING :tmi.twitch.tv` with `PONG`,
and pulls chat messages (`PRIVMSG`) and state notices (`GLOBALUSERSTATE`, `ROOMSTATE`,
`USERSTATE`, …) out of IRCv3-tagged lines with regular expressions. Two revisions of the
frame handler exist side by side, and the model covers both:

- `src/websocket/irc.rs` (module `Irc`) splits the frame on CR-LF and drops empty pieces.
  It then sends every line down a first-match-wins chain: PING prefix, PONG prefix,
  `PRIVMSG` anywhere, a state keyword anywhere, otherwise ignore. Every regex that fails
  to match ends the task through `expect`.
- `src/websocket.rs` (module `Websocket`) is the older handler. It trims the frame,
  splits it, trims each piece, and looks only at the first line, which must equal the
  server's PING or PONG exactly. This file also holds the login (which always joins the
  user's own channel), the URL-dependent connection step and the keepalive timer.

Modules:

- `Outcomes`: `Option` and `Result`. Every `Err` stands for a panic, tagged with which
  `expect` or `panic!` fired.
- `Text`: Rust's `split("\r\n")`, the empty-piece filter, `trim`, `starts_with` and
  `contains`, and the character classes `\w`, `[^;]` and `.`.
- `Regex`: the leftmost-first matching order of the regex crate. A lazy `.*?` tries the
  shortest prefix first and never crosses a line feed. A greedy `+` tries the longest run
  first and gives characters back one at a time. Captures are therefore the ones the
  regex reports, not just some match.
- `Protocol`: the constants, the handshake lines, and the server's reading of a handshake.
  That reading is the partner the handshake is proved against. The `8` of the USER line
  is the registration bitmask of section 3.1.3 of RFC 2812, where bit 3 sets mode `i`.
- `Irc`, `Websocket`: the two revisions.
- `Revisions`: lemmas that show where the two handlers agree and where they disagree.

Writes to the socket are modelled as a returned trace of sent lines (`seq<string>`). A
panic is an `Err` value; the lines written before it stay in the trace.

A state notice whose first tag is `display-name`, such as
`@display-name=Alice;id=1 :tmi.twitch.tv USERSTATE #bob`, makes `curr_state` panic: its
chatter regex needs `;display-name=`, with the `;` that only a tag after another tag has.
`Irc.DisplayNameFirstUserStatePanics` proves the panic on that line, and
`Irc.UserStateNotice` proves that the same notice with a tag in front of `display-name`
(`@badges=;display-name=Alice;id=1 …`) yields chatter `Alice` and channel `bob`.

## Model

| member | source | states |
|---|---|---|
| Text.Split | src/websocket/irc.rs:116 | splitting on CR-LF always gives at least one piece, no piece holds CR-LF, and joining the pieces back with CR-LF rebuilds the input |
| Text.SplitJoin | src/websocket/irc.rs:116 | splitting undoes joining for any non-empty list of separator-free pieces |
| Text.NonEmpty | src/websocket/irc.rs:117 | the filter keeps exactly the non-empty pieces, each as often as it occurred |
| Text.NonEmptyAppend | src/websocket/irc.rs:117 | filtering commutes with concatenation, so the relative order of lines is kept |
| Text.TrimBounds | src/websocket.rs:195 | `trim` returns a slice of its input with only whitespace cut off in front and behind |
| Text.TrimIdempotent | src/websocket.rs:198 | trimming twice is trimming once |
| Regex.FirstFrom | src/websocket/irc.rs:157 | a lazy `.*?` stops at the first reachable position where the rest of the pattern matches, and fails only when no position reachable without a line feed matches |
| Regex.LastDownTo | src/websocket/irc.rs:194 | a greedy `+` keeps the longest run after which the rest of the pattern matches, and fails only when no run length works |
| Regex.CaptureMatchesIff | src/websocket/irc.rs:157-161 | a capture regex fails exactly when its literal, followed by a character of the class, occurs nowhere reachable from the start |
| Regex.CaptureAtFirst | src/websocket/irc.rs:179-184 | the capture is the whole run of the class after the first place the literal matches |
| Protocol.UserModeIsInvisible | src/websocket/irc.rs:97-100 | the USER line's mode field `8` sets user mode `i` and nothing else |
| Protocol.ParseOfHandshake | src/websocket/irc.rs:95-104 | a server reading the five handshake lines recovers exactly the auth token, user and channel they were built from |
| Protocol.HandshakeOfParse | src/websocket/irc.rs:95-104 | every line sequence the server accepts as a login is the handshake of what it read |
| Irc.Chatroom | src/websocket/irc.rs:192-207 | a result is a real match of the chat regex, with a non-empty chatter free of `;` and a non-empty word channel; a non-match is the chat-regex panic |
| Irc.ChatroomOkIff | src/websocket/irc.rs:197-200 | `chatroom` panics exactly when the chat regex can match nowhere in the line |
| Irc.ChatroomWellFormed | src/websocket/irc.rs:193-206 | on a line `…display-name=N;… PRIVMSG #C :T` it returns chatter N, channel C and content T |
| Irc.CurrState | src/websocket/irc.rs:156-190 | the kind is the word the state regex captures; `GLOBALUSERSTATE` carries the chatter the chatter regex captures and no channel, `USERSTATE` that chatter and the word the channel regex captures, any other kind neither; the chatter is non-empty and free of `;` |
| Irc.UserStateWellFormed | src/websocket/irc.rs:174-186 | on a notice `…;display-name=N;… :tmi.twitch.tv USERSTATE #C…` it returns kind `USERSTATE`, chatter N and channel C |
| Irc.GlobalUserStateWellFormed | src/websocket/irc.rs:165-171 | on a notice `…;display-name=N;… :tmi.twitch.tv GLOBALUSERSTATE` it returns chatter N and no channel |
| Irc.UserStateNotice | src/websocket/irc.rs:174-186 | `@badges=;display-name=Alice;id=1 :tmi.twitch.tv USERSTATE #bob` yields chatter `Alice` and channel `bob` |
| Irc.CurrStateErrIff | src/websocket/irc.rs:158-182 | `curr_state` panics exactly when a regex it needs for the kind it found cannot match: state regex, chatter regex, channel regex |
| Irc.StateKindIsFirstWord | src/websocket/irc.rs:157-163 | the kind is the first word after ` :tmi.twitch.tv `; a kind such as `ROOMSTATE` yields neither chatter nor channel even when the line names one |
| Irc.FirstTagDisplayNameIsFatal | src/websocket/irc.rs:175-178 | a state line whose first tag is `display-name` gives the chatter regex nothing to match, although the chat regex would find the tag |
| Irc.DisplayNameFirstUserStatePanics | src/websocket/irc.rs:174-182 | `@display-name=Alice;id=1 :tmi.twitch.tv USERSTATE #bob` makes `curr_state` panic |
| Irc.GlobalHoldsUserState | src/websocket/irc.rs:138 | a line holding `GLOBALUSERSTATE` also holds `USERSTATE`, so either keyword routes it |
| Irc.Classify | src/websocket/irc.rs:121-152 | the keepalive events occur exactly for the PING and PONG prefixes; a `PRIVMSG` line without those prefixes is chat exactly when `chatroom` succeeds and otherwise the chat-regex panic; a line with a state keyword and none of the earlier triggers is a state change exactly when `curr_state` succeeds and otherwise its panic; ignored exactly when no branch applies |
| Irc.DispatchLines | src/websocket/irc.rs:120-153 | each line is classified once, in order; a panic stops the loop at that line; one PONG is written per handled line starting with the server's PING, and nothing else |
| Irc.LinesOfFrame | src/websocket/irc.rs:114-120 | a frame of non-empty lines, CR-LF terminated or not, yields exactly those lines in order |
| Irc.ParseMsgCountsPings | src/websocket/irc.rs:121-124 | a frame whose lines all classify gets one PONG per PING line and one event per line, in order |
| Irc.Login | src/websocket/irc.rs:82-106 | the handshake is five lines starting with the capability request, which a server reads as the configured credentials joining the requested channel |
| Websocket.OpenConnection | src/websocket.rs:94-118 | the chat URL gets the capability request then auth, nick, user and join, in order; the event URL gets nothing; any other URL is fatal |
| Websocket.Connect | src/websocket.rs:127-142 | on the chat URL the login is read as the configured user joining their own channel |
| Websocket.Normalize | src/websocket.rs:193-199 | the normalised list is never empty, so its first line always exists, and each entry is trimmed and separator-free |
| Websocket.ParseIncomingIrc | src/websocket.rs:201-229 | the PING arm is taken, and exactly one PONG written, iff the first normalised line equals the server's PING; the PONG arm iff it equals the server's PONG, writing nothing; otherwise every line is passed on for display |
| Websocket.FirstNormalizedLine | src/websocket.rs:193-201 | whitespace before the first line, and between it and its CR-LF, does not matter: that line is what the handler compares |
| Websocket.NormalizeOfJoin | src/websocket.rs:193-199 | normalising joined trimmed lines gives the lines back |
| Websocket.KeepaliveDelay | src/websocket.rs:159-165 | with an offset below 10000 the sleep lies in [240000, 250000) ms |
| Websocket.KeepaliveLoop | src/websocket.rs:152-181 | after n rounds the task has alternated n sleeps of the keepalive delay with n `PING` writes and slept between n·240000 and n·249999 ms |
| Revisions.LeadingPingAnsweredByBoth | src/websocket.rs:201-208 | both revisions answer a frame whose first line is exactly the server's PING; the new one then handles the rest as a frame of its own |
| Revisions.LeadingPongWritesNothing | src/websocket.rs:211-216 | the server's PONG writes nothing in either revision |
| Revisions.LaterPingAnsweredOnlyByNew | src/websocket.rs:201 | a PING on the second line is answered only by the new revision |
| Revisions.PingWithTrailerAnsweredOnlyByNew | src/websocket/irc.rs:121 | a PING line with text after the host is answered only by the new revision, which tests a prefix |
| Revisions.PingWithTrailingSpaceOld | src/websocket.rs:196-201 | the old revision answers a PING followed by whitespace before its CR-LF, because it trims each line |
| Revisions.PaddedPingAnsweredOnlyByOld | src/websocket.rs:194-199 | a PING preceded by whitespace is answered only by the old revision, which trims |
| Revisions.DoublePing | src/websocket/irc.rs:120-122 | two PINGs in one frame get two PONGs from the new revision and one from the old |
| Revisions.LoginsAgreeOnOwnChannel | src/websocket.rs:140-141 | both logins send the same lines when the new one joins the user's own channel |

## Left out

- Transport I/O: `connect_async`, splitting the stream, the reader and writer mutexes,
  and `read_socket`/`write_socket`. A successful write is a line appended to the returned
  trace; a failed send (its `expect`) is not modelled.
- `src/socket.rs` is not part of this model (socket plumbing, plus a log-redaction check).
- Concurrency: the spawned keepalive task, the endless read loop, tokio sleeping and task
  joining. The keepalive is modelled as its sequence of sleeps and writes only.
- Websocket.KeepaliveLoop: takes the random offsets as a parameter and requires each to
  be below 10000. That bound comes from a comment, because `util::get_rand_offset` is not
  in the modelled files.
- Websocket.KeepaliveDelay: does not model `u64` overflow, which the offset bound rules out.
- Logging: every `println!`/`print!`, including the chatter and channel labels that
  `parse_msg` prints swapped. Printing affects no state.
- `Message::to_string` for non-text frames: a frame is modelled as the string it becomes.
- `\w` is modelled as the ASCII word characters (letters, digits, `_`). The regex crate's
  Unicode word class also accepts non-ASCII letters and digits, and Twitch channel names
  and state kinds are ASCII. In the model such a character ends a run early. A state kind
  or state channel is captured shorter, or not at all when such a character comes first;
  the model then panics or reads a later match. A chat line whose channel holds one does
  not match at all, because ` :` must follow the channel, so `Chatroom` panics where the
  client succeeds.
- `src/websocket/events.rs` (the pub-sub endpoint stub), `src/config.rs` (configuration
  file I/O), `src/main.rs` (command line and task orchestration, apart from the two URL
  constants it defines) and `src/util.rs` (wall-clock formatting) are not part of this model.
- `URL_CHAT` and `URL_EVNT`: `src/websocket.rs` imports them from `crate::util`, which
  does not define them; the model takes the values `src/main.rs` gives them.
- `Irc::irc_init` opens its stream from a URL through `src/socket.rs`; the model takes the
  stream as open and covers only the lines written on it.
