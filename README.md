# rust-chat, modelled in Dafny

rust-chat is a terminal chat made of two programs: a TCP server and a `tui` client.
Messages travel as UTF-8 text. What the server writes to clients is framed: each message ends with the delimiter `^`. What a client writes to the server is not framed: the input and the initial `/name` go out as they are, one write per message, and the server escapes any `^` it reads to `#` rather than splitting on it.
This project models the text handling at the heart of both programs and proves what it guarantees:

- **Server, per connection** (`handle_client`). Each read goes into a 512-byte zeroed buffer. The buffer is decoded: trimmed, stripped of NUL padding, and every `^` escaped to `#`. Then the buffer is zeroed again. Texts of 0 bytes, or of 100 bytes or more, are dropped. The rest are dispatched:
  - `/help`, `/whoami` and unknown commands reply to the sender;
  - `/name <new>` broadcasts a notice and renames the connection;
  - bare `/name` does nothing;
  - plain text is broadcast as `"<name>: <text>^"`.
- **Server, main loop**. At most one queued broadcast is taken per iteration. It is split on `^`, and each non-empty piece is written as `piece^` to every client in the append-only `clients` vector, in index order (an order across clients that the model does not record). Failed writes are ignored. An accepted connection is pushed onto the vector.
- **Client**. A read of the 512-byte buffer is trimmed and stripped of NUL, then split on `^`. Its non-empty pieces are appended to the message log, and the buffer is zeroed. Read errors other than WouldBlock are logged.
- **Client keys**. Enter sends the input: it is reset on success, and a notice is logged on failure. Esc exits. Other keys edit the input while it is under 100 bytes.
- **Client view**. The view shows the last `min(len, height)` messages. The input box is scrolled so that `scroll + column == cursor`, using 16-bit arithmetic that cannot underflow.

Modules:

- `Io` (io.dfy): `Option` and the outcome of a socket read.
- `Text` (text.dfy): the `str` operations the framing is built from. These are `trim` (Unicode White_Space, which does not include NUL), `replace`, `split`/`join` on one character, and UTF-8 byte length.
- `Server` (server.dfy): decoding, parsing and dispatch as functions. The channel, the connection (`name` and its 512-cell buffer) and the router (`clients` and the receiving end) are classes whose methods update their fields.
- `Client` (client.dfy): `App` (input, log, buffer) as a class, plus the view arithmetic as functions over a `u16` newtype.
- `Wire` (wire.dfy): the two programs composed. A chat text is broadcast, fanned out and logged by a receiving client as `"<name>: <text>"`.

Sockets are replaced by parameters:

- A read is a `ReadOutcome`: the data, WouldBlock, or another error.
- A reply write is a boolean.
- The fan-out's writes are a function `delivered(piece index, client index)`.
- An accepted connection is an optional peer address.
- A key event is a `Key`. `tui_input`'s edit of the input is the `Input` carried by `Other`.

## Model

| member | source | states |
|---|---|---|
| Text.Zeros | server/src/main.rs:20 | the zero-initialised buffer tail: `n` NUL characters |
| Text.TrimStart | server/src/main.rs:27 | the result is a suffix of the input, everything cut is whitespace, and it does not start with whitespace |
| Text.TrimEnd | server/src/main.rs:27 | the result is a prefix of the input, everything cut is whitespace, and it does not end with whitespace |
| Text.Trim | server/src/main.rs:27 | the trimmed text is no longer than the input and has no whitespace at either end |
| Text.TrimClean | server/src/main.rs:27 | a text with no whitespace at its ends is its own trim |
| Text.TrimIdempotent | server/src/main.rs:27 | trimming twice is trimming once |
| Text.TrimPadded | server/src/main.rs:27 | with NUL padding after the data, `trim` removes only the leading whitespace; whitespace before the padding survives |
| Text.TrimStartPadded | server/src/main.rs:27 | leading-whitespace removal is unaffected by padding that follows |
| Text.Remove | server/src/main.rs:27 | `replace("\0", "")` leaves no NUL, never lengthens, and leaves a NUL-free text alone |
| Text.RemoveConcat | server/src/main.rs:27 | deleting a character works piecewise over a concatenation |
| Text.RemoveZeros | server/src/main.rs:27 | deleting NUL from the padding leaves nothing |
| Text.CleanPadded | client/src/main.rs:120 | a NUL-free text with no whitespace at its ends comes back unchanged from trim-then-strip of the padded buffer |
| Text.Replace | server/src/main.rs:27 | `replace("^", "#")` keeps the length, changes exactly the `a` characters to `b`, and leaves other characters in place |
| Text.IndexOf | server/src/main.rs:31 | the first occurrence of the separator, or the length if there is none |
| Text.Split | server/src/main.rs:31 | `split` on one character yields at least one piece, and no piece contains the separator |
| Text.SplitJoin | server/src/main.rs:38 | joining the pieces of a split with the separator gives back the text |
| Text.JoinSplit | server/src/main.rs:38 | splitting a join of separator-free pieces gives back the pieces |
| Text.SplitFirst | server/src/main.rs:31-38 | the first piece is the text up to the first separator; there are more pieces exactly when a separator occurs; the other pieces joined are the text after it |
| Text.SplitAt | server/src/main.rs:71 | a separator-free prefix and a separator split off as one piece |
| Text.NonEmpty | server/src/main.rs:72 | the `len() > 0` filter keeps only non-empty pieces drawn from the input, and is the identity when none is empty |
| Text.NonEmptySnoc | client/src/main.rs:121-125 | filtering one more piece appends that piece exactly when it is non-empty |
| Text.Pieces | client/src/main.rs:121-122 | the kept pieces are non-empty and free of the separator |
| Text.Encode | server/src/main.rs:75 | a sequence of frames on the wire: each frame followed by the delimiter, the last character being the delimiter |
| Text.PiecesEncode | client/src/main.rs:121-125 | framing round trip: the non-empty pieces of encoded frames are exactly the frames |
| Text.Utf8Width | server/src/main.rs:29 | a character takes 1 to 4 UTF-8 bytes, and exactly 1 when it is ASCII |
| Text.ByteLen | server/src/main.rs:29 | `len()` in bytes lies between the character count and four times it, is 0 only for the empty text, and equals the character count for ASCII |
| Text.ByteLenConcat | server/src/main.rs:29 | byte length adds up over concatenation |
| Server.Decode | server/src/main.rs:27 | the decoded text contains neither `^` nor NUL and is no longer than the buffer |
| Server.DecodeRead | server/src/main.rs:25-28 | a read of `d` into the zeroed buffer decodes to `d` with leading whitespace removed and `^` escaped; trailing whitespace is kept |
| Server.DecodeClean | server/src/main.rs:25-28 | text without `^`, NUL or leading whitespace is decoded to exactly itself |
| Server.Parse | server/src/main.rs:30 | a text is plain chat exactly when it is empty or does not start with `/`, and chat carries the text unchanged |
| Server.ParseCommand | server/src/main.rs:31-50 | help, whoami and unknown are decided by the command word alone; "name" is a rename exactly when "/name " starts the text, the new name being everything after it, and is bare exactly for "/name" |
| Server.ParseRename | server/src/main.rs:36-38 | a text starting with "/name " renames to the rest of the text, spaces included |
| Server.Respond | server/src/main.rs:29-54 | out-of-range texts are silent; only a rename to the text after "/name " changes the name; every broadcast is the chat line or the rename notice |
| Server.Dispatch | server/src/main.rs:32-54 | only a rename changes the name, and broadcasts happen exactly for chat and rename |
| Server.RespondChat | server/src/main.rs:52-54 | an in-range text not starting with `/` is broadcast as `"<name>: <text>^"` and the name is kept |
| Server.RespondRename | server/src/main.rs:36-41 | "/name x" broadcasts `"Server: <old> changed to x^"` and the name becomes x |
| Server.RespondBareName | server/src/main.rs:36-42 | bare "/name" sends nothing and keeps the name |
| Server.RespondHelp | server/src/main.rs:33-35 | command word "help" replies the joined command list and keeps the name |
| Server.RespondWhoAmI | server/src/main.rs:43-45 | command word "whoami" replies `"System: Your name is <name>^"` |
| Server.RespondUnknown | server/src/main.rs:48-50 | any other command word, the empty one included, replies the unknown-command notice |
| Server.BroadcastIsOneFrame | server/src/main.rs:39-53 | a name free of `^` stays free of it, and every broadcast is exactly one frame |
| Server.TrailingSpaceRename | server/src/main.rs:27-40 | "/name " keeps its trailing space through decoding and renames the connection to the empty name |
| Server.TrailingSpaceKept | server/src/main.rs:27 | "/name " followed by padding decodes to "/name " |
| Server.RenameToEmpty | server/src/main.rs:36-40 | "/name " renames to the empty name |
| Server.Channel.Send | server/src/main.rs:22 | `tx.send` appends the message to the queue |
| Server.Channel.TryRecv | server/src/main.rs:69 | `try_recv` returns and removes the oldest message, or nothing when the queue is empty |
| Server.Connection.constructor | server/src/main.rs:19-22 | the connection is named after its peer, its buffer is all NUL, and the connect notice is queued |
| Server.Connection.Consume | server/src/main.rs:25-28 | the text decoded from the data at the front of the zeroed buffer is returned, and the buffer is zeroed again |
| Server.Connection.Clear | server/src/main.rs:28 | every buffer cell is NUL afterwards |
| Server.Connection.Step | server/src/main.rs:24-56 | read errors end the loop with an error and a zero-byte read ends it cleanly, both leaving name and queue alone; otherwise the name and the queued broadcast follow `Respond`, a failed reply write ends the loop, and the buffer is zero again |
| Server.Framed | server/src/main.rs:75 | each frame is written followed by `^` |
| Server.WritesAllDelivered | server/src/main.rs:71-83 | when every write to a client succeeds, it receives each non-empty piece once, in order, followed by `^` |
| Server.FramedSnoc | server/src/main.rs:71-75 | one more piece adds its frame exactly when it is non-empty |
| Server.SkipEmpty | server/src/main.rs:72 | an empty piece is written to no client |
| Server.WritesIgnoreOtherClients | server/src/main.rs:73-80 | what a client receives depends only on its own writes, so a failed write does not skip later clients |
| Server.SingleFrameFanOut | server/src/main.rs:71-83 | a message that is one frame is written exactly once to each client whose write succeeds |
| Server.Router.Drain | server/src/main.rs:69-88 | with an empty queue nothing changes; otherwise the oldest message is dequeued and fanned out to every client |
| Server.Router.Deliver | server/src/main.rs:71-85 | every client's writes grow by exactly the fan-out of the message, and no client is added or removed |
| Server.Router.WriteAll | server/src/main.rs:73-82 | the piece, followed by `^`, is added to the writes of every client whose write succeeds, whether or not writes to other clients failed, and to no other client |
| Server.Router.Accept | server/src/main.rs:90-101 | exactly one client is appended, and its connection starts named after the peer, announcing itself |
| Server.Router.Tick | server/src/main.rs:68-108 | one loop iteration: the existing clients get the fan-out of the oldest message, at most one client is appended, none is removed, and the new connection sends on this router's channel |
| Client.Received | client/src/main.rs:120-125 | the logged entries of one read are non-empty and contain neither `^` nor NUL |
| Client.ReceivedNothing | client/src/main.rs:118-125 | an all-padding buffer logs nothing |
| Client.ReceivedFrames | client/src/main.rs:118-125 | frames written by the server (non-empty, free of `^` and NUL, not starting with whitespace) are logged one entry each, in order |
| Client.App.constructor | client/src/main.rs:52-55 | an empty input, an empty log and a zeroed buffer |
| Client.App.HandleKey | client/src/main.rs:93-113 | Enter sends the input, resetting it on success and logging one notice on failure; Esc exits and changes nothing; other keys apply the edit only while the input is under 100 bytes |
| Client.App.Receive | client/src/main.rs:118-133 | a successful read appends exactly the frames of the buffer and zeroes it; WouldBlock appends nothing; any other error appends one entry; the input is unchanged |
| Client.App.Fill | client/src/main.rs:118 | the read leaves the data at the front of the zeroed buffer |
| Client.App.Log | client/src/main.rs:121-125 | the non-empty pieces are appended in order, and earlier messages are kept |
| Client.App.Clear | client/src/main.rs:126 | every buffer cell is NUL afterwards |
| Client.App.Tick | client/src/main.rs:87-133 | Esc exits before reading and changes nothing; otherwise the input is reset by a successful send, replaced by an edit while under 100 bytes and kept otherwise, and the log grows by the key's notice, if any, and then by the read's entries |
| Client.CursorU16 | client/src/main.rs:181 | `cursor as u16` truncates to 16 bits |
| Client.InputWidth | client/src/main.rs:180 | `width.max(3) - 3` is the area minus 3, or 0 for a narrower area, with no underflow |
| Client.Scroll | client/src/main.rs:181 | `scroll + min(cursor, width) == cursor`, and the scroll is 0 exactly when the cursor fits |
| Client.CursorColumn | client/src/main.rs:187 | the cursor's column is within the width, and column plus scroll is the cursor |
| Client.Visible | client/src/main.rs:193-201 | the visible messages are the last `min(len, height)` of the log, in order |
| Wire.ChatReachesClient | server/src/main.rs:52-54 | a decoded chat text is broadcast as one line, written once to each client whose write succeeds, and logged there as `"<name>: <text>"` |
| Wire.ChatLineFannedOut | server/src/main.rs:71-83 | a chat line is written once to every client whose write succeeds |
| Wire.ChatLineLogged | client/src/main.rs:118-125 | a client reading a chat line logs `"<name>: <text>"` |
| Wire.OneLine | client/src/main.rs:118-125 | one delimited line, with any padding after it, is logged as one entry |

## Behaviour worth knowing

The model follows the code as written, including these consequences:

- A read error ends `handle_client` through `?`, and WouldBlock is such an error (server/src/main.rs:25). The connection's loop then ends rather than retrying.
- Commands are split on a single space, not on runs of whitespace (server/src/main.rs:31). So "/name  x" renames to " x".
- Clients are never removed from `clients`, and frames split across two reads are not reassembled.
- Trailing whitespace survives decoding, because the NUL padding follows it when `trim` runs. So "/name " renames a connection to the empty name (`Server.TrailingSpaceRename`).

## Left out

- TCP and socket plumbing:
  - Binding, accepting, connecting, cloning, reading and writing are replaced by parameters: a `ReadOutcome`, a reply-success flag, the `delivered` function and an optional peer address.
  - Partial writes before a failure are not modelled. A failed write delivers nothing.
- The tokio runtime, `tokio::spawn` and concurrency:
  - Connections and the main loop are modelled as separate step methods on a shared `Channel`. Their interleaving is not modelled.
  - The channel's capacity of 32 and its back-pressure are left out. `send` always succeeds.
- `String::from_utf8_lossy`:
  - Buffers hold characters, one per cell, so invalid UTF-8 repair is left out.
  - Only the 100-byte length limit counts UTF-8 bytes (`ByteLen`). The 512-cell capacity counts characters.
- DNS lookup and terminal setup and teardown (client/src/main.rs:33-71).
- The client's initial `/name` argument send (client/src/main.rs:39-41). It is an ordinary write of a text the server then handles like any other.
- `println!` logging on both sides.
- `tui` layout and rendering. The model keeps only the width, scroll and cursor arithmetic and the message window.
  - `Client.CursorColumn` leaves out the addition of the input area's x origin (client/src/main.rs:187).
- `tui_input`'s key handling, a foreign library. Its result arrives as the `Input` carried by `Key.Other`.
- The `tmp.len() > 1` test (server/src/main.rs:37) always holds once the command word is "name", so it is not modelled separately.
- Server.Router.WriteAll: the order of writes across clients (index order within one piece) is not recorded; each client keeps only its own list of writes, so the contract states what each client receives, not the interleaving.
- `stream.peer_addr()?` failing (server/src/main.rs:18-19): the source then ends `handle_client` before the connect notice is sent, but `Server.Router.Accept` always queues the notice, because the peer address is the accepted address passed in.
- Terminal event errors: `poll(...)?` and `event::read()?` (client/src/main.rs:91-92) can end `run_app` with an error; `Client.App.Tick` has no such outcome, because a polled key arrives as a parameter.
- Server.Respond: its own contract states only the length filter, the name change and the shape of broadcasts. The outcome of each command is stated by the `Respond*` lemmas.
