# aesdsocket: the append-and-echo server, modelled in Dafny

`aesdsocket` is a TCP server. Each client connection is handled in turn by
`handle_client_connection`, which works as follows:

- It opens the data file `/var/tmp/aesdsocketdata` in `"a+b"` mode.
- For every chunk that `recv` delivers, it appends the whole chunk to the file
  and rewinds the stream.
- For every `'\n'` in the chunk, it runs the echo loop `while ((character =
  fgetc(file)) != EOF) send(character)`.

The file outlives the connection. The accept loop in `main` handles one client
after another, and the file is removed only once that loop ends.

The model has four modules:

- `Stdio` (stdio.dfy) covers:
  - bytes as `fgetc` returns them, and `EOF`;
  - the conversion of an `fgetc` result into the variable `character`, whose
    type is a parameter (`CharType`): a signed `char`, an unsigned `char`, or the
    `int` that `fgetc`'s result type calls for;
  - the class `DataFile`. Its fields are the file's contents and the stream's
    read position, and its methods are `fopen` in `"a+b"` mode, `fwrite`,
    `fseek(…, 0, SEEK_SET)`, `fgetc` and `remove`.
- `Echo` (echo.dfy) is the echo loop as functions of the bytes left in the
  stream:
  - `Echoed` and `Consumed` describe a pass that ends;
  - `Iterate` runs the loop for a bounded number of rounds for every `CharType`,
    including the one on which it never ends.
- `Handler` (handler.dfy) is the connection handler as three nested loops
  over a `DataFile`, for the echo loop, the byte scan and the `recv` loop:
  - the loops are the methods `EchoToEof`, `HandleChunk` and `ReceiveLoop`;
  - each is proved against a specification function, `Echoed`, `ChunkReply`
    and `Session` respectively;
  - `HandleConnection` wraps the `fopen` check and the closing of the client
    socket around `ReceiveLoop`;
  - the lemmas prove properties of those functions.
- `Server` (server.dfy) is the accept loop and the final `remove` (`Serve`),
  proved against `Outcomes`. The lemmas show that the log carries over from one
  client to the next.

`recv` is modelled as the list of results it returns, in order. Each result is
data, an orderly shutdown, or an error. A list that ends on data stands for a
handler still waiting in `recv`: it has not closed the client socket. `accept` is the list of rounds the loop
runs before a signal clears `is_running`: each round is a failed accept or a
client. Whether `fopen` succeeds is a parameter of the round.

The code and the design description differ in several ways; the model follows
the code:

- The code has no threads, mutex, handler registry or periodic timestamp
  writer. Connections are handled inline in the accept loop, one after another.
- The design says a handler whose log cannot be opened closes its connection.
  The code returns without closing `client_fd`, and the model reports
  `closed == false` on that path.
- The design says every `'\n'` chunk sends the whole log. The code stops the
  echo at the first byte whose `char` value equals `EOF` (see "## Findings").

## Model

| member | source | states |
|---|---|---|
| Stdio.Held | server/aesdsocket.c:192-193 | an `int` keeps the `fgetc` result; a signed `char` holds a value in -128..127 and an unsigned `char` a value in 0..255, each differing from the result by a multiple of 256 |
| Stdio.LowByte | server/aesdsocket.c:195 | `send(&character, 1)` transmits the byte equal to `character` modulo 256; for an `int` this is the byte a little-endian ABI puts first |
| Stdio.HeldIsEof | server/aesdsocket.c:193 | `character != EOF` fails exactly at end of file for a signed `char` or `int`, and also on byte 0xFF for a signed `char`; for an unsigned `char` it never fails |
| Stdio.DataFile.constructor | server/aesdsocket.c:16 | the data file as the server finds it: given contents, read position 0 |
| Stdio.DataFile.Open | server/aesdsocket.c:174 | `fopen` in `"a+b"` mode keeps the file's contents |
| Stdio.DataFile.Append | server/aesdsocket.c:184 | `fwrite` on an append stream puts the bytes at the end: new contents are old contents followed by the bytes |
| Stdio.DataFile.Rewind | server/aesdsocket.c:185 | `fseek` to 0 moves the read position to the start and leaves the contents alone |
| Stdio.DataFile.Getc | server/aesdsocket.c:193 | `fgetc` returns the byte at the read position and advances it, or returns `EOF` at the end without moving it |
| Stdio.DataFile.Remove | server/aesdsocket.c:67 | after `remove` the file holds no data |
| Echo.Echoed | server/aesdsocket.c:193-196 | a pass of the echo loop sends no more bytes than remain, and none of them reads as `EOF` |
| Echo.EchoedIsPrefix | server/aesdsocket.c:193-196 | a pass sends the remaining bytes in file order, from the read position on |
| Echo.Consumed | server/aesdsocket.c:193 | a pass takes the bytes it sends plus the byte it stopped on, or everything when it reaches end of file |
| Echo.ReadsAsEofExactly | server/aesdsocket.c:192-193 | no byte reads as `EOF` exactly when the variable is not a signed `char` or the bytes hold no 0xFF |
| Echo.IntNoByteReadsAsEof | server/aesdsocket.c:192-193 | with an `int` no byte reads as `EOF` |
| Echo.EchoedUpTo | server/aesdsocket.c:193-196 | a pass sends exactly the bytes before the first byte that reads as `EOF`, and also consumes that byte |
| Echo.EchoedWhole | server/aesdsocket.c:193-196 | when no byte reads as `EOF`, a pass sends everything up to end of file and leaves the stream there |
| Echo.EchoedStopsAtFirstFF | server/aesdsocket.c:192-196 | with a signed `char`, a pass stops at the first 0xFF: it sends the bytes before it and consumes the 0xFF |
| Echo.Iterate | server/aesdsocket.c:192-196 | a run of at most `fuel` rounds sends at most `fuel` bytes |
| Echo.IterateEnds | server/aesdsocket.c:192-196 | with a signed `char` or `int`, the loop ends within one round more than the bytes left, having sent `Echoed` |
| Echo.UnsignedNeverStops | server/aesdsocket.c:192-196 | with an unsigned `char` the loop never stops: every run of n rounds sends n bytes, the remaining file bytes and then 0xFF without end |
| Handler.ScanPrefix | server/aesdsocket.c:187-197 | the scan over a chunk never leaves the read position past the end of the file |
| Handler.Taken | server/aesdsocket.c:182 | the receive loop takes `recv`'s data results in order, up to and excluding the first result that is not data |
| Handler.EchoToEof | server/aesdsocket.c:192-196 | the echo loop sends `Echoed` of the bytes after the read position, advances the position by `Consumed` and leaves the file alone |
| Handler.HandleChunk | server/aesdsocket.c:184-198 | one chunk, for every type of `character` when the chunk holds no `'\n'`: the file gains the whole chunk at its end, and the bytes sent are `ChunkReply` of the old log and the chunk |
| Handler.HandleConnection | server/aesdsocket.c:170-203 | a connection appends all its chunks in order and sends `Session`; it closes the socket exactly when `recv` has returned something other than data, and if the given results run out first the handler is still waiting in `recv`; when `fopen` fails, nothing is appended or sent and the socket stays open |
| Handler.ReceiveLoop | server/aesdsocket.c:182-199 | given results `recv` can return (a data result holds 1 to 1024 bytes), the receive loop handles exactly the data results before the first result that is not data, appending their chunks in order and sending `Session` |
| Handler.ScanWithoutNewline | server/aesdsocket.c:187-198 | for every type of `character`, a scan over bytes without `'\n'` sends nothing and leaves the read position at 0 |
| Handler.NoNewlineNoReply | server/aesdsocket.c:185-198 | for every type of `character`, unsigned `char` included, a chunk without `'\n'` gets no reply, although it is appended |
| Handler.ScanNoByteReadsAsEof | server/aesdsocket.c:187-197 | when no byte of the log reads as `EOF`, the first `'\n'` sends the whole log and leaves the stream at its end; without a `'\n'` nothing is sent |
| Handler.ChunkReplyIsWholeLog | server/aesdsocket.c:184-197 | when no byte of the log reads as `EOF`, a chunk with one or more `'\n'` gets the whole log, new chunk included, exactly once; a chunk without one gets nothing |
| Handler.IntChunkReply | server/aesdsocket.c:184-197 | with `character` an `int`, every chunk holding a `'\n'` gets the whole log exactly once |
| Handler.SignedCharExample | server/aesdsocket.c:185-197 | with a signed `char`, the chunk "a", 0xFF, `'\n'`, `'\n'` on an empty log gets "a\n\n"; with an `int` it gets its four bytes |
| Handler.TakenIgnoresLater | server/aesdsocket.c:182 | `recv` results after the first one that is not data change nothing |
| Handler.FlattenAppend | server/aesdsocket.c:182-184 | the chunks of several receive rounds reach the file one after another, in order |
| Server.Outcomes | server/aesdsocket.c:47-65 | there is one outcome per round of the accept loop |
| Server.OutcomesStep | server/aesdsocket.c:47-65 | proof helper for `Serve`'s loop invariant: one step of `AllStored` and `Outcomes`, each round's bytes and outcome following the earlier rounds' |
| Server.Round | server/aesdsocket.c:51-63 | a failed accept serves no client and leaves the file alone; an accepted client is handled by `HandleConnection` on the current file |
| Server.Serve | server/aesdsocket.c:47-67 | the accept loop serves each round in turn, giving `Outcomes`; the data file is removed afterwards |
| Server.OutcomeOfRound | server/aesdsocket.c:47-63 | round k runs on a file holding the starting log followed by everything rounds 0..k-1 stored |
| Server.LaterClientSeesEarlierData | server/aesdsocket.c:63 | a client whose data file opens, whose one chunk holds a `'\n'` and who then ends the connection gets the starting log and everything earlier clients stored, followed by its chunk, and stores exactly that chunk; this is for `character` a signed `char` or an `int`, with no byte of that log reading as `EOF` |
| Server.OneMoreClient | server/aesdsocket.c:47-65 | a further one-chunk client whose chunk holds a `'\n'` leaves the earlier outcomes unchanged, gets the whole log with its chunk, and stores its chunk at the end; this is for `character` a signed `char` or an `int`, with no byte of that log reading as `EOF` |
| Server.NextClient | server/aesdsocket.c:47-65 | the same as OneMoreClient, with the earlier contents and outcomes named: a further client whose one chunk holds a `'\n'` gets them followed by its chunk, for `character` a signed `char` or an `int`, with no byte reading as `EOF` |
| Server.OneClient | server/aesdsocket.c:47-65 | a single one-chunk client whose chunk holds a `'\n'` gets the starting log followed by its chunk, with `character` a signed `char` or an `int` and no byte reading as `EOF` |
| Server.TwoClients | server/aesdsocket.c:47-65 | of two one-chunk clients whose chunks each hold a `'\n'`, the second gets both chunks in order, with `character` a signed `char` or an `int` and no byte reading as `EOF` |
| Server.ThreeClients | server/aesdsocket.c:47-65 | each of three one-chunk clients whose chunks each hold a `'\n'` gets the starting log and every chunk stored so far, its own included, with `character` a signed `char` or an `int` and no byte reading as `EOF` |
| Server.HelloWorldScenario | server/aesdsocket.c:63-67 | the clients "hello\n", "world\n" and "\n", in turn, get "hello\n", "hello\nworld\n" and "hello\nworld\n\n", with `character` the signed `char` of the code or an `int`; none of these bytes is 0xFF |

## Left out

- Handler.EchoToEof: requires that `character` is not an unsigned `char`, because on that ABI the loop does not terminate. Echo.UnsignedNeverStops states that behaviour on the bounded-run function Echo.Iterate instead.
- Handler.HandleChunk: requires that `character` is not an unsigned `char` or that the chunk holds no `'\n'`. The chunks it excludes are exactly those that start the echo loop on an unsigned `char`, which does not terminate.
- Handler.ReceiveLoop: requires the same of every chunk it takes, for the same reason. Like HandleConnection, it also requires that each data result of `recv` holds 1 to 1024 bytes.
- Handler.HandleConnection: requires the same of every chunk it takes, for the same reason. It also requires that each data result of `recv` holds 1 to 1024 bytes, which is what `recv` can deliver into the buffer.
- Server.Serve: requires that `character` is not an unsigned `char` at all. It therefore does not cover a run on that ABI in which no client ever sends a `'\n'`, which also ends. It also requires each client whose data file opens to end its connection within the given `recv` results. Only then does the handler return and `main` reach the next `accept` and, at the end, `remove`.
- Daemonisation with `fork` and `-d` (server/aesdsocket.c:28-41): process control, no data flow.
- Signal handling and `is_running` (server/aesdsocket.c:18, 72-101): asynchronous. The rounds before the signal are given as a list instead.
- Socket setup, `accept` and `inet_ntop` (server/aesdsocket.c:49-61, 103-168): OS and network plumbing. A setup failure exits before the loop.
- `get_address` (server/aesdsocket.c:80-87): it only selects the address printed in a log line.
- `syslog`, `printf` and `perror`: output side effects with no effect on the data.
- `close(server_fd)` (server/aesdsocket.c:68): no effect on the data.
- Stdio.LowByte: for an `int` `character`, `send(&character, 1)` transmits the first byte in memory. The model takes it to be the low byte, as on a little-endian ABI; on a big-endian ABI every echoed byte would be 0x00. For the `char` the code declares, the byte is the same on every ABI.
- `send`, `fwrite`, `fgetc` and `remove` are taken to succeed, and a short write is not modelled. The code ignores their return values, except `fgetc`'s, where a read error would look like `EOF`.
- The stream's buffering and `fclose` (server/aesdsocket.c:201): the model writes through. Every read of the handler's own stream sees its earlier writes, so no observable behaviour depends on the buffering.
- The initial read position of an `"a+b"` stream follows glibc (position 0). Nothing observable depends on it, because the handler rewinds before every read.
- finder-app/writer.c and examples/systemcalls/systemcalls.h are not part of this model: neither is used by the server.

## Findings

| source | as written | input that shows it | evidently intended | confidence | as-written member | corrected member |
|---|---|---|---|---|---|---|
| server/aesdsocket.c:192-193 | `fgetc`'s `int` result is stored in a `char` and compared with `EOF`; where `char` is signed, byte 0xFF compares equal to `EOF` | One chunk "a", 0xFF, `'\n'`, `'\n'` on an empty log. It gets "a\n\n": the first `'\n'` stops at 0xFF, and the second resumes after it | `int character`, with `send` given an `unsigned char` copy of it (or, unchanged, on a little-endian ABI), so every chunk with a `'\n'` gets the whole log once | not executed | Handler.SignedCharExample | Handler.IntChunkReply |
| server/aesdsocket.c:192-193 | where `char` is unsigned, `EOF` is stored as 255, which never equals `EOF` | Any chunk holding a `'\n'`. Once the log is sent, the loop sends 0xFF forever and the handler never returns | `int character`, with `send` given an `unsigned char` copy of it (or, unchanged, on a little-endian ABI), so the loop ends at end of file | not executed | Echo.UnsignedNeverStops | Echo.IterateEnds |
