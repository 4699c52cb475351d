# FileClientServer: a Dafny model of the upload protocol

FileClientServer moves one file per TCP connection from a client to a server.
The client announces the file as a text line `"<name>, <size>\n"`. The server
answers `"allow\n"` when its free space is strictly larger than the size and
`"not allow\n"` otherwise. The client then streams exactly `<size>` raw bytes
and waits for `"finish\n"`.

The server runs one epoll loop over all connections. It keeps a global table
`clnts_info`, indexed by socket descriptor, holding each upload's name, bytes
still due (`nleft`), bytes received (`nsent`) and destination file. An event
on the listening socket means accept, negotiate and, when admitted, one
transfer step at once. An event on any other descriptor means one transfer
step of at most `BUF_SIZE` (1024) bytes. The step that brings `nleft` to 0
sends `"finish\n"` and removes the descriptor from the interest set.

The model has five modules:

- `LibC` (libc.dfy) models the three C library routines the protocol text
  relies on. `strtok` is `StrTok`, a function of the saved position,
  specified against `Tokens`: the non-empty fields of the string split on the
  delimiters. `atol` is `Atol` and the `%ld` conversion is `FormatLong`.
- `Protocol` (protocol.dfy) holds the constants both programs define and the
  shared chunk rule `Chunk(nleft) = min(nleft, BUF_SIZE)`. It also holds the
  chunk sequence of a whole transfer and how many steps a transfer takes.
- `FileClient` (file_client.dfy) models `is_allowed`, the strtok loop that
  takes the file name out of the path, the control-line format,
  `send_control_message` and the send loop of `send_file_to_server`.
- `FileServer` (file_server.dfy) first describes the server as values. A
  `ServerState` holds the table, the interest set and a log of what was sent
  and closed. Each operation is a function on it, with its properties and
  invariants proved. The class `Server` then models the code itself: the
  `clntsInfo` array and the interest set are updated in place. Each method
  is proved to change the object's state exactly as the matching function
  says.
- `Handshake` (handshake.dfy) connects the two programs. The server parses
  back what the client formats. The client's `is_allowed` reads the server's
  decision. An upload leaves the client's bytes in the destination file.

Undefined behaviour in the C code is stated as a precondition, not modelled.
This covers a control line with fewer than two tokens, names too long for
the 256-byte buffers, descriptors at or above `MAX_FILE` (63), and an admitted
negative size, whose count would be passed to `fread`. `CanDispatch` collects
these conditions for one event.

The code has no error path for a malformed control line, no abort on a
short or empty read, no check of the name against path traversal and no
negotiation timeout. The model follows the code:

- `atol` reads junk as 0.
- `nleft` drops by the requested chunk whatever `fread` returned.
- The name is used unchecked.
- `remove_clnt_sock` leaves the table slot as it was.

## Model

| member | source | states |
|---|---|---|
| `LibC.StrTok` | FileServer.c:155-157 | One strtok call returns NULL exactly when only delimiters are left. Otherwise it returns the first remaining token, and the tokens after the new saved position are the rest. |
| `LibC.TokensShape` | FileServer.c:155 | Every token strtok can return is non-empty and contains no delimiter. |
| `LibC.TokensJoin` | FileClient.c:118-122 | A delimiter splits the token list into the tokens on its left followed by those on its right. |
| `LibC.DecimalNat` | FileClient.c:125 | The `%ld` numeral of a non-negative value is non-empty, all digits, with no leading zero except in "0". |
| `LibC.FormatLong` | FileClient.c:125 | `%ld` writes only digits and a minus sign, and only digits exactly when the value is not negative. |
| `LibC.AtolFormatLong` | FileServer.c:158 | `atol` of what `%ld` wrote is the original value, for every value. |
| `LibC.Atol` | FileServer.c:158 | Defined as `atol`: skip white space, read an optional sign, then the digit run. The contract states that the value is negative only when the text has a '-', and that text without digits reads as 0. |
| `LibC.AtolOfJunk` | FileServer.c:158 | `atol` of a token not starting with white space, a sign or a digit is 0, so there is no error path. |
| `Protocol.Chunk` | FileServer.c:189-197 | The step size is at most BUF_SIZE and at most `nleft`, and equals one of them. It is never negative for `nleft` >= 0 and never 0 for `nleft` > 0. |
| `Protocol.ChunkPlan` | FileClient.c:146-162 | The send loop for n bytes makes ceil(n/1024) chunks, each between 1 and BUF_SIZE bytes. |
| `Protocol.ChunkPlanFacts` | FileClient.c:146-162 | The chunks add up to the file size, and every chunk but the last is a full BUF_SIZE. |
| `Protocol.AdvanceNClosedForm` | FileServer.c:189-203 | After k steps, max(0, n - 1024k) bytes are still due. |
| `Protocol.TransferLength` | FileServer.c:189-205 | Bytes are still due after fewer than ceil(n/1024) steps and none after exactly that many. |
| `FileClient.IsAllowedOnlyForAllow` | FileClient.c:79-88 | `is_allowed` accepts "allow\n" and rejects "not allow\n", "allow" without its newline and other near misses. |
| `FileClient.IsAllowed` | FileClient.c:79-88 | The reply allows the upload exactly when it has the length of "allow\n" and matches it character by character, as `strcmp` compares. |
| `FileClient.ExtractFileName` | FileClient.c:117-123 | The strtok loop leaves in the name the last token of the path split on '/' and '\n', or "" when there is none. |
| `FileClient.BaseNameShape` | FileClient.c:118-123 | The extracted name contains no '/' or '\n'. It is empty exactly when the path is made only of those characters. |
| `FileClient.BaseNameOfEntry` | FileClient.c:118-123 | For `dir + "/" + entry` with a plain entry, the name is the entry. |
| `FileClient.BaseNameExample` | FileClient.c:118-123 | "dir/sub/a.txt" gives "a.txt". |
| `FileClient.BaseNameIgnoresExtraSlashes` | FileClient.c:118-123 | A leading slash, a trailing slash or a doubled slash does not change the name. |
| `FileClient.FormatControl` | FileClient.c:125 | The control line starts with the name followed by ", " and ends with '\n'. When the name has no '\n', the line has no other '\n', so the server's `fgets` reads it as one line. |
| `FileClient.SendControlMessage` | FileClient.c:90-133 | The newline of the entered line is dropped and the name is extracted from the path, so it has no '/' or '\n'. The line sent is the name, ", ", the `%ld` size and "\n". The result is "allowed" exactly when the reply is "allow\n". |
| `FileClient.SendFileToServer` | FileClient.c:135-170 | The loop writes the whole file, in order, in the chunks of `ChunkPlan`, that is ceil(size/1024) of them. It ends with all bytes sent, and completion is recognised only for the exact line "finish\n". |
| `FileServer.ParseControl` | FileServer.c:153-158 | The name is the first token of the line split on ',', ' ' and '\n'. The size is `atol` of the second token. |
| `FileServer.AddClient` | FileServer.c:124-140 | The slot for `fd` gets the name, `nleft = size`, `nsent = 0` and an empty file at "./ServerFiles/" followed by the name. `fd` joins the interest set, and no other slot changes. |
| `FileServer.Negotiate` | FileServer.c:142-182 | The upload is admitted exactly when the free space is strictly greater than the size. Admitted: the slot is filled as `AddClient` says and "allow\n" is sent. Refused: the table and interest set are unchanged and only "not allow\n" is sent. |
| `FileServer.Deregister` | FileServer.c:216-224 | The descriptor leaves the interest set and is closed. Its table slot is not cleared. |
| `FileServer.TransferStep` | FileServer.c:184-214 | Only slot `fd` changes. `nleft` drops by `Chunk(nleft)` and stays non-negative, and `nleft + nsent` is unchanged. The file grows by the first `Chunk(nleft)` bytes of the buffer. "finish\n" is sent and `fd` deregistered exactly when `nleft` reaches 0; otherwise `fd` stays registered. |
| `FileServer.Initial` | FileServer.c:114-122 | Before the loop the table has MAX_FILE zeroed slots, only the listening socket is registered, nothing has been sent, and the server invariant holds. |
| `FileServer.InitialInv` | FileServer.c:114-122 | The initial state satisfies the server invariant: the listening socket is registered and no upload is. |
| `FileServer.InvEnablesStep` | FileServer.c:282-285 | Under the invariant, every registered descriptor other than the listening socket can take a transfer step. |
| `FileServer.TransferStepInv` | FileServer.c:198-203 | A step keeps the invariant, including that the file length equals `nsent`. |
| `FileServer.DispatchInv` | FileServer.c:263-285 | Handling one event keeps the invariant. It also keeps "every registered upload has bytes due" between events. |
| `FileServer.Dispatch` | FileServer.c:263-285 | Defined by the branches of the loop body. A listening-socket event goes to `Negotiate`, then to `TransferStep` when admitted or to a `Close` when refused; any other descriptor gets one `TransferStep`. The contract states that the table keeps its size and the effect log only grows. |
| `FileServer.NegotiateFrame` | FileServer.c:142-182 | Negotiation on a descriptor changes no other slot and no other registration, and adds exactly one reply to that descriptor: "allow\n" when admitted, "not allow\n" otherwise. |
| `FileServer.TransferStepFrame` | FileServer.c:184-214 | A transfer step on a descriptor changes no other descriptor's registration, and every effect it adds is on that descriptor. |
| `FileServer.DispatchFrame` | FileServer.c:263-285 | Handling an event changes only its target descriptor: the accepted connection for the listening socket, the ready descriptor otherwise. No other slot or registration changes, and every effect added is on the target. |
| `FileServer.Run` | FileServer.c:254-287 | Defined as `Dispatch` applied to each event in turn. The contract states that the table keeps its size and the effect log only grows. |
| `FileServer.RunFrame` | FileServer.c:254-287 | Over a run of events, a slot no event targets is unchanged, and every effect added is on some event's target descriptor. |
| `FileServer.RunInv` | FileServer.c:254-287 | The dispatch loop keeps both invariants over any run of events. |
| `FileServer.ExactFitRefused` | FileServer.c:165-166 | A size equal to the free space is refused and registers nothing. |
| `FileServer.RefusedLeavesNoEntry` | FileServer.c:273-281 | A refused connection leaves the table and interest set unchanged. It sends "not allow\n" and closes the connection. |
| `FileServer.EmptyUploadFinishesOnAccept` | FileServer.c:273-276 | An admitted empty upload is finished within its accept event: allow, finish and close, with the interest set as before. |
| `FileServer.AdmittedUploadRegistered` | FileServer.c:273-276 | After its accept event, an admitted non-empty upload has one chunk counted. It stays registered exactly when it is larger than one buffer. |
| `FileServer.StepsCommute` | FileServer.c:184-214 | Steps on two different descriptors give the same table and interest set in either order. |
| `FileServer.UploadCompletes` | FileServer.c:184-214 | An upload with n bytes due stays registered through its first ceil(n/1024) - 1 steps. It finishes at step ceil(n/1024), with all n bytes counted, the chunks of `ChunkPlan(n)` written, and only finish and close sent. |
| `FileServer.StepsAdvance` | FileServer.c:189-203 | The server's successive steps on one descriptor leave `nleft` equal to `AdvanceN` of its starting value. |
| `FileServer.StepsTransferLength` | FileServer.c:189-206 | An upload with n bytes due still has bytes due after fewer than ceil(n/1024) server steps, and none after exactly that many. |
| `FileServer.UploadStaysRegistered` | FileServer.c:201-206 | An upload with n bytes due is still registered after each of its first ceil(n/1024) - 1 steps. |
| `FileServer.Server.constructor` | FileServer.c:114-122 | The globals start as a newly allocated, zeroed table and an interest set holding only the listening socket. The state is `Initial` and the invariant holds. |
| `FileServer.Server.AddClntSock` | FileServer.c:124-140 | The array slot and the interest set are updated in place as `AddClient` says, and the invariant is kept. |
| `FileServer.Server.ReceiveControlMessage` | FileServer.c:142-182 | The new state and the returned decision are those of `Negotiate`. |
| `FileServer.Server.ReceiveFileFromClient` | FileServer.c:184-214 | The in-place step gives the state `TransferStep` describes and keeps the invariant. |
| `FileServer.Server.RemoveClntSock` | FileServer.c:216-224 | The in-place removal gives the state `Deregister` describes. |
| `FileServer.Server.HandleEvent` | FileServer.c:263-285 | Handling one ready descriptor gives the state `Dispatch` describes. |
| `FileServer.Server.Serve` | FileServer.c:254-287 | The event loop over a run of events gives the state `Run` describes and keeps the invariant. |
| `FileServer.ServeFromStart` | FileServer.c:249-287 | `main`: a server built from `clnt_set_init`'s state, then run over the events, ends in `Run` of the initial state, and both server invariants hold there. |
| `Handshake.ControlLineTokens` | FileClient.c:125 | The server's tokens of a client line are the name's tokens followed by the size numeral. |
| `Handshake.ControlRoundTrip` | FileServer.c:154-158 | For a non-empty name without ',', ' ' or '\n', the server parses back exactly (name, size). |
| `Handshake.ControlRoundTripOnlyIf` | FileServer.c:154-158 | If the server parses back the name, the name is non-empty and free of ',', ' ' and '\n'. |
| `Handshake.ControlParsableIff` | FileServer.c:155-157 | Both strtok calls succeed on a client line exactly when the name has a token. |
| `Handshake.NameWithSpaceMisread` | FileServer.c:155-158 | A name "a b" reaches the server as name "a" with size `atol("b")`, since nothing sanitises names. |
| `Handshake.ClientReadsDecision` | FileServer.c:166-181 | The server sends exactly one reply line to the new descriptor. `is_allowed` of that reply is the admission decision. |
| `Handshake.WrittenIsStream` | FileServer.c:198-203 | When each server buffer holds the client's matching chunk, the bytes the steps write are exactly the client's stream. |
| `Handshake.UploadDeliversFile` | FileServer.c:184-214 | For an admitted upload fed the client's stream, after ceil(n/1024) steps the file equals the stream. All n bytes are counted, "finish\n" is sent and the descriptor is deregistered. |

## Left out

- Sockets and epoll (`socket`, `bind`, `listen`, `accept`, `connect`, `inet_pton`, `htons`, `epoll_create`, `epoll_ctl`, `epoll_wait`) are not modelled. The interest set is a set of descriptors. Each `Event` carries the ready descriptor and what `accept`, `fgets` and `fread` return while handling it.
- The `while(1)` loop over `epoll_wait` batches becomes `Serve` over a finite sequence of events. A batch reports each descriptor at most once, so flattening batches into one sequence loses nothing.
- `statvfs` is not modelled. Free space (`f_bsize * f_bfree`) is a parameter of each accept event, and a `statvfs` failure is not modelled.
- stdio (`fdopen`, `fopen`, `fread`, `fwrite`, `fflush`, `fclose`) is not modelled. The destination file is the path it was opened at plus the bytes written through it. The buffer content after `fread` is a parameter, and short reads are not distinguished, as the code does not distinguish them. `fclose`/`close` appear as `Close` effects.
- `fopen` failure is not modelled: `AddClient` always opens an empty file. `fopen(file_path, "wb")` (FileServer.c:137) returns NULL when `./ServerFiles/` is missing, or when the unchecked name runs through a directory that does not exist (the name "a/b", since the server's strtok does not split on '/'). The next step's `fwrite`/`fflush` on NULL (FileServer.c:199-200) is then undefined. The model assumes the destination can always be opened.
- The model assumes epoll reports an upload's descriptor once per transfer step. `fread` through the buffered `sock_read_fp` (FileServer.c:198) can pull more than `BUF_SIZE` bytes off the socket at once. Level-triggered epoll then need not report the descriptor again, so the upload can stall with bytes still due. The proved properties hold whenever the steps happen; the model does not promise that they do.
- `printf` logging, `error_handler`'s `exit` and the client's prompt are not modelled. The entered line, the file's bytes and the server's reply lines are parameters of the client methods.
- The client's `main`, opening and `stat`-ing the file, and the `fopen`/`stat` failure exits are not modelled. The file's size is the length of its content.
- `Atol`: values outside the range of `long` are undefined in C. The model gives them their mathematical value. Sizes, `nleft` and `nsent` are unbounded integers, and a 64-bit `long` overflow is not modelled.
- Strings are sequences of characters with no NUL inside, as every C string here is. The 1023-character limit of `fgets` on the control line and the 255-character limit on the entered path are not modelled. Names beyond the 256-byte buffers are excluded by preconditions.
- `FileClient.FormatControl` does not prove that `snprintf` into the 1024-byte buffer never truncates. With a name under 256 characters and at most 20 characters for a `long`, it cannot.
- Two uploads of the same name open the same path. The model keeps each upload's written bytes separately and does not model the shared file on disk (last writer wins).
