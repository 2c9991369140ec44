# Proofs about libsshpp

This project models the parts of libsshpp that hold algorithms and state machines of their own, and proves
what their documentation and tests promise. libssh, sockets and the file system appear as oracles: methods
that may answer anything their contracts allow, such as short reads and writes, any order of applying writes,
and failures at any point. Where a failure matters to a claim, it is recorded in ghost state or chosen by a
parameter, so that contracts say both what success means and when failure is possible.

| module | models |
|---|---|
| Basics | byte strings, results, `pwrite` as an overlay |
| PipelinedRead | `File::ReadAhead`: the request queue and the synchronous loop it stands for |
| PipelinedWrite | `File::WriteBehind` over a server that applies writes in any order |
| ShellQuoting | `shell_quote` and the argv form of `Exec::try_run`, against a POSIX tokeniser |
| ExecCapture | the output loop of `Exec::try_run` |
| EscapeMachine | the escape sequence of `Shell::try_interact` |
| Ownership | `Session`, `Channel` and the shared `SessionCore` |
| ServerAuth | the authentication callbacks over `SimpleAuthHandler` |
| ChannelTable | registration, close notes and deferred removal of server channels |
| Posix | the file system as the SFTP server calls it |
| SftpPath | `resolve_sftp_path` and `to_client_path` |
| SftpProtocol | what the SFTP server is to do with each request, as a relation between states |
| SftpLaws | what a client of that server may rely on, in the wire's own numbers |
| SftpServer | the request loop of the SFTP server and its handle table |
| Listing | READDIR batches, `Directory::next` and `Sftp::try_list`, end to end |
| Transfer | `try_upload` and `try_download`, down to the server's WRITE and READ |
| Pump | the two-way byte pump |
| Socks | the SOCKS4 and SOCKS5 request readers, up to the pump that takes over |
| SocksLaws | what a SOCKS client writes and reads, byte for byte |
| TreeDownload | `try_download_tree`, from any server, whatever it lists |
| RemoteTree | `try_download_tree` over this library's own server, end to end |

## What the proofs found

Some properties one might expect are false of the code as it stands. Each has a lemma with an input that shows
it, or an exact condition under which the property holds.

- The read pipeline advances its offset by the length it asks for, not by the length it is given. Against a server
  that answers with less it skips bytes. This library's own server trims at 64 KiB while the default request has
  256 KiB, so the default pipeline is complete there only if libssh's own read limit is within 64 KiB, as it is
  where none is advertised (include/sshpp/detail/sftp.ipp:124), or the file is (`PipelineCompleteIff`,
  `DefaultChunkAgainstTrimmingServer`).
- An error object counts as an error only if its code is not 0, and a failed SFTP call can leave code 0 behind. Then
  `WriteBehind::try_flush` and `Sftp::try_list` report success (`SilentFailureExample`, `TryFlush`,
  `CollectedIsWholeIff`).
- With CR or LF as escape character the interactive shell misses detach sequences (`MeetsSpecIff`).
- A transfer with a chunk size of 0 moves nothing and succeeds, and so does each file of a tree download
  (`RoundTrip`, `CopyIsWholeIff`).
- A download whose local writes fail, and an upload whose local reads fail, still succeed (`TryDownload`, `TryUpload`).
- FSTAT on a directory handle asks about a path, not about the directory that is open (`FstatOfDirectoryIff`).
- An argument with a NUL is cut off there, with everything after it (`ShellReadsBackIff`).

Also worth knowing: `resolve_sftp_path` accepts a client path that leaves the root and re-enters it through the
root's own name (`ResolveAcceptsReentry`); what it accepts is still always under the root, as long as no symbolic
link is involved.

## Model

| member | source | states |
|---|---|---|
| `PipelinedRead.PipelineCompleteIff` | include/sshpp/detail/file.ipp:147-203 | for every file, start, request length and server ceiling: the answers to requests laid end to end past the end of the file are the rest of the file if and only if no request was trimmed (its length is within the ceiling, or all that is left is) |
| `PipelinedRead.JoinedIsTheFile` | include/sshpp/detail/file.ipp:159-195 | the first k untrimmed answers, put together in submission order, are exactly the first k requests' worth of the file |
| `PipelinedRead.JoinedSkipsBytes` | include/sshpp/detail/file.ipp:159-195 | when requests are trimmed, the answers are strictly shorter than the part of the file they were meant to cover: bytes in the middle are missing |
| `PipelinedRead.DefaultChunkAgainstTrimmingServer` | include/sshpp/detail/file.ipp:142-150 | the default 256 KiB pipeline, whose requests libssh shortens to its read limit, against a server that answers at most 64 KiB (include/sshpp/detail/server_sftp_subsystem.ipp:336): it delivers the file if and only if libssh's limit is at most 64 KiB or the file is |
| `PipelinedRead.ReadAhead.constructor` | include/sshpp/detail/file.ipp:147-150 | a chunk or depth of 0 becomes the default; the pipeline starts empty at the file's offset |
| `PipelinedRead.ReadAhead.SubmitOne` | include/sshpp/detail/file.ipp:159-167 | one more request at the next offset, entered in the ledger of requests in flight, or nothing changes |
| `PipelinedRead.ReadAhead.Fill` | include/sshpp/detail/file.ipp:173-176 | fills the queue to its depth and never past it, unless the end was seen or a request is refused |
| `PipelinedRead.ReadAhead.WaitFront` | include/sshpp/detail/file.ipp:178-193 | finishes the oldest request; an empty answer frees all others; a failed wait loses its bytes and is remembered as a gap |
| `PipelinedRead.ReadAhead.TryNext` | include/sshpp/detail/file.ipp:170-195 | fails exactly when the file is closed or a libssh call fails; otherwise appends a chunk in file order, and without a gap an empty answer means the whole rest was delivered, if and only if no request was trimmed; after the end it answers empty for ever |
| `PipelinedRead.ReadAhead.DeliveredSoFar` | include/sshpp/detail/file.ipp:170-195 | what the queue's invariant says about the delivered bytes in terms of the file alone |
| `PipelinedRead.ReadAhead.FreeAll` | include/sshpp/detail/file.ipp:187-190 | frees every request in flight exactly once |
| `PipelinedRead.ReadAhead.Destroy` | include/sshpp/detail/file.ipp:152-156 | after the destructor no request begun through the object is outstanding |
| `PipelinedRead.SyncReadAhead.TryNext` | include/sshpp/detail/file.ipp:195-202 | the synchronous branch delivers exactly the rest of the file, whatever the server trims, then empty for ever |
| `PipelinedRead.BranchesAgreeIff` | include/sshpp/detail/file.ipp:170-203 | read to the end without a failed wait, both branches have delivered the same bytes if and only if no request was trimmed |
| `PipelinedWrite.BeginKeepsConsistent` | include/sshpp/detail/file.ipp:234-241 | beginning a request at the current offset keeps the relation between file, bytes sent and requests not yet applied |
| `PipelinedWrite.ApplyKeepsConsistent` | include/sshpp/detail/file.ipp:234-241 | so does applying any unsettled request, in any order |
| `PipelinedWrite.SettledIsOverlay` | include/sshpp/detail/file.ipp:256-268 | when nothing is unsettled the file is the old one with the concatenated data laid over it: the order of the writes no longer shows |
| `PipelinedWrite.FirstVisibleMeaning` | include/sshpp/detail/file.ipp:258-264 | the error that flush reports is the first, in the order of the requests, whose code is not 0, and there is none exactly when no outcome has such a code |
| `PipelinedWrite.NothingVisible` | include/sshpp/detail/file.ipp:258-264 | when flush reports success, all requests succeeded if and only if no failure carried code 0 |
| `PipelinedWrite.NothingVisibleInBoth` | include/sshpp/detail/file.ipp:258-264 | what earlier calls and a flush report as success is a success over both |
| `PipelinedWrite.SilentFailureExample` | include/sshpp/detail/file.ipp:258-264 | a failed write whose code is 0 is reported as success: the error object tests false (include/sshpp/error.hpp:126) |
| `PipelinedWrite.WriteBehind.constructor` | include/sshpp/detail/file.ipp:205-206 | a chunk or depth of 0 becomes the default |
| `PipelinedWrite.WriteBehind.DrainOne` | include/sshpp/detail/file.ipp:213-223 | waits for the oldest request, takes it out of queue and ledger and returns how that request ended |
| `PipelinedWrite.WriteBehind.MakeRoom` | include/sshpp/detail/file.ipp:230-233 | drains until the queue is below its depth, stopping at the first failure |
| `PipelinedWrite.WriteBehind.Submit` | include/sshpp/detail/file.ipp:234-241 | begins a non-empty front part of the piece, of whatever length libssh accepts, and queues it |
| `PipelinedWrite.WriteBehind.WriteTurn` | include/sshpp/detail/file.ipp:229-242 | one turn of the loop begins at least one more byte of the data, or reports an error |
| `PipelinedWrite.WriteBehind.WriteLoop` | include/sshpp/detail/file.ipp:227-243 | the bytes begun are a front part of data, and all of it unless an error is returned |
| `PipelinedWrite.WriteBehind.TryWrite` | include/sshpp/detail/file.ipp:225-243 | fails exactly when the file is closed or a libssh call fails; on success all of data has been begun in order; the queue never exceeds its depth |
| `PipelinedWrite.WriteBehind.DrainAll` | include/sshpp/detail/file.ipp:258-264 | waits on every request in flight exactly once, keeps the first error whose code is not 0 and counts exactly the failures among them |
| `PipelinedWrite.WriteBehind.TryFlush` | include/sshpp/detail/file.ipp:256-268 | the result is decided by how the requests in flight end: the first visible error among them, success if there is none, and always success if nothing fails; if every wait succeeded the file is the old one with everything written laid over it; if no call reported an error, all waits succeeded if and only if no failure carried code 0 |
| `PipelinedWrite.WriteBehind.Destroy` | include/sshpp/detail/file.ipp:208-211 | the destructor leaves nothing outstanding; the handler is given what the flush returns |
| `ShellQuoting.ShellQuote` | include/sshpp/detail/exec.ipp:142-158 | computes the quoted form, which is never empty |
| `ShellQuoting.QuotedOnTheWire` | include/sshpp/detail/exec.ipp:142-158 | letters, digits and eleven marks go as they are, by their codes; everything else, the empty text included, between single quotes |
| `ShellQuoting.BuildCommand` | include/sshpp/detail/exec.ipp:133-140 | a POSIX shell reads the command that arrives back as exactly argv if and only if no element holds a NUL |
| `ShellQuoting.ScanQuoted` | include/sshpp/detail/exec.ipp:142-158 | a quoted element is read as one word with exactly its text, whatever it contains and whatever follows |
| `ShellQuoting.ScanCommandLine` | include/sshpp/detail/exec.ipp:133-140 | the joined line is read word by word |
| `ShellQuoting.ShellReadsBack` | include/sshpp/detail/exec.ipp:133-158 | tokenising and quote removal invert the encoder for every argv: empty arguments, quotes, newlines and every metacharacter |
| `ShellQuoting.CommandLineIsInjective` | include/sshpp/detail/exec.ipp:133-158 | two argument vectors with the same command line are equal |
| `ShellQuoting.AsCStringIsIdentityIff` | include/sshpp/detail/channel.ipp:116-119 | passing the command on as a C string loses nothing if and only if it holds no NUL |
| `ShellQuoting.CommandLineNul` | include/sshpp/detail/exec.ipp:133-158 | the command line holds a NUL if and only if some element does |
| `ShellQuoting.ScanAddsNoNul` | include/sshpp/detail/exec.ipp:133-158 | no word the shell reads holds a NUL that was not in its input, so the read-back fails for an element with one |
| `ShellQuoting.ShellReadsBackIff` | include/sshpp/detail/exec.ipp:133-158 | the exact condition of the read-back, for all argument vectors |
| `ExecCapture.Exec.Take` | include/sshpp/detail/exec.ipp:77-86 | one read goes to the sink, to its text while that is shorter than the limit, or is dropped and flagged; the capture invariant holds again |
| `ExecCapture.Exec.Serve` | include/sshpp/detail/exec.ipp:73-105 | one stream's part of a turn reads the next bytes of that stream only, and accounts for them |
| `ExecCapture.Exec.RunTurn` | include/sshpp/detail/exec.ipp:70-118 | one turn, exactly: what it takes from each stream, and whether it ends the run |
| `ExecCapture.TurnReads` | include/sshpp/detail/exec.ipp:73-105 | in numbers: a turn reads what libssh hands out of each stream, 16384 bytes at most, and nothing of the second after a failed read of the first |
| `ExecCapture.DecidedIsJudged` | include/sshpp/detail/exec.ipp:70-118 | a run outlives a turn if and only if in it no read fails, the output is not complete and the deadline has not passed; the first turn that does one of these ends it, as failed, finished or timed out in this order |
| `ExecCapture.Exec.CaptureMeans` | include/sshpp/detail/exec.ipp:73-105 | once all output has arrived: each text is a beginning of its stream, the whole of it below the limit, and flagged if it is not; merged, one text has the bytes of both; a sink gets everything |
| `ExecCapture.LateEnds` | include/sshpp/detail/exec.ipp:113-118 | a command does not outlive its deadline: a late turn ends the run, as timed out unless something else does |
| `ExecCapture.FairFinishes` | include/sshpp/detail/exec.ipp:70-119 | if no read fails, the deadline does not pass and both streams get their turns before one that reports EOF, the run finishes |
| `ExecCapture.Exec.Run` | include/sshpp/detail/exec.ipp:70-119 | over every behaviour of the channel: each text is a prefix of what arrived (of the interleaving when merged), shorter than the limit plus 16384, flagged if and only if something was dropped; with a sink everything goes there in order; the first turn in which a read fails, the output is complete or the deadline has passed ends it, in this order of precedence, and every such turn does; a finished run has seen all output; and a run in which both streams get their turns before a turn that reports EOF does finish, whatever lies between, unless a read fails or the deadline passes |
| `ExecCapture.ArrivedConserves` | include/sshpp/detail/exec.ipp:70-119 | the merged arrival order is an interleaving of the two streams: same bytes, same number |
| `EscapeMachine.TakeByte` | include/sshpp/detail/shell.ipp:150-173 | the body of the loop for one byte is the transition of the machine |
| `EscapeMachine.Interact` | include/sshpp/detail/shell.ipp:119-174 | for an escape other than CR and LF: detaches exactly at the first escape-then-dot at the start of the input or after a CR or LF, having tried to forward precisely the input before it; otherwise the bytes it tries to forward plus a held escape are the input; disabled, it is the identity; it stops early only when the channel does. Outcomes of writes are not looked at: all of it arrives if and only if no write fails |
| `EscapeMachine.DeliveredIsAllIff` | include/sshpp/detail/shell.ipp:168-172 | what arrives of the bytes forwarded is all of them if and only if every write is accepted |
| `EscapeMachine.RelayInvariant` | include/sshpp/detail/shell.ipp:150-173 | the machine's two flags say what the input says: at a line start, and ending in a held escape |
| `EscapeMachine.RelayMeetsSpec` | include/sshpp/detail/shell.ipp:150-173 | the machine meets the declarative specification on every input |
| `EscapeMachine.DisabledIsIdentity` | include/sshpp/detail/shell.ipp:150-173 | with escapes disabled every byte goes through |
| `EscapeMachine.NewlineEscapeMissesDetach` | include/sshpp/detail/shell.ipp:155-171 | with CR or LF as escape, the input escape, escape, dot holds a detach sequence that the machine misses |
| `EscapeMachine.MeetsSpecIff` | include/sshpp/detail/shell.ipp:150-173 | the machine meets its specification on all inputs if and only if the escape is neither CR nor LF |
| `Ownership.CountedAdd` | include/sshpp/detail/session_core.ipp:11-17 | a new holder keeps the use counts equal to the number of holders |
| `Ownership.CountedDrop` | include/sshpp/detail/session_core.ipp:11-17 | so does dropping a holder, and the core goes with the last one |
| `Ownership.CountedMove` | include/sshpp/detail/channel.ipp:52-70 | so does moving a reference from one object to another |
| `Ownership.DestroyKeeps` | include/sshpp/detail/channel.ipp:42-50 | destruction keeps counts and owners, and every channel left keeps its session |
| `Ownership.MoveAssignKeeps` | include/sshpp/detail/channel.ipp:58-70 | so does move assignment, which releases before it takes over |
| `Ownership.OrphanedIff` | include/sshpp/detail/session_core.ipp:11-17 | the use counts tell exactly whether anyone is left to hold the session |
| `Ownership.FreedOnce` | include/sshpp/detail/channel.ipp:42-70 | in a lawful log of makings and freeings nothing is freed twice |
| `Ownership.FreedWasMade` | include/sshpp/detail/channel.ipp:42-70 | what is freed was made before for the program, and never belongs to libssh |
| `Ownership.ChannelsGoFirst` | include/sshpp/detail/channel.ipp:42-50 | a session is freed only after every channel ever derived from it |
| `Ownership.LawfulIsProper` | include/sshpp/detail/channel.ipp:42-70 | the three rules, for every lawful log |
| `Ownership.DeleteDoes` | include/sshpp/detail/channel.ipp:42-50 | a destroyed object is gone, the channel it owned is freed, then the session if nobody else holds it, and nothing more |
| `Ownership.MoveDoes` | include/sshpp/detail/channel.ipp:52-56 | a moved-to object is what the other was, which then refers to nothing and is not open |
| `Ownership.AssignDoes` | include/sshpp/detail/channel.ipp:58-70 | the same for assignment, where what the target had is let go as in destruction |
| `Ownership.NewSessionDoes` | include/sshpp/detail/session.ipp:166-172 | a session object holds a session of its own if libssh makes one, and none otherwise |
| `Ownership.BorrowDoes` | include/sshpp/detail/channel.ipp:72-76 | a borrowing channel object shares the core and owns nothing |
| `Ownership.OpenDoes` | include/sshpp/detail/session.ipp:340-350 | when a channel object comes of an open, and what libssh is asked for; one that does not open is freed |
| `Ownership.Program.Release` | include/sshpp/detail/session_core.ipp:11-17 | the last reference frees the session, and only it; no channel of that session is left then |
| `Ownership.Program.ConstructSession` | include/sshpp/detail/session.ipp:166-172 | a session object with a core of its own, or without one if libssh cannot make a session |
| `Ownership.Program.TryOpenChannel` | include/sshpp/detail/session.ipp:340-350 | succeeds exactly when there is a core and libssh makes and opens the channel; a channel that does not open is freed again |
| `Ownership.Program.FromNativeBorrowed` | include/sshpp/detail/channel.ipp:72-76 | a borrowing channel object owns nothing and frees nothing |
| `Ownership.Program.Destroy` | include/sshpp/detail/channel.ipp:42-50 | frees the owned channel, if any, before giving up the core |
| `Ownership.Program.MoveConstruct` | include/sshpp/detail/channel.ipp:52-56 | the new object takes over everything, the old one is left without handle and core |
| `Ownership.Program.MoveAssign` | include/sshpp/detail/channel.ipp:58-70 | what the target held is released, then it takes over; self-assignment changes nothing |
| `Ownership.Program.Execute` | include/sshpp/detail/channel.ipp:42-76 | one step of any program has exactly its effect: which object refers to what, and what libssh is asked to make and free, the session going when nobody else holds it |
| `Ownership.Program.Run` | include/sshpp/detail/channel.ipp:42-76 | every program of create, open, borrow, move, assign and destroy steps, in any order: the objects and the log of makings and freeings are those its steps mean; in the log no handle is freed twice, every channel is freed before its session and no borrowed channel is; with the last object gone everything made has been freed |
| `Ownership.Program.DestroyAll` | include/sshpp/detail/channel.ipp:42-50 | destroying what is left, in any order, frees every session and channel, by the same rules |
| `ServerAuth.ConstantTimeEqual` | include/sshpp/detail/server_handlers.ipp:95-102 | the xor-or loop and the length test together decide equality |
| `ServerAuth.SimpleAuthHandler.AllowPassword` | include/sshpp/detail/server_handlers.ipp:59-61 | sets the user's password and nothing else |
| `ServerAuth.SimpleAuthHandler.AllowPublicKey` | include/sshpp/detail/server_handlers.ipp:63-66 | adds the key's fingerprint, or nothing when it has none |
| `ServerAuth.SimpleAuthHandler.AllowNone` | include/sshpp/detail/server_handlers.ipp:68 | allows the none method for the user and changes nothing else |
| `ServerAuth.SimpleAuthHandler.RecordAttemptAndCheck` | include/sshpp/detail/server_handlers.ipp:75-80 | counts the attempt and answers whether it is within the limit |
| `ServerAuth.SimpleAuthHandler.OnAuthNone` | include/sshpp/detail/server_handlers.ipp:82-86 | uses up a try of the user on every path; success if and only if none is allowed for the user and the tries so far, of every session, are fewer than the limit |
| `ServerAuth.SimpleAuthHandler.OnAuthPassword` | include/sshpp/detail/server_handlers.ipp:88-103 | uses up a try of the user on every path, whatever the password and whether the user is known; success if and only if the password is the user's and the tries so far are fewer than the limit |
| `ServerAuth.SimpleAuthHandler.OnAuthPublicKey` | include/sshpp/detail/server_handlers.ipp:105-119 | success if and only if the key is listed and either only offered, or signed and within the limit; an offered, wrong or unlisted key costs nothing, a listed signed one a try |
| `ServerAuth.SimpleAuthHandler.JudgeKey` | include/sshpp/detail/server_handlers.ipp:105-119 | the verdict on a key, and that only a listed signed key uses up a try |
| `ServerAuth.SimpleAuthHandler.OnAuthGssapiMic` | include/sshpp/detail/server_handlers.ipp:33-35 | the hook this handler inherits denies |
| `ServerAuth.HandlerBridge.ApplyAuthResult` | include/sshpp/detail/handler_bridge.ipp:163-173 | the session becomes authenticated only on a final success |
| `ServerAuth.HandlerBridge.AuthNoneCb` | include/sshpp/detail/handler_bridge.ipp:105-116 | keeps the trace invariant; replies success exactly when the attempt grants |
| `ServerAuth.HandlerBridge.AuthPasswordCb` | include/sshpp/detail/handler_bridge.ipp:118-130 | likewise; a null password reads as the empty one |
| `ServerAuth.HandlerBridge.AuthPubkeyCb` | include/sshpp/detail/handler_bridge.ipp:132-150 | likewise; an offered or wrong key never authenticates |
| `ServerAuth.HandlerBridge.AuthGssapiMicCb` | include/sshpp/detail/handler_bridge.ipp:152-161 | always denied with this handler, and changes nothing |
| `ServerAuth.EarnedStep` | include/sshpp/detail/handler_bridge.ipp:105-173 | the invariant over whole traces, for a handler that any number of sessions share: a session is authenticated if and only if some attempt of its own proved its claim within the limit, as the user of the last one that did; kept by every attempt of its own |
| `ServerAuth.EarnedAside` | include/sshpp/detail/handler_bridge.ipp:105-173 | and by every attempt of another session |
| `ServerAuth.OtherSession` | include/sshpp/detail/handler_bridge.ipp:118-130 | two sessions with one handler: an attempt on one leaves the other authenticated or not, as it was |
| `ServerAuth.TriesNeverDrop` | include/sshpp/detail/server_handlers.ipp:75-80 | a user's counter never goes down along a trace |
| `ServerAuth.TriesAre` | include/sshpp/detail/server_handlers.ipp:75-119 | what uses up the tries of a user, by the kind of attempt alone: every attempt without a key, right or wrong, and every signed key on the list, nothing else |
| `ServerAuth.GuessingLocksOut` | include/sshpp/detail/server_handlers.ipp:75-103 | after as many guesses as the limit allows nothing authenticates the user any more, the right password included |
| `ServerAuth.GuessThenAsk` | include/sshpp/detail/handler_bridge.ipp:118-130 | the same at the callbacks: a session that guesses as often as the limit allows is denied whatever it asks with next |
| `ServerAuth.LockedOut` | include/sshpp/detail/server_handlers.ipp:75-119 | once a user's tries have reached the limit, no later attempt authenticates that user |
| `ServerAuth.GrantsWithinLimit` | include/sshpp/detail/server_handlers.ipp:75-119 | a user is authenticated at most as often as the limit and as the tries used |
| `ChannelTable.HandlerBridge.RegisterChannel` | include/sshpp/detail/handler_bridge.ipp:80-102 | adds one entry with a new identity, at an address not in use |
| `ChannelTable.HandlerBridge.ChannelOpenSessionCb` | include/sshpp/detail/handler_bridge.ipp:176-191 | registers exactly when the handler accepts and libssh makes a channel |
| `ChannelTable.HandlerBridge.ChannelCloseCb` | include/sshpp/detail/handler_bridge.ipp:223-237 | only notes the channel; nothing is freed inside the poll |
| `ChannelTable.HandlerBridge.ChannelSubsystemRequestCb` | include/sshpp/detail/handler_bridge.ipp:300-316 | an accepted subsystem's channel loses its callbacks, so no later close of it is noted |
| `ChannelTable.HandlerBridge.ReapClosedChannels` | include/sshpp/detail/handler_bridge.ipp:59-62 | erases exactly the noted channels, each once, and only outside a poll |
| `ChannelTable.HandlerBridge.Deliver` | include/sshpp/detail/server_handlers.ipp:198 | one event of a poll: which entries it adds, detaches or notes, and that it frees nothing |
| `ChannelTable.HandlerBridge.DoPoll` | include/sshpp/detail/server_handlers.ipp:198 | a whole poll: what its events have made of the channels it started with and of those opened since |
| `ChannelTable.DeliveredStep` | include/sshpp/detail/server_handlers.ipp:198 | what a poll has made of the table so far, carried over one more event |
| `ChannelTable.FirstOpening` | include/sshpp/detail/handler_bridge.ipp:176-191 | an address gets a channel in a poll exactly when some event opens one there: the first |
| `ChannelTable.HandlerBridge.TryPoll` | include/sshpp/detail/server_handlers.ipp:184-209 | for every sequence of events: a channel that was there is gone if and only if it had its callbacks and a close came before any accepted subsystem took them off; a channel opened during the poll is there exactly unless the same happened after its opening; the table is exactly what was registered minus what was noted, each freed once; every other entry keeps its identity |
| `ChannelTable.ClosedIsGone` | include/sshpp/detail/handler_bridge.ipp:223-237 | by the events alone: a close that no accepted subsystem precedes removes the channel |
| `ChannelTable.OtherwiseItStays` | include/sshpp/detail/handler_bridge.ipp:300-316 | and otherwise it stays, with the same state |
| `ChannelTable.OpenedIsThere` | include/sshpp/detail/handler_bridge.ipp:176-191 | a channel accepted during the poll is there unless it is closed afterwards |
| `ChannelTable.HandlerBridge.Destroy` | include/sshpp/detail/handler_bridge.ipp:37 | the rest of the table is freed with the bridge, handed-over channels included |
| `SftpPath.WalkIsNormal` | include/sshpp/detail/server_sftp_subsystem.ipp:120-138 | canonical paths hold no empty, ".", ".." or slashed component |
| `SftpPath.CanonicalIsIdempotent` | include/sshpp/detail/server_sftp_subsystem.ipp:120-138 | normalising twice is normalising once |
| `SftpPath.ResolveStaysUnderRoot` | include/sshpp/detail/server_sftp_subsystem.ipp:120-138 | whatever the client sends, an accepted path is normal and has the canonical root as a component-wise prefix |
| `SftpPath.ResolveInvertsToClientPath` | include/sshpp/detail/server_sftp_subsystem.ipp:140-146 | every normal path under the root is what its own client name resolves to |
| `SftpPath.RealpathIsFixedPoint` | include/sshpp/detail/server_sftp_subsystem.ipp:193-205 | resolving the name REALPATH answers gives the same path back |
| `SftpPath.ClientPathReads` | include/sshpp/detail/server_sftp_subsystem.ipp:140-146 | the client's name of the root is "/"; below it the name begins with a slash and its components are those of the path |
| `SftpPath.ClientPathIsInjective` | include/sshpp/detail/server_sftp_subsystem.ipp:140-146 | different paths have different names |
| `SftpPath.JoinSplit` | include/sshpp/detail/server_sftp_subsystem.ipp:120-138 | splitting a name takes out the slashes and nothing else |
| `SftpPath.ResolveAcceptsInside` | include/sshpp/detail/server_sftp_subsystem.ipp:120-138 | a client path that never climbs above the root is accepted and means the same under every root |
| `SftpPath.ResolveAcceptsReentry` | include/sshpp/detail/server_sftp_subsystem.ipp:133-136 | the converse is false: leaving the root and coming back through its own name is accepted |
| `SftpProtocol.GuardedOpenIsReadOnly` | include/sshpp/detail/server_sftp_subsystem.ipp:83-93 | the read-only guard on OPEN lets a flag word through if and only if its POSIX translation neither writes, creates, truncates nor appends |
| `SftpLaws.OpenGrantedIff` | include/sshpp/detail/server_sftp_subsystem.ipp:296-329 | for every flag word, by its bits: OPEN is granted if and only if the file exists and need not be new, or is missing and may be made in a directory, or is a directory to look at; a slot is free; and a read-only server is not asked to change anything |
| `SftpLaws.OpenedForWhat` | include/sshpp/detail/server_sftp_subsystem.ipp:83-93 | the handle can be read if bit 1 is set or bit 2 is not, and written if and only if bit 2 is set |
| `SftpLaws.OpenedWithWhat` | include/sshpp/detail/server_sftp_subsystem.ipp:296-329 | an existing file keeps its contents unless bit 0x10 is set; a new one is empty; no other file or name changes |
| `SftpLaws.OpenRefusedHow` | include/sshpp/detail/server_sftp_subsystem.ipp:310-318 | what exists, or is missing behind something that is no directory, cannot be opened with FAILURE; what is missing in directories with NO_SUCH_FILE |
| `SftpLaws.ReadGives` | include/sshpp/detail/server_sftp_subsystem.ipp:330-346 | byte for byte what READ answers: as many bytes from the offset as there are, at most 65536 and at most as asked; EOF when there are none; FAILURE for an offset that is negative as an off_t |
| `SftpLaws.WriteGrantedIff` | include/sshpp/detail/server_sftp_subsystem.ipp:347-370 | when WRITE is granted, and when it is denied by the cap, whose sum wraps at 64 bits |
| `SftpLaws.WriteLeaves` | include/sshpp/detail/server_sftp_subsystem.ipp:347-370 | byte for byte what WRITE leaves, and that no other file changes |
| `SftpLaws.WrittenIsRead` | include/sshpp/detail/server_sftp_subsystem.ipp:330-370 | what has been written is read back through any handle on the file |
| `SftpLaws.BatchIsFull` | include/sshpp/detail/server_sftp_subsystem.ipp:269-295 | a READDIR batch has at most 64 names, fewer only at the end, and each names something there |
| `SftpLaws.ReadOnlyChangesNothing` | include/sshpp/detail/server_sftp_subsystem.ipp:296-451 | a read-only server leaves the file system as it is, whatever it is asked |
| `SftpLaws.RemoveDoes` | include/sshpp/detail/server_sftp_subsystem.ipp:380-389 | REMOVE takes away exactly the name of a file or link, or fails with NO_SUCH_FILE |
| `SftpLaws.MkdirDoes` | include/sshpp/detail/server_sftp_subsystem.ipp:390-403 | MKDIR makes exactly one new directory where nothing is, in a directory |
| `SftpLaws.RmdirDoes` | include/sshpp/detail/server_sftp_subsystem.ipp:404-413 | RMDIR takes away exactly one empty directory |
| `SftpLaws.SymlinkDoes` | include/sshpp/detail/server_sftp_subsystem.ipp:426-451 | SYMLINK makes exactly one name, and READLINK of it gives back the target as it was sent |
| `SftpLaws.RenameDoes` | include/sshpp/detail/server_sftp_subsystem.ipp:414-425 | RENAME moves the whole subtree, path by path, replaces only what is of its kind and empty, and touches nothing else |
| `SftpLaws.CloseForgets` | include/sshpp/detail/server_sftp_subsystem.ipp:371-379 | CLOSE answers OK, takes out one handle and leaves every other as it was |
| `SftpLaws.UnknownIsInvalid` | include/sshpp/detail/server_sftp_subsystem.ipp:226-379 | a handle that is not there is answered with INVALID_HANDLE |
| `SftpLaws.OpendirGrantedIff` | include/sshpp/detail/server_sftp_subsystem.ipp:244-268 | OPENDIR is granted if and only if a directory is there and a slot is free; the stream then holds every name of that directory once |
| `SftpLaws.ReaddirGives` | include/sshpp/detail/server_sftp_subsystem.ipp:269-295 | READDIR answers with the next names that are still there, and leaves exactly the rest |
| `SftpLaws.FstatTells` | include/sshpp/detail/server_sftp_subsystem.ipp:226-243 | FSTAT of a file tells what was opened, wherever its name has gone |
| `SftpLaws.StatTells` | include/sshpp/detail/server_sftp_subsystem.ipp:206-225 | STAT and LSTAT tell what is there, or that nothing is |
| `SftpLaws.RealpathLeadsThere` | include/sshpp/detail/server_sftp_subsystem.ipp:193-205 | REALPATH answers a name that begins with a slash and resolves to the same place |
| `SftpServer.TableAdd` | include/sshpp/detail/server_sftp_subsystem.ipp:296-329 | a new handle owns the new descriptor and a record never used before; the table stays exact |
| `SftpServer.TableRemove` | include/sshpp/detail/server_sftp_subsystem.ipp:371-379 | a closed record leaves the table for good and its descriptor with it |
| `SftpServer.TableMeaning` | include/sshpp/detail/server_sftp_subsystem.ipp:296-379 | an exact table: the open descriptors are those in its slots, each in one slot alone, with a record that was never closed |
| `SftpServer.Subsystem.OnRealpath` | include/sshpp/detail/server_sftp_subsystem.ipp:193-205 | answers the client name of the resolved path, or NO_SUCH_FILE |
| `SftpServer.Subsystem.OnStat` | include/sshpp/detail/server_sftp_subsystem.ipp:206-225 | answers the attributes of what the resolved path names |
| `SftpServer.Subsystem.OnFstat` | include/sshpp/detail/server_sftp_subsystem.ipp:226-243 | for a file, the attributes of what the descriptor is open on; for a directory, of whatever has the recorded path now; INVALID_HANDLE exactly for unknown handles |
| `SftpProtocol.FstatOfDirectoryIff` | include/sshpp/detail/server_sftp_subsystem.ipp:233-234 | FSTAT on a directory handle answers for the directory that is open if and only if that directory still has the path it was opened under |
| `SftpProtocol.FstatAfterRename` | include/sshpp/detail/server_sftp_subsystem.ipp:233-234 | so it fails after the directory has been renamed |
| `SftpServer.Subsystem.OnOpendir` | include/sshpp/detail/server_sftp_subsystem.ipp:244-268 | a new handle on the directory, which it will list; NO_SUCH_FILE when there is no such directory, FAILURE when the table is full; no descriptor is left behind |
| `SftpServer.Subsystem.OnReaddir` | include/sshpp/detail/server_sftp_subsystem.ipp:269-295 | one batch is the next names lstat can see, at most 64, full unless the directory ends; EOF exactly at the end |
| `SftpServer.Subsystem.NextNames` | include/sshpp/detail/server_sftp_subsystem.ipp:269-295 | the same for the loop over the stream |
| `SftpServer.Subsystem.OnOpen` | include/sshpp/detail/server_sftp_subsystem.ipp:296-329 | a new handle on exactly what open(2) yields for the translated flags; refused under read_only exactly when the guard says so; otherwise NO_SUCH_FILE exactly when a component is missing and FAILURE when open(2) fails for another reason or the table is full; no descriptor is left behind on failure |
| `SftpServer.Subsystem.OnRead` | include/sshpp/detail/server_sftp_subsystem.ipp:330-346 | at most 64 KiB of the file at the offset; EOF exactly when there is none; no failure unless pread refuses |
| `SftpServer.Subsystem.OnWrite` | include/sshpp/detail/server_sftp_subsystem.ipp:347-370 | data laid over the file at the offset within the cap, although the cap test wraps; OK for every allowed write that pwrite does not refuse; nothing changes on any other answer |
| `SftpServer.Subsystem.OnClose` | include/sshpp/detail/server_sftp_subsystem.ipp:371-379 | closes the descriptor and retires the record; unknown handles change nothing |
| `SftpServer.Subsystem.OnRemove` | include/sshpp/detail/server_sftp_subsystem.ipp:380-389 | OK exactly when unlink is allowed and done, with its effect; PERMISSION_DENIED exactly under read_only |
| `SftpServer.Subsystem.OnMkdir` | include/sshpp/detail/server_sftp_subsystem.ipp:390-403 | likewise for mkdir |
| `SftpServer.Subsystem.OnRmdir` | include/sshpp/detail/server_sftp_subsystem.ipp:404-413 | likewise for rmdir |
| `SftpServer.Subsystem.OnRename` | include/sshpp/detail/server_sftp_subsystem.ipp:414-425 | likewise for rename, both names resolved |
| `SftpServer.Subsystem.OnReadlink` | include/sshpp/detail/server_sftp_subsystem.ipp:426-438 | answers the stored target of a link |
| `SftpServer.Subsystem.OnSymlink` | include/sshpp/detail/server_sftp_subsystem.ipp:439-451 | creates a link with the target as sent; only the link's own name is confined |
| `SftpServer.Subsystem.DispatchNames` | include/sshpp/detail/server_sftp_subsystem.ipp:380-451 | the requests that change names, each with its own effect, exactly when it is answered with OK |
| `SftpServer.Subsystem.Dispatch` | include/sshpp/detail/server_sftp_subsystem.ipp:192-455 | every request is met with exactly one reply, and is answered and carried out as the relation for its kind says: which answers are right in which state, and what the state is afterwards |
| `SftpServer.Subsystem.Serve` | include/sshpp/detail/server_sftp_subsystem.ipp:178-458 | for every sequence of requests: the replies sent are one to each message, in order, with its id, and there is a trace of states from the first to the last along which every request is answered and carried out as its relation says; each open descriptor belongs to exactly one live handle; no closed record is reachable again; under read_only no file changes; no file grows past the larger of its first length and the cap; and in a run that starts without symbolic links and makes none, only paths under the root are touched |
| `SftpProtocol.RunsLinkFree` | include/sshpp/detail/server_sftp_subsystem.ipp:178-458 | a run that starts without links and makes none never meets one |
| `SftpProtocol.RunsFit` | include/sshpp/detail/server_sftp_subsystem.ipp:178-458 | along a run every answer fits its request and every change of the table its answer |
| `Listing.ReadAllBatches` | include/sshpp/detail/server_sftp_subsystem.ipp:269-295 | the batches concatenate to the whole directory in order, whatever its size, multiples of 64 included; all but the last are full |
| `Listing.StatableAppend` | include/sshpp/detail/server_sftp_subsystem.ipp:269-295 | dropping names lstat cannot see commutes with cutting into batches |
| `Listing.BatchedStep` | include/sshpp/detail/server_sftp_subsystem.ipp:269-295 | one more batch keeps the account of those sent |
| `Listing.Directory.Refill` | include/sshpp/detail/directory.ipp:36-48 | asks for one more batch, which is not empty, or meets EOF |
| `Listing.Directory.Next` | include/sshpp/detail/directory.ipp:36-48 | the next entry in order, or none: at the end, or with the failed request's code as the last error |
| `Listing.Collect` | include/sshpp/detail/sftp.ipp:282-288 | collects exactly the entries seen other than "." and ".." |
| `Listing.TryList` | include/sshpp/detail/sftp.ipp:279-291 | fails on what is not a directory; otherwise returns what a listing of the directory yields, in some order, given which request fails and with which code |
| `Listing.WholeListing` | include/sshpp/detail/sftp.ipp:282-288 | a whole listing without its dots holds each child once and nothing else |
| `Listing.CollectedIsWholeIff` | include/sshpp/detail/sftp.ipp:289 | a listing returned as success is the whole directory if and only if the failed request, if any, had only "." and ".." left to bring: an error with code 0 is not seen |
| `Listing.CollectedFailsIff` | include/sshpp/detail/sftp.ipp:279-291 | a listing fails exactly when a request that the directory takes, at 64 names each, fails with a code other than 0, and with that code |
| `Listing.WithoutDotsMeans` | include/sshpp/detail/sftp.ipp:286 | what is left out is "." and "..", nothing else |
| `Transfer.File.TryRead` | include/sshpp/detail/file.ipp:45-52 | a non-empty part of what is left, and nothing only at the end |
| `Transfer.File.TryReadExact` | include/sshpp/detail/file.ipp:54-66 | exactly the bytes asked for, from the offset; no failure when they are there and nothing is refused |
| `Transfer.File.TryWrite` | include/sshpp/detail/file.ipp:68-75 | a front part of data is laid over the remote file at the offset |
| `Transfer.File.TryWriteAll` | include/sshpp/detail/file.ipp:77-87 | all of data is laid over the remote file at the offset, in as many requests as it takes; on failure a front part |
| `Transfer.SendLoop` | include/sshpp/detail/algorithms.ipp:88-105 | the remote file holds exactly the part of what the local stream yields that was sent; all of it on success, unless the chunk size is 0 |
| `Transfer.TryUpload` | include/sshpp/detail/algorithms.ipp:69-106 | on success the count is what was moved, and the remote file is the local one if and only if the local file could be read to its end and the chunk size is at least 1, or it is empty: why reading stopped is not looked at; on failure after the open, which happens whenever the server allows it, it holds a front part; no other file of the server's changes; succeeds whenever the local file opens, the server allows it, no call is refused and libssh sends something with every write; leaves the handle table as it was |
| `Transfer.ReceiveLoop` | include/sshpp/detail/algorithms.ipp:40-57 | the count is what was received, all of the remote file on success, unless the chunk size is 0; the local file holds as much of it as could be written |
| `Transfer.TryDownload` | include/sshpp/detail/algorithms.ipp:28-67 | on success the count is the remote length, and the local file is the remote one if and only if every local write worked and the chunk size is at least 1, or it is empty: the local stream is not looked at; existing files are kept when told so; a local file that does not open is an error; whenever the remote file can be opened the local one is made; changes no remote file |
| `Transfer.RoundTrip` | include/sshpp/detail/algorithms.ipp:28-106 | changes no other file of the server's; upload then download gives back the contents with both counts equal to the length, if and only if they are empty, or both chunk sizes are at least 1, the local file could be read to its end and every local write worked; both succeed whenever both local files open, the server allows the upload, no call is refused and libssh sends something with every write |
| `Pump.ServeChannel` | include/sshpp/detail/forwarding.ipp:102-117 | channel to socket, one turn, exactly: how much is read, that the socket is given in order as much of it as it takes, and the half-close at the end |
| `Pump.ServeSocket` | include/sshpp/detail/forwarding.ipp:119-133 | socket to channel, one turn, exactly; a receive of nothing or an error ends the direction |
| `Pump.PassedOnIff` | include/sshpp/detail/forwarding.ipp:102-133 | over any turns, what was read has been passed on, in order, if and only if the other end took every buffer whole, which the numbers of bytes tell; otherwise less was |
| `Pump.RoomForAll` | include/sshpp/detail/forwarding.ipp:102-133 | ends that take a whole buffer at once are given everything that is read |
| `Pump.EndedIsDone` | include/sshpp/detail/forwarding.ipp:102-133 | a direction that has ended has read all there is, unless a receive failed or there is no buffer |
| `Pump.EndedIff` | include/sshpp/detail/forwarding.ipp:113-133 | when a direction ends, exactly: with the channel's EOF once all is read; with a receive that fails or finds nothing |
| `Pump.TurnTakes` | include/sshpp/detail/forwarding.ipp:102-122 | in numbers: what a turn takes of either end |
| `Pump.TurnGives` | include/sshpp/detail/forwarding.ipp:107-127 | and what it gives to the other: in order, as many bytes as that accepts, none when the write fails |
| `Pump.FairEnds` | include/sshpp/detail/forwarding.ipp:97-137 | turns that give both ends their chances end both directions, whatever lies between |
| `Pump.Loop` | include/sshpp/detail/forwarding.ipp:97-137 | the behaviour of both ends decides for how many turns the loop runs, how much each direction reads and what each end is given |
| `Pump.Run` | include/sshpp/detail/forwarding.ipp:93-141 | for every behaviour of both ends: how many turns the loop runs, and exactly which bytes each end has been given and whether it was sent EOF; all that was read, if and only if every buffer was taken whole; both ends are closed once, when the loop ends; the counters are the bytes read; ending without a stop means both sides were read to their end, unless a receive on the socket failed; no turn with a stop request is outlived; and fair turns do end it |
| `Socks.Parse5Inverts` | include/sshpp/detail/forwarding.ipp:669-710 | every RFC 1928 request offering "no authentication" is read back, for IPv4, domain and IPv6 targets and every port, and exactly its bytes are consumed |
| `Socks.Parse5OnlyEncodings` | include/sshpp/detail/forwarding.ipp:669-710 | and only such requests are accepted |
| `Socks.HostOnlyEncodings` | include/sshpp/detail/forwarding.ipp:684-709 | an accepted address and port are the encoding of the target they yield |
| `Socks.ParseHostInverts` | include/sshpp/detail/forwarding.ipp:684-709 | the same for the address and port fields |
| `Socks.Parse4Inverts` | include/sshpp/detail/forwarding.ipp:717-733 | a SOCKS4 request is read back if and only if its user id has at most 255 bytes |
| `SocksLaws.Written5IPv4` | include/sshpp/detail/forwarding.ipp:669-710 | a SOCKS5 CONNECT written byte by byte for an IPv4 address, port in network order, is taken as it is written |
| `SocksLaws.Written5Domain` | include/sshpp/detail/forwarding.ipp:669-710 | the same for a name |
| `SocksLaws.Written5IPv6` | include/sshpp/detail/forwarding.ipp:669-710 | the same for an IPv6 address |
| `SocksLaws.Written4` | include/sshpp/detail/forwarding.ipp:717-733 | a SOCKS4 CONNECT written byte by byte is taken if and only if SOCKS4 is allowed and its user id has at most 255 bytes |
| `Socks.Parse4OnlyEncodings` | include/sshpp/detail/forwarding.ipp:717-733 | and only such requests are accepted |
| `Socks.UserIdLengthMeaning` | include/sshpp/detail/forwarding.ipp:725-730 | the drained user id ends at the first NUL |
| `Socks.Socket.RecvExact` | include/sshpp/detail/forwarding.ipp:643-652 | exactly the next bytes of the stream, however they are cut into pieces; none exactly when the stream is shorter |
| `Socks.Socket.SendExact` | include/sshpp/detail/forwarding.ipp:654-663 | all of data, or exactly as much as the connection takes; success exactly in the first case |
| `Socks.Socket.ReadSocks5Request` | include/sshpp/detail/forwarding.ipp:669-710 | succeeds exactly when the request is complete and the connection takes the method reply; the result depends only on the byte stream, not on how it is cut; exactly the request is consumed; the method reply sent is the one for the methods offered |
| `Socks.Socket.ReadAddress` | include/sshpp/detail/forwarding.ipp:684-709 | the same for the address and port fields |
| `Socks.Socket.ReadHost` | include/sshpp/detail/forwarding.ipp:684-706 | the address field alone |
| `Socks.Socket.ReadSocks4Request` | include/sshpp/detail/forwarding.ipp:717-733 | the same for SOCKS4 |
| `Socks.Socket.DrainUserId` | include/sshpp/detail/forwarding.ipp:725-730 | stops right after the terminator, or fails after 256 bytes |
| `Socks.ServeOneConnection` | include/sshpp/detail/forwarding.ipp:786-830 | handed to the pump exactly when the request is complete, its method reply goes out, it is permitted and the channel opens, with the stream at the byte after the request; otherwise closed; what has been sent is exactly the right replies, as far as the connection takes them |
| `SocksLaws.Heard4` | include/sshpp/detail/forwarding.ipp:735-738 | what a SOCKS4 client reads in the reply: 0 and 90, "granted", if and only if it is connected to its target, 0 and 91 otherwise |
| `SocksLaws.Heard5` | include/sshpp/detail/forwarding.ipp:711-714 | what a SOCKS5 client reads: status 0 if and only if it is connected; 2 for a target that is not permitted, 1 for a channel that does not open |
| `SocksLaws.HeardNothing` | include/sshpp/detail/forwarding.ipp:669-710 | who is not understood is not connected and hears at most which method was chosen, 0 or 255 |
| `Socks.ServeAndPump` | include/sshpp/detail/forwarding.ipp:786-830 | the same with the pump that takes over: it starts at the byte after the request; for how many turns it runs, what either end is given, the counters and the closing are decided by the turns; it runs dry if nobody stops it and both ends get their turns; if they also accept what they are offered, the target has been given exactly the bytes after the request and the client exactly what the target sent |
| `Socks.Tunnel` | include/sshpp/detail/forwarding.ipp:93-141 | the pump between a client, from the first byte not read yet, and the channel: all of that for the two ends |
| `TreeDownload.EveryEntryCounted` | include/sshpp/detail/algorithms.ipp:133-180 | files, directories and skipped entries add up to the entries listed, other than "." and "..", in all directories visited |
| `TreeDownload.EveryObjectCounted` | include/sshpp/detail/algorithms.ipp:133-180 | as many objects are created as files and directories are counted |
| `TreeDownload.CopyIsWholeIff` | include/sshpp/detail/algorithms.ipp:142-178 | the tree arrives with its contents if and only if the chunk size is at least 1 or every file is empty |
| `TreeDownload.SeenIsEnough` | include/sshpp/detail/sftp.ipp:286 | the "." and ".." that try_list leaves out change neither what is copied nor the statistics |
| `TreeDownload.SeenOfView` | include/sshpp/detail/algorithms.ipp:139-178 | leaving out "." and ".." commutes with what goes wrong elsewhere |
| `TreeDownload.SeenFail` | include/sshpp/detail/algorithms.ipp:139-178 | and hides no failure |
| `TreeDownload.ShownArrives` | include/sshpp/detail/algorithms.ipp:133-180 | if no listing and no local file is cut short unseen, the whole tree arrives and is counted |
| `TreeDownload.ImageUnder` | include/sshpp/detail/algorithms.ipp:142-178 | whatever the server lists, everything created lies under the destination by way of safe names |
| `TreeDownload.SafeIsPlain` | include/sshpp/detail/algorithms.ipp:16-24 | the safe names are all but the empty one, ".", ".." and those with a slash or a NUL |
| `TreeDownload.ImageStands` | include/sshpp/detail/algorithms.ipp:133-180 | what arrives, path by path: a directory or a regular file where plain names and listed directories lead to one, and nothing else |
| `TreeDownload.TallyTells` | include/sshpp/detail/algorithms.ipp:165-177 | the statistics are the number of files made, of directories made, and of bytes in these files |
| `TreeDownload.NewNameIsFresh` | include/sshpp/detail/algorithms.ipp:142-178 | an entry's place is not taken by any entry before it |
| `TreeDownload.NextEntry` | include/sshpp/detail/algorithms.ipp:142-178 | the loop's account of tree and statistics, carried over one more entry |
| `TreeDownload.ChildIsTextuallyUnder` | include/sshpp/detail/algorithms.ipp:152-157 | the textual containment test never rejects a safe name |
| `TreeDownload.DownloadEntry` | include/sshpp/detail/algorithms.ipp:142-178 | one entry fails exactly when something the download comes to in it does; otherwise it becomes exactly what arrives of it, and what is received is counted |
| `TreeDownload.DownloadTree` | include/sshpp/detail/algorithms.ipp:133-180 | on every finite tree, even one the server makes up, and whatever goes wrong: nothing outside the destination changes; into a fresh place, with distinct names, it succeeds if and only if no listing and no transfer that it comes to fails, and then holds exactly the safe-named directories and regular files of what came through, each with as much as the chunk size moves and the local file takes, with statistics that count what was received |
| `TreeDownload.Download` | include/sshpp/detail/algorithms.ipp:133-180 | into a fresh place, by names: the local tree is what plain names and directories of what came through lead to; if nothing was cut short unseen that is what the server lists, and the statistics tell the files, directories and bytes made |
| `RemoteTree.ChildResolves` | include/sshpp/types.hpp:85-92 | the name that operator / makes for a child resolves, on the server, to the child of what the parent resolves to, however the parent is written |
| `RemoteTree.PickEntry` | include/sshpp/detail/algorithms.ipp:142-178 | under a listed name stands what that entry becomes, and nothing else |
| `RemoteTree.ImageIsMirror` | include/sshpp/detail/algorithms.ipp:133-180 | what a directory becomes does not depend on the order in which it is listed: at every relative path it is what the server has there, if safe names and directories lead to it |
| `RemoteTree.MirroredMeans` | include/sshpp/detail/algorithms.ipp:133-180 | at a relative path the copy has what the server has there, if every name on the way is plain and every place on the way is a directory, and nothing otherwise |
| `RemoteTree.DoneIsCounted` | include/sshpp/detail/algorithms.ipp:133-180 | the statistics tell the files, directories and bytes made, and every entry met is counted once |
| `RemoteTree.FetchFile` | include/sshpp/detail/algorithms.ipp:168-173 | one file through try_download and the cases of the server; it succeeds where it can be written unless a system call is refused |
| `RemoteTree.ListDirectory` | include/sshpp/detail/sftp.ipp:279-291 | fails on what is not a directory; one directory through try_list and the cases of the server; what is listed is there, and all of it unless a failure goes unseen |
| `RemoteTree.FetchEntry` | include/sshpp/detail/algorithms.ipp:142-178 | one entry of a directory on the server becomes exactly its image |
| `RemoteTree.FetchTree` | include/sshpp/detail/algorithms.ipp:133-180 | fails on what is not a directory; one directory on the server becomes its image, with all below it; the recursion ends because less of the tree is left below |
| `RemoteTree.Download` | include/sshpp/detail/algorithms.ipp:133-180 | a tree download over this library's own server, down to the READDIR, OPEN and READ cases and the file system: into a fresh place it makes a mirror of the directory: below it stands every directory and every regular file that plain names and directories lead to on the server, and nothing else; the statistics tell the files, directories and bytes made; it changes nothing else on either side, fails on what is not a directory, and otherwise only if a listing, a local write or a system call does |

## Left out

- libssh's internals, sockets, `poll`, threads, mutexes, sleeps, signals and terminal settings: only the oracles named above.
- Error categories, messages and exception mapping: an error is its numeric code, or just an error.
- Constructors and wrappers that make one libssh call; option tables; logging; keys and known hosts; SCP, X11, remote forwarding, `TestServer`, `CommandHandler`, `try_mkdir_p`, `try_read_file`, `try_write_file`.
- Symbolic links are leaves: `weakly_canonical` is the lexical normal form, and neither it nor a system call follows a link, so STAT and LSTAT agree and OPEN refuses a link. Runs that meet links are therefore outside what the model says about the real server; `Serve` claims confinement only for runs without them. Failures of `weakly_canonical` and trailing-separator forms are not modelled.
- Permissions, owners and times of files; the text of `longname`; `inet_ntop`'s text form of binary addresses.
- `errno` after `readdir`: the code does not look at it, so a failing `readdir` is an end of directory. The `lstat` calls on READDIR's entries are not counted among the paths touched.
- Append-mode handles: `pwrite` follows POSIX and stores at the offset.
- SftpServer.Subsystem.OnOpen: refuses a symbolic link, which open(2) would follow.
- SftpServer.Subsystem.OnWrite: after a short `pwrite` the server still answers OK; the contract states the stored contents only while no store has been short.
- SftpServer.Subsystem.Serve: handles the client never closed when the loop ends are left open, as in the code.
- Transfer.TryDownload: the local permission bits are not modelled. The progress callback may answer anything.
- Transfer.RoundTrip: conditional on no short `pwrite` on the server, which the code does not detect.
- Listing.TryList: entries are assumed to stay visible to `lstat` while the directory is read, since nothing else runs on the server's file system.
- Ownership.Program.FromNativeBorrowed: taking ownership of a native handle made elsewhere has the shape of `TryOpenChannel` and is not repeated. `SessionCore::replace`, which nothing calls, is not modelled.
- Socks.ServeAndPump: what the client takes while the pump runs is up to the turns, not to the capacity that bounds the replies.
- ServerAuth.SimpleAuthHandler.RecordAttemptAndCheck: the attempt counter is unbounded; exceptions thrown by handlers are not modelled.
- ChannelTable.HandlerBridge.TryPoll: one session's event loop; failure to attach the event source and the moving of a session after its handler is set are not modelled.
- PipelinedWrite.WriteBehind.TryWrite: the branch compiled without asynchronous writes, a loop over `try_write_all`, is covered by Transfer.File.TryWriteAll.
- ShellQuoting.BuildCommand: word level only; an argv whose first word is a reserved word or an assignment means what the shell makes of it.
- ExecCapture.Exec.Run: environment, pty, standard input and exit status are not modelled.
- Pump.Run: a send or channel write cut short loses the rest, as in the code; the contract says when, and what is left.
- RemoteTree.Download: the attributes that tell files from directories are those of the moment of the listing, since nothing else changes the server's files; nothing is said of what is left when a listing's failure goes unseen.
- TreeDownload.ChildIsTextuallyUnder: local symbolic links are not modelled, so the textual prefix test is only shown to reject nothing it should accept; that it would accept a link to a sibling whose name extends the destination's is outside the model.
- TreeDownload.Local.CreateDirectories: makes the last component only; that the parents exist is part of a fresh place.
