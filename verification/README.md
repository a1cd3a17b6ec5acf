# BusyScout transfer stack: a Dafny model

BusyScout moves a file to or from a device over an unreliable telnet shell, or over a
reverse TCP connection opened by a small helper program. Its promise is that success
means the destination holds exactly the right bytes. These files model that transfer
stack and prove the promise, layer by layer, for every input, every interleaving and
every pattern of failures.

`dafny verify dfyconfig.toml` checks the whole project.

## Layers

| files | what they model |
|---|---|
| `Text`, `Shell` | Go's string functions; a POSIX shell lexer (POSIX.1-2017 Shell Command Language, sections 2.2 and 2.3) and `printf` with octal escapes |
| `Device` | the command texts BusyScout writes, what a shell makes of them, and their effect on files, directories and the files that may be executed |
| `Upload`, `Fragments`, `WorkerPool`, `FaultFree`, `PushPrintf` | the octal uploader, the ten workers as an interleaving of atomic steps, joining and cleanup |
| `Telnet` | IAC removal (RFC 854, "TELNET COMMAND STRUCTURE", and RFC 855), ANSI control sequences (ECMA-48, section 5.4), prompt scanning |
| `Checked`, `Wrapper`, `Echo`, `Session` | the stream parser that confirms exit statuses, the shell line it sends, why the echo of that line holds no frame, and a whole command from the bytes on the wire to its effect on the device, also behind the late reply to another command |
| `Encodings`, `PullPrintf` | base64 and hex (RFC 4648, sections 4 and 8), and pulling a file through the three encoders |
| `Wire`, `Fileloader`, `Listener`, `PushConnection` | the fast protocol: frames, the C program on the device, the Go host, and the two running against each other |
| `Loader`, `Transfers` | who owns the helper's directory, whole fast pushes and pulls |
| `Scout` | when the slow transfer may follow the fast one, and what a whole push or pull promises in every mode |
| `RemoteFile` | parsing `user[:pass]@host[:port][:/path]` |

Code that changes state step by step is modelled by methods on classes (`TelnetClient`,
`Device`, `Channel`, `OwnedLoaderListener`); each is proved against functions of its old
state, and the properties are lemmas about those functions. The two concurrent parts
(the worker pool and `pushConnection`) are transition systems with an arbitrary
scheduler: an invariant kept by every step, a measure that every step decreases, a proof
that the waiting party is never stuck, and the result for every schedule. In
`PushConnection` a deadline can pass only after it was set and a blocked operation is
woken only by a close that happened, so that proof rests on where the code sets its
deadlines and closes the connection.

## Assumptions

- A command that ends with status 0 has its full effect, and one that does not, any part
  of its own effect (`Devices.Spoil`); it is over when the next one starts. That a caller
  who sees success can rely on the former, wherever the connection breaks, is proved
  (`Session.RunCommand`). In the worker pool a connection that cannot be opened is an
  unconfirmed command without effect.
- A character stands for one byte. Deadlines are failures that may strike at any
  step, in `PushConnection` at any step after they were set.
- Random names are fresh: no file lies under a new scratch directory, and the
  destination does not (`PushPrintf.FreshNonces`). Of the random marker of a checked command
  the proofs use that two commands have different ones (`Session.RunAfterLate`) and that
  the output does not print it (the conditions of `Checked.Reply`).
- A file that is created is not executable, one that is overwritten keeps its mode, and a
  command that makes a file executable needs the file (`Devices.WithFile`, `Devices.Perform`).
- The local file does not change between the two attempts of one push, and its path is
  shorter than 2^32 bytes; exactly then the two ends agree on the header
  (`Wire.HeaderAgreesIff`).
- A pull through the shell is judged on the session as it is: what an attempt gives is
  determined by the bytes that had not arrived when its request was sent
  (`PullPrintf.PullsUnique`). `PullPrintf.ConversationPulls` adds that the device answers
  in turn, no answer beginning before its request.
- Decorating an error keeps its cause visible to `errors.As`.

## What the proofs found

- `ReadByte` agrees with RFC 854 and RFC 855 exactly on streams without a doubled IAC,
  without two-byte commands, and without subnegotiations that leak: a doubled IAC loses
  its data byte, the code of a two-byte command is delivered as data, and parameters that
  hold 255 followed by 240, sent escaped, are taken to end there
  (`Telnet.DataIsPayloadIffHandled`, `Telnet.Leak`, `Telnet.EarlyEnd`).
- `ExecuteChecked` accepts more than output free of the marker prefix: a prefix in the
  output does no harm as long as no US byte follows it (`Checked.Calm`,
  `Wrapper.PrefixInOutputIsAccepted`).
- The documented form allows a port after a bracketed IPv6 host; the parser always
  rejects it (`RemoteFile.BracketedHost`). An address such as `]@[` makes it slice out
  of order (`RemoteFile.PanicsIff`, `RemoteFile.PanicExample`).
- `pushConnection` never returns a write error together with an acknowledgement: nil
  and "the device acknowledged" are the same thing (`PushConnection.PushCorrect`).
- A second connection that fails after detection, and a local file that cannot be read,
  are not `SetupError`s although nothing was transferred, so `auto` mode does not fall
  back (`Transfers.Pushed`: stages `Connecting` and `Reading`).
- A helper directory whose creation took effect but was not confirmed is never removed
  (`Loader.Lifetime`).
- `do_pull` answers 0 even if a read of the file was interrupted or the file got shorter;
  only the announced size lets the host notice (`Fileloader.DoPull`, `Listener.PullAgrees`).
- A text that the device prints without ending its last line loses that line, because the
  prompt is printed behind it and dropped with it: "QQ==" without a line feed is pulled as
  an empty file, and the result is nil. A printed file is pulled right if and only if its
  last line is ended or blank (`PullPrintf.PrintedIffEnded`, `PullPrintf.UnendedExample`).
- `od -An -t x1` prints a "*" for lines that repeat the one before, which no hex decoder
  accepts: such a file cannot be pulled when only `od` is there, and is never pulled wrong
  (`PullPrintf.AlienSpoils`).

## Model

| member | source | states |
|---|---|---|
| `Shell.QuoteIsOneLiteralWord` | internal/telnet/checked.go:14-16 | a quoted value is read by the shell as one word, without expansion, whose value is exactly that value |
| `Shell.QuoteInjective` | internal/telnet/checked.go:14-16 | different operands are never written alike |
| `Shell.LexLine` | internal/scout/push_printf.go:166-176 | a line of words, operators and quoted operands separated by blanks is read back as exactly those |
| `Shell.LexThen` | internal/xfer/loader.go:78 | two commands joined by ";" are read as two |
| `Devices.PrintfOctalText` | internal/helpers/upload.go:28-31 | interpreting the three-digit octal format gives back every byte string |
| `Devices.PrintfCommandMeaning` | internal/helpers/upload.go:28-33 | a printf line writes or appends exactly its bytes to exactly its target |
| `Devices.TruncateCommandMeaning` | internal/scout/push_printf.go:158 | the truncation empties its target |
| `Devices.JoinCommandMeaning` | internal/scout/push_printf.go:166-176 | a join line appends exactly the listed files, in order, to its target |
| `Devices.SizeCommandMeaning` | internal/scout/push_printf.go:207 | the size command reads exactly the named file |
| `Devices.MakeDirCommandMeaning` | internal/scout/push_printf.go:130 | the command creates exactly the named directory |
| `Devices.RemoveCommandMeaning` | internal/scout/push_printf.go:185 | the command removes exactly the named tree |
| `Devices.PrivateDirCommandMeaning` | internal/xfer/loader.go:78 | the two commands on the line create exactly the named directory |
| `Devices.ForceRemoveCommandMeaning` | internal/xfer/loader.go:81 | the command removes exactly the named tree |
| `Devices.ExecutableCommandMeaning` | internal/xfer/loader.go:92 | the command makes exactly the named file executable |
| `Upload.LineEffect` | internal/helpers/upload.go:22-37 | a confirmed line extends the uploaded part by its bytes, the first one discarding earlier content; any line touches only the target |
| `Upload.UploadData` | internal/helpers/upload.go:11-41 | success leaves exactly the data in the target whatever it held; an error is returned exactly when some command was not confirmed; no other file changes |
| `Fragments.NamesDiffer` | internal/scout/push_printf.go:61 | fragment names are injective |
| `Fragments.SizeReplyMatches` | internal/scout/push_printf.go:211-227 | the size check accepts wc's answer, padded or not, if and only if the size is the expected one |
| `Fragments.SizeMatchesIff` | internal/scout/push_printf.go:211-227 | whatever text comes back, the size check accepts exactly a numeral of the expected size with nothing but blanks around it |
| `WorkerPool.StepInv` | internal/scout/push_printf.go:66-107 | every step of every worker keeps the pool's invariant: distinct jobs, exact partial fragments, every error in the channel from a worker that spent five attempts on its fragment, one there whenever stopped, nothing lost, and the attempts at each fragment accounted for |
| `WorkerPool.StepDecreases` | internal/scout/push_printf.go:74-108 | queued and in-flight work decreases with every step |
| `WorkerPool.NeverBlocks` | internal/scout/push_printf.go:68-103 | a worker that has not returned can always move: the results channel has room |
| `WorkerPool.JoinedMeansReady` | internal/scout/push_printf.go:108-115 | all workers returned and no error means that every fragment is complete |
| `WorkerPool.PoolCorrect` | internal/scout/push_printf.go:53-115 | for every schedule and failure pattern: at most five attempts at each fragment, an error only for a fragment attempted five times and only after a command that was not confirmed, an error whenever stopped and stopped whenever an error is there and all have returned, only fragment files touched; and once joined without error, fragment i holds bytes i*1024 to (i+1)*1024 and the check of its size was sent and confirmed |
| `WorkerPool.StoppedRun` | internal/scout/push_printf.go:75-83 | once `stopped` is closed, no schedule starts another attempt |
| `WorkerPool.WrongSizeIsRetried` | internal/scout/push_printf.go:91-105 | a fragment of which the device reports another size is sent again or given up, although the command was confirmed |
| `FaultFree.FaultFreePool` | internal/scout/push_printf.go:66-115 | if every command is confirmed, no schedule makes the pool stop or report an error, and once joined every fragment is complete |
| `PushPrintf.FragmentsInOrder` | internal/scout/push_printf.go:55-63 | the first n fragments, read in order, are the beginning of the data |
| `PushPrintf.BuildJoin` | internal/scout/push_printf.go:166-176 | builds exactly the join command of the batch, or refuses a name that cannot be sent |
| `PushPrintf.JoinBatch` | internal/scout/push_printf.go:161-180 | a confirmed batch appends its files; a refused or unwritten one leaves everything as it was; the command is the one that is recorded |
| `PushPrintf.JoinChunks` | internal/scout/push_printf.go:151-182 | success leaves the concatenation of the files whatever the destination held, after one truncation and one confirmed join command for each batch of four names; when the command of batch k is not confirmed and did not write, exactly the files of the earlier batches are there |
| `PushPrintf.CheckFileSize` | internal/scout/push_printf.go:203-228 | true only for a file of the expected size whose size command was sent and confirmed; false for one of that size only if the command was not confirmed |
| `PushPrintf.OneNonce` | internal/scout/push_printf.go:123-130 | a file lies under the scratch directory of one nonce only |
| `PushPrintf.CreateChunkDirectory` | internal/scout/push_printf.go:122-137 | each attempt tries the directory of another nonce and is the last if it is confirmed; a returned directory exists and is that of the last attempt; failure means five unconfirmed commands or a generator that failed; no file changes |
| `PushPrintf.DeleteChunks` | internal/scout/push_printf.go:184-189 | a confirmed removal leaves neither directory nor files under it, nothing outside changes, and failure means an unconfirmed command |
| `PushPrintf.RunWorkers` | internal/scout/push_printf.go:74-109 | under an arbitrary scheduler the pool terminates in a state that satisfies the invariant, and its commands are what the other sessions have sent |
| `PushPrintf.Assemble` | internal/scout/push_printf.go:116-119 | over complete fragments: nil leaves exactly the data, and its last command is the confirmed check of the destination's size; each failure leaves what its kind allows |
| `PushPrintf.PushFragments` | internal/scout/push_printf.go:64-119 | pool, join and final check together: nil leaves exactly the data, the size of every fragment was confirmed on another session, and the session itself sent the truncation, the joins and last the confirmed check of the destination's size; each failure leaves what its kind allows, after an unconfirmed batch k that did not write exactly the first k batches of the data; a failure means a command that was not confirmed, and which one |
| `PushPrintf.PushPrintf` | internal/scout/push_printf.go:26-120 | nil means that the destination is the local data byte for byte and the scratch directory is gone, and fixes the whole list of commands that were sent: names until one is confirmed, truncation, joins, the check of the size, each confirmed, and the removal last, with every fragment's size confirmed in between on other sessions; a failure before the join leaves the destination alone; if batch k's command, the last before the cleanup, was not confirmed and did not write, the destination holds exactly the first k batches; a failed cleanup alone leaves the data; a path that cannot be sent, an unreadable local file and a failed connection are told apart and send nothing; other files never change; and if nothing outside the device stands in the way and every command is confirmed, the result is nil |
| `Telnet.TelnetClient.SkipSBSequence` | internal/telnet/telnet.go:121-142 | consumes up to the first IAC SE after the SB byte |
| `Telnet.TelnetClient.SkipCommand` | internal/telnet/telnet.go:144-160 | consumes what the code recognises as a command, and nothing else; on a broken stream it only drops bytes |
| `Telnet.TelnetClient.ReadByte` | internal/telnet/telnet.go:163-177 | delivers the next byte of the stream's data and stops right behind it, failing only when there is none |
| `Telnet.DataExtends` | internal/telnet/telnet.go:121-177 | bytes that come later change neither what was delivered nor where reading stopped |
| `Telnet.DataOfHandledStream` | internal/telnet/telnet.go:121-177 | over any interleaving of plain bytes, negotiations and subnegotiations that do not leak, the data is exactly the plain bytes, in order |
| `Telnet.SubnegotiationData` | internal/telnet/telnet.go:121-160 | a subnegotiation with any parameters, escaped as RFC 855 demands, delivers exactly its leak, and what follows is read as if it had not been there |
| `Telnet.NoEndNoLeak` | internal/telnet/telnet.go:135-138 | parameters without 255 followed by 240 leak nothing |
| `Telnet.DataIsPayloadIffHandled` | internal/telnet/telnet.go:144-177 | the data agrees with RFC 854 and RFC 855 if and only if the stream has no doubled IAC, no two-byte command and no subnegotiation that leaks |
| `Telnet.EarlyEnd` | internal/telnet/telnet.go:135-138 | no shorter parameters leak than 255 followed by 240, and no others of that length; there the real end's byte is delivered |
| `Telnet.ClassifySplit` | internal/telnet/telnet.go:197-219 | classifying a stream in two parts, with the state carried over, is classifying it whole |
| `Telnet.SkipOverEscapes` | internal/telnet/telnet.go:183-195 | skipping n bytes stops right after the n-th text byte, whatever escape sequences stand in between |
| `Telnet.SkipAfterDiscard` | internal/telnet/telnet.go:183-232 | skipping after a discard, wherever the split falls and in whatever escape state the session stood, counts the same bytes as one pass over the unsplit stream |
| `Telnet.TelnetClient.SkipBytes` | internal/telnet/telnet.go:183-195 | consumes the shortest part of the input with n text bytes, and fails only if there are fewer |
| `Telnet.TelnetClient.DiscardBuffered` | internal/telnet/telnet.go:222-232 | drops exactly the buffered bytes and keeps the escape state they lead to |
| `Telnet.TelnetClient.ReadUntil` | internal/telnet/telnet.go:236-250 | appends the data up to and with the first delimiter, and stops right behind it |
| `Telnet.FindNewLinePos` | internal/telnet/telnet.go:252-265 | finds the last CR LF |
| `Telnet.LineStartGrows` | internal/telnet/telnet.go:292-298 | keeping the old line start when no CR LF is found gives the start of the last line |
| `Telnet.TelnetClient.ReadBlank` | internal/telnet/telnet.go:281-302 | one round: the indices delimit the last line, and it stops exactly if that line is accepted |
| `Telnet.TelnetClient.ReadUntilPrompt` | internal/telnet/telnet.go:271-306 | stops right behind the first blank whose last line is accepted, and fails only if there is none |
| `Telnet.TelnetClient.ReadUntilBanner` | internal/telnet/telnet.go:311-329 | returns the data before the first prompt, without the prompt line, and stops right behind that prompt |
| `Telnet.TelnetClient.Execute` | internal/telnet/telnet.go:379-410 | the request is the name and the arguments; returns the output that follows its echo and leaves what follows the prompt; fails only on a short write, a short echo or a missing prompt |
| `Checked.FirstBegin` | internal/telnet/checked.go:59-70 | a begin frame has no border, so the first one in the stream is where it was printed |
| `Checked.AwaitBegin` | internal/telnet/checked.go:60-70 | the sliding window finds the first begin frame of the whole stream, or there is none |
| `Checked.AwaitCompletion` | internal/telnet/checked.go:72-86 | stops at the first US byte that has the prefix somewhere before it, or there is none |
| `Checked.PrefixFreeIsCalm` | internal/telnet/checked.go:83-86 | output without the prefix meets the parser's exact condition, even if it is full of RS and US bytes |
| `Checked.ReadReply` | internal/telnet/checked.go:60-108 | an exit record comes only from a stream of the right shape and holds exactly its output and status; every such stream yields it |
| `Checked.ExecuteChecked` | internal/telnet/checked.go:33-109 | the same for the whole call: commands with CR, LF or NUL are refused unsent, the request is sent whole, and the result is the reply's if and only if the reply has the shape |
| `Wrapper.WrapperIsLexed` | internal/telnet/checked.go:45 | the shell reads the wrapper as five commands, the eval operand being one literal word |
| `Wrapper.CommandThroughEval` | internal/telnet/checked.go:45 | quoting nested twice: reading eval's operand again yields the intended words and operands |
| `Wrapper.BeginPrinted` | internal/telnet/checked.go:45-59 | the first printf prints the begin frame the parser waits for |
| `Wrapper.CompletionPrinted` | internal/telnet/checked.go:45-72 | the second printf prints prefix, decimal status, US and line feed |
| `Wrapper.ShellReply` | internal/telnet/checked.go:45-108 | what a shell prints for the wrapper is a reply with exactly the command's output and status, under the parser's own condition on that output |
| `Wrapper.PrefixInOutputIsAccepted` | internal/telnet/checked.go:83-92 | output that is itself a prefix is read back like any other |
| `Echo.RequestHoldsNoFrame` | internal/telnet/checked.go:41-59 | the request contains the begin frame if and only if the caller's command does |
| `Echo.RequestIsOneLine` | internal/telnet/checked.go:33-45 | the request is one physical line without CR, LF or NUL if the command is |
| `Session.DataPrefix` | internal/telnet/telnet.go:121-177 | a stream that breaks off anywhere, even inside a telnet command, delivers a beginning of the data |
| `Session.CutReply` | internal/telnet/checked.go:60-108 | a reply that is cut anywhere is never read as another reply |
| `Session.MarkersDiffer` | internal/telnet/checked.go:37-41 | different nonces of one length give different markers of one length |
| `Session.ForeignReplyHoldsNoFrame` | internal/telnet/checked.go:37-70 | a whole reply to a command with another nonce, whose output does not hold this command's begin frame, neither holds that frame nor completes one with what follows |
| `Session.ReplyBehindLate` | internal/telnet/checked.go:59-108 | behind any rest of such a late reply, this command's reply is still a reply with the same output and status |
| `Session.RunAfterLate` | internal/telnet/checked.go:33-109 | a command whose request was sent while the reply to an earlier command was still to come gives its own output and status, whatever that reply says |
| `Session.Refines` | internal/telnet/checked.go:33-109 | whatever the session makes of a command that a shell ran is an outcome of the abstract device |
| `Session.RunCommand` | internal/telnet/checked.go:33-109 | over a connection that delivers any beginning of what a shell prints, the caller gets the command's own output and status or an error, the former if nothing is missing; success means that the command had its full effect and that its output is what the caller sees |
| `PullPrintf.StripPrompt` | internal/scout/pull_printf.go:77-93 | cuts at the last line that ends in a prompt mark, and joins the lines |
| `Encodings.DecodeHexExact` | internal/scout/pull_printf.go:68-75 | decoding gives a byte string if and only if the text is its hex form, in either case |
| `Encodings.AlienHex` | internal/scout/pull_printf.go:68-75 | one character that is no hex digit makes decoding fail |
| `Encodings.Base64RoundTrip` | internal/scout/pull_printf.go:60-66 | base64 decoding inverts encoding for every byte string |
| `Encodings.Decode64Exact` | internal/scout/pull_printf.go:60-66 | base64 decoding gives a byte string if and only if the text is its encoding, spare bits before the padding aside |
| `Encodings.Alien64` | internal/scout/pull_printf.go:60-66 | one character outside the alphabet makes decoding fail |
| `PullPrintf.DecodeOutput` | internal/scout/pull_printf.go:60-93 | decodes what stripping leaves, blanks removed for hex |
| `PullPrintf.UsualPrompt` | internal/telnet/telnet.go:311-329 | a line without the characters of a mark, then a mark and a blank, is a prompt |
| `PullPrintf.StopsAfterText` | internal/telnet/telnet.go:311-329 | behind any text in which nothing can be taken for a prompt, and a prompt, reading stops right there, whatever follows |
| `PullPrintf.TextIsKept` | internal/scout/pull_printf.go:77-93 | scanning for the prompt and stripping it keep exactly the ended lines of a printed text, without line feeds and the blanks at the end |
| `PullPrintf.TextDecides` | internal/scout/pull_printf.go:46-93 | so the result of decoding is that of the ended lines, whatever text is printed |
| `PullPrintf.AlienSpoils` | internal/scout/pull_printf.go:60-93 | a character that the decoder neither knows nor ignores, as in an error message, makes the attempt fail |
| `PullPrintf.EncodedIsDecoded` | internal/scout/pull_printf.go:60-75 | decoding inverts both encodings, on lines of any lengths and for the empty file |
| `PullPrintf.HexLinesEncode` | internal/scout/pull_printf.go:27 | what xxd -p prints is such a text |
| `PullPrintf.OdLinesEncode` | internal/scout/pull_printf.go:28 | what od -An -t x1 prints is such a text, unless it suppresses lines |
| `PullPrintf.PrintedIffEnded` | internal/scout/pull_printf.go:60-93 | a printed file is decoded to its bytes if and only if its last line is ended or blank |
| `PullPrintf.UnendedExample` | internal/scout/pull_printf.go:60-93 | a concrete text that is decoded to less than the file it encodes |
| `PullPrintf.PullWithEncoder` | internal/scout/pull_printf.go:46-58 | a request that is sent whole pulls what the session answers to it, and leaves what follows; a path that cannot be sent is refused unsent |
| `PullPrintf.PullsUnique` | internal/scout/pull_printf.go:46-58 | what is still to come on the session decides what a request pulls |
| `PullPrintf.PullsText` | internal/scout/pull_printf.go:46-93 | whatever text is printed between echo and prompt, the result is what it decodes to, and reading stops right behind the prompt |
| `PullPrintf.TryEncoder` | internal/scout/pull_printf.go:20-36 | one attempt, tied to the session before and after it and to what was sent |
| `PullPrintf.PullViaPrintf` | internal/scout/pull_printf.go:16-39 | the encoders are tried in order, each on what the attempt before it left of the session, up to the first that decodes, which gives the local file; if none does, the local file is untouched; if every attempt finds the file or a message that is none, nil means that the local file is it |
| `PullPrintf.RequestWords` | internal/telnet/telnet.go:392 | the line that Execute sends is read by the shell as the name and its arguments |
| `PullPrintf.RequestAsks` | internal/scout/pull_printf.go:20-52 | whatever the remote path holds, the line of attempt i is read by the shell as exactly the words base64, or xxd -p, or od -An -t x1, then "<" and the remote path as one literal word |
| `PullPrintf.SentAsks` | internal/scout/pull_printf.go:16-52 | what PullViaPrintf has sent is one such line an attempt, in the order of the encoders |
| `PullPrintf.DeviceSays` | internal/scout/pull_printf.go:20-75 | a device that prints the file its line asks for, the way it asks for it, or a message, says what that attempt's decoder takes for the remote file or nothing |
| `PullPrintf.DeviceConverses` | internal/scout/pull_printf.go:16-58 | so a device that answers each line it reads is one for which a success gives the remote file |
| `PullPrintf.PulledIsContent` | internal/scout/pull_printf.go:16-58 | an attempt that finds the file or a message that is none gives the file or fails |
| `PullPrintf.ConversationPulls` | internal/scout/pull_printf.go:16-58 | over a device that answers in turn, a success gives the file, and one encoder that prints it on ended lines is enough |
| `Wire.BigEndianRoundTrip` | internal/xfer/listener.go:93-95 | reading a big-endian number inverts writing it if and only if it fits |
| `Wire.HalvesAgree` | internal/helpers/src/fileloader.c:117-123 | the 64-bit size read as two halves is the number written as one |
| `Wire.FramePrefix` | internal/xfer/listener.go:91-103 | any prefix of a push frame that delivers something delivers exactly the data, and is the whole frame |
| `Wire.HeaderAgreesIff` | internal/xfer/listener.go:91-95 | the device finds the end of the header where the host put it if and only if the length of the name fits in 32 bits |
| `Fileloader.ReadFull` | internal/helpers/src/fileloader.c:78-88 | exactly n bytes in order for every split into short and interrupted reads; fails only at the end or on a fault |
| `Fileloader.WriteFull` | internal/helpers/src/fileloader.c:90-100 | everything, or on a fault a proper prefix |
| `Fileloader.ReadU64` | internal/helpers/src/fileloader.c:117-123 | the next eight bytes as one number |
| `Fileloader.SendError` | internal/helpers/src/fileloader.c:161-170 | sends a prefix of one error message that fits the buffer, and all of it on a working socket |
| `Fileloader.SkipName` | internal/helpers/src/fileloader.c:187-197 | consumes exactly the name |
| `Fileloader.ReadHeader` | internal/helpers/src/fileloader.c:172-203 | a size is returned exactly as the whole header announces it |
| `Fileloader.CopyPayload` | internal/helpers/src/fileloader.c:211-226 | the file always holds a prefix of the payload, and all of it on success |
| `Fileloader.DoPush` | internal/helpers/src/fileloader.c:172-231 | OK is sent only if the destination is exactly the announced payload and could be closed; the destination is touched only after the whole header; otherwise an error message is sent; without faults OK is sent if and only if a whole frame arrives |
| `Fileloader.SendPullHeader` | internal/helpers/src/fileloader.c:249-277 | sends the pull header, or on a fault a prefix of it |
| `Fileloader.SendContent` | internal/helpers/src/fileloader.c:280-295 | sends a prefix of what can be read, and at least the announced size when nothing fails |
| `Fileloader.DoPull` | internal/helpers/src/fileloader.c:233-299 | a file that cannot be opened is reported in full on a working socket, one whose size cannot be taken sends nothing; otherwise a prefix of header and content is sent, and the whole announced size when nothing fails; answers 0 even after an interrupted read |
| `Listener.DeadlineWrite` | internal/xfer/listener.go:60-81 | counts exactly the bytes accepted, reports no error if and only if all were, and every byte was accepted after a deadline set at most 64 KiB before it |
| `Listener.WriteFrame` | internal/xfer/listener.go:89-105 | a prefix of the frame is written under such deadlines, the whole one if and only if there is no error |
| `Listener.ReadRemoteError` | internal/xfer/listener.go:129-142 | reads the message that the stream holds, unless the connection fails |
| `Listener.ReadPushCompletion` | internal/xfer/listener.go:144-158 | reads the answer the stream holds; a fault can only make it unreadable |
| `Listener.CompletionStable` | internal/xfer/listener.go:144-158 | an answer that could be read is not changed by more bytes |
| `Listener.ErrorMessageRoundTrip` | internal/xfer/listener.go:129-142 | the host reads the loader's own message, or a read error if it is cut |
| `Listener.AcceptedOnlyIfAcknowledged` | internal/xfer/listener.go:144-158 | of all answers the loader may give, exactly the acknowledgement is read as success |
| `Listener.ReceiveData` | internal/xfer/listener.go:199-217 | returns exactly the announced payload of the data frame |
| `Listener.AcceptAndPull` | internal/xfer/listener.go:163-225 | the local file is written if and only if the whole payload arrived, and then holds it; an error type makes the device's own message the error |
| `Listener.PullAgrees` | internal/xfer/listener.go:189-217 | whatever prefix of the loader's stream arrives is taken for a file only if it is the first announced bytes of the content, even if the file grew |
| `PushConnection.StepInv` | internal/xfer/listener.go:83-127 | every event of either end keeps the invariant, which contains do_push's contract on the bytes sent so far |
| `PushConnection.StepDecreases` | internal/xfer/listener.go:83-127 | every event brings the transfer nearer to its end |
| `PushConnection.NeverBlocks` | internal/xfer/listener.go:106-126 | until pushConnection has returned one of its own goroutines can go on without the device and without a fault: while the select waits, the writer or the deadline it has set; once the reply is taken, the close alone ends the writer; once the writer's result is taken, the deadline set then ends the reader |
| `PushConnection.PushCorrect` | internal/xfer/listener.go:83-127 | on every schedule: both goroutines were heard, the device's error is reported before the writer's, nil if and only if acknowledged, and then the destination equals the data; nothing is created before the whole header is sent |
| `PushConnection.UndisturbedSucceeds` | internal/xfer/listener.go:83-127 | a run in which no deadline passes, nothing fails and the device does not give up is a success if it returns |
| `PushConnection.SuccessIsPossible` | internal/xfer/listener.go:83-127 | every transfer has such a run |
| `PushConnection.LoaderCovered` | internal/helpers/src/fileloader.c:172-231 | every outcome that do_push's contract allows is reached by the device's steps |
| `PushConnection.PushData` | internal/xfer/listener.go:83-127 | under an arbitrary scheduler pushConnection terminates with such a result, and with nil if its schedule was undisturbed |
| `PushConnection.NoEarlyDeadline` | internal/xfer/listener.go:117-158 | a device that is still taking the payload is never timed out: until the writer's result is taken, a reading deadline passes only after the device sent an error |
| `PushConnection.ErrorIsTimed` | internal/xfer/listener.go:144-154 | once the device's error type has arrived, the reader can go on without the device: it sets its deadline, which can end it, and reads no message before |
| `Loader.StartCommandOperands` | internal/xfer/loader.go:100 | the shell starts the loader with exactly the intended five arguments |
| `Loader.OneNonce` | internal/xfer/loader.go:72-76 | a file lies under the helper's directory of one nonce only |
| `Loader.Launch` | internal/xfer/loader.go:89-104 | success means an open socket, the helper stored byte for byte, made executable by a confirmed command and started after that with the intended arguments; failure means a closed socket or none, and names the step whose command was not confirmed; only files in the directory change |
| `Loader.RunIn` | internal/xfer/loader.go:78-106 | a confirmed directory is removed exactly once on failure and left alone on success, when the helper in it is executable and was started; an unconfirmed one is never removed |
| `Loader.RunLoader` | internal/xfer/loader.go:65-107 | the same with the checks before it, which send nothing and are told apart; the listener of a success is open and owns the directory |
| `Loader.OwnedLoaderListener.Close` | internal/xfer/loader.go:56-60 | closes the socket and removes the directory the first time only |
| `Loader.Lifetime` | internal/xfer/loader.go:48-107 | one run and any number of Close calls: exactly one removal if the creation was confirmed and the run failed or was closed, none otherwise |
| `Transfers.UnservedLoader` | internal/helpers/src/fileloader.c:172-203 | a loader that is started but never served changes nothing |
| `Transfers.PushPayload` | internal/xfer/listener.go:45-50 | nil leaves exactly the data; otherwise the destination holds what it held or a beginning of the data |
| `Transfers.StartLoader` | internal/xfer/loader.go:33-46 | every failure is a SetupError and settles the helper's directory; on success the helper was confirmed to be executable and to run with the intended arguments |
| `Transfers.AcceptAndPush` | internal/xfer/listener.go:33-51 | only a loader that does not connect is a SetupError; nothing is touched before a connection and a readable local file |
| `Transfers.PushOverLoader` | internal/xfer/push.go:11-24 | a SetupError is reported exactly at three stages; before the transfer nothing is sent and the destination is untouched; nil leaves exactly the data; the helper's directory is always settled |
| `Transfers.PushFast` | internal/scout/scout.go:196-213 | the same with detection and connection, of which only the first is a SetupError; what makes the transfer impossible before it starts gives a SetupError, and nothing else does if every command is confirmed; with every command confirmed and an undisturbed transfer the result is nil |
| `Transfers.PullPayload` | internal/xfer/listener.go:163-225 | both ends of a pull together: nil means that the local file is the first announced bytes of the content, and it is nil if nothing fails |
| `Transfers.PullOverLoader` | internal/xfer/pull.go:14-27 | the same with the helper; after a SetupError the local file is untouched, and the helper's directory is always settled |
| `Transfers.PullFast` | internal/scout/scout.go:196-232 | the same with detection and connection; nil means the remote file itself if that did not change; the same SetupErrors, neither more nor fewer; with every command confirmed and a quiet connection the result is nil |
| `Scout.ScratchDisjoint` | internal/xfer/loader.go:76 | the scratch directories of the two transfers never overlap |
| `Scout.FastKeepsPromise` | internal/scout/scout.go:196-213 | the fast push keeps the promise, and its SetupErrors leave the destination alone, with nothing sent and nothing touched but the helper's directory |
| `Scout.PrintfKeepsPromise` | internal/scout/push_printf.go:26-120 | the slow push keeps the promise for the state before the fast one |
| `Scout.PushByPrintf` | internal/scout/push_printf.go:26-120 | nil leaves exactly the data and no other change; an error is never a SetupError and leaves what its kind allows, the first k batches after an unwritten batch k; with every command confirmed it is nil |
| `Scout.Push` | internal/scout/scout.go:182-193 | in every mode, on every network and with every failure: nil means that the destination holds exactly the local data; an error bounds what it holds; no other file changes outside the scratch directories; the slow transfer follows only from an untouched state and with notice; in auto mode no SetupError is returned, and whenever the fast transfer is impossible notice is given and the slow one runs, and not otherwise if every command is confirmed; with every command confirmed and nothing in the way of the last transfer the result is nil |
| `Scout.PullByPrintf` | internal/scout/scout.go:235-243 | nil means that the local file is what an encoder gave on the session; an error, never a SetupError, leaves it alone if it can be written at all |
| `Scout.Pull` | internal/scout/scout.go:216-221 | in every mode nil means that the local file is the announced beginning of the remote one or what an encoder printed of it on the session, and the remote file itself if that did not change and every attempt finds it or a message that is none; an error leaves the local file alone unless writing it failed; in auto mode the same rule for the fallback as for a push; the fast pull gives nil if nothing fails |
| `Scout.PulledInTurn` | internal/scout/pull_printf.go:16-58 | over a device that answers in turn, nil means that the local file is the remote one, and the result is nil if one encoder prints it on ended lines |
| `Scout.FallbackSafety` | internal/scout/mode.go:31-59 | for transfers of any kind: if a SetupError leaves what the second transfer relies on and each keeps a promise on its own, every run keeps it in every mode; the second transfer follows the first only after a SetupError, with notice, from such a state |
| `RemoteFile.SplitPathText` | internal/scout/files.go:26-29 | the path is split off at the first ":/", whatever follows |
| `RemoteFile.CredentialsParsed` | internal/scout/files.go:48-65 | user and password are read back |
| `RemoteFile.PortParsed` | internal/scout/files.go:71-82 | host and port are read back, 23 standing for an omitted port |
| `RemoteFile.RoundTrip` | internal/scout/files.go:18-91 | parsing inverts printing for all components free of the ambiguous separators, the path being arbitrary |
| `RemoteFile.CredentialsIff` | internal/scout/files.go:48-65 | credentials are refused exactly for a second colon or an empty password, each with its own error, and otherwise read back |
| `RemoteFile.BracketsIff` | internal/scout/files.go:32-45 | the bracket checks pass exactly if the first "[" and the last "]" enclose an address and nothing but "@" follows |
| `RemoteFile.MissingBracketIff` | internal/scout/files.go:33-36 | the missing bracket is reported exactly if there is a "[" and no "]" |
| `RemoteFile.PortIff` | internal/scout/files.go:71-82 | a host is refused exactly if it ends in a colon; otherwise host and port are its two parts or the port is the default |
| `RemoteFile.AcceptedIff` | internal/scout/files.go:18-91 | for every input whatever: it is accepted if and only if it is not empty, its host part has good brackets, and splits into good credentials and a host without an empty port |
| `RemoteFile.PrintedBack` | internal/scout/files.go:18-91 | printing inverts parsing, for every input that is accepted |
| `RemoteFile.BracketedHost` | internal/scout/files.go:32-45 | a bracketed IPv6 host is understood if and only if no port is given |
| `RemoteFile.PanicsIff` | internal/scout/files.go:32-44 | parsing breaks down exactly for host parts with crossed brackets |
| `RemoteFile.PanicExample` | internal/scout/files.go:32-44 | a concrete such input |

## Left out

- Sockets, dialling, login (`waitWelcomeSigns`), network interfaces and subnets: connections are given, and `sameSubnet` is an arbitrary boolean.
- Deadlines and the two-second drain of `finish_error_reply`: a timeout is a failure that may strike at any step (in `PushConnection`, once its deadline is set).
- `fork`, `setsid`, `getaddrinfo`, signals and the usage checks of the C program's `main`.
- Random number generation: fresh names are preconditions. A generator that fails is a missing name in both transfers; the marker of a checked command is always there.
- Detection of the device's architecture, ELF reading, helper selection, remote path classification, command line, progress bar and logging: only their success or failure enters.
- `od` lines that stand for repeated ones are text that does not decode; which files make `od` print them is not part of the model.
- Error texts: errors are told apart by kind, except the device's own message, which is modelled byte for byte.
- Other names of one file (links, relative paths): a path is a string, and the destination is assumed not to lie under a fresh scratch directory.
- Allocation of a payload of an absurd announced size in `AcceptAndPull`.
- Shell syntax that BusyScout does not write (here-documents, IO numbers, reserved words) and reuse of a printf format for surplus arguments.
- Non-ASCII blanks in `bytes.TrimSpace`.
- A device that goes on writing after BusyScout has given up: after an error of the fast push the destination is described at the moment of return.
- The pool's steps are whole remote commands: two commands of different workers are ordered one after the other, which is the effect they have on different files.
- PushPrintf.BuildJoin: the order of validation and writing inside one batch is kept, but the strings.Builder is a string that grows.
- PushConnection.PushData: runs the transition system rather than threads; its writer, reader and device steps carry the contracts of `Listener.WriteFrame`, `Listener.ReadPushCompletion` and `Fileloader.DoPush`.
