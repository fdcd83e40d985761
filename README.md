# rcpd, modelled in Dafny

`rcpd` is a small server for the BSD `rcp` protocol. A client connects and sends an
rsh-style preamble: NUL-terminated fields whose fourth field is the command.

- `rcp -t <path>` means the client pushes files into `<path>` (the server is the sink).
- `rcp -f <path>` means the client pulls the file `<path>` (the server is the source).

Every path the client names is joined onto the configured root directory and cleaned.
It is accepted only if the root is a byte prefix of the result. Transfers use one-byte
acknowledgements (0; 1 when the source file cannot be opened), a `C<mode> <size> <name>`
control line per file, the raw payload, a terminating byte, and an `E` line that ends a
sink session.

The model covers the four handlers of `rcpd.go`: `handleConnection`, `handleReceiveFile`,
`handleBinaryFileTransfer` and `handleSendFile`. It is built in two layers.

- **Specification functions** (module `Protocol`) give the outcome of a whole connection.
  The outcome is an `Endpoint`: how much client input was consumed, every byte written
  back, and the resulting file tree. It is a function of the client's byte stream and the
  initial file tree.
- **The class `Server.Connection`** carries the handlers out step by step: byte reads, line
  reads, 32 KiB bulk reads into an array buffer, writes, and file-tree updates. Each of its
  methods is proved to end in exactly the state the matching `Protocol` function gives.

Properties of the protocol are proved about the functions, in modules `Properties`,
`Header`, `Paths`, `Command` and `Numerals`.

Modules, in dependency order:

- `Wrappers`: `Option` and `Result`.
- `Bytes`: the `bytes` package operations the server calls (`HasPrefix`, `HasSuffix`,
  `TrimPrefix`, `Contains`, `Split`, `SplitN`, `TrimSpace`).
- `Numerals`: `strconv.ParseInt` for bases 8 and 10 with 32- and 64-bit ranges, and the
  `%04o` / `%d` formatting.
- `Paths`: `filepath.Clean`, `Join`, `Base` and `Dir` on `/`-separated paths, and the
  containment check (`Resolve`).
- `Command`: the preamble scan and the routing on the fourth field.
- `Header`: parsing and formatting of the `C` control line.
- `FileSystem`: the file tree with `MkdirAll` and `OpenFile(O_WRONLY|O_CREATE|O_TRUNC)`.
  The mode handed to `OpenFile` is `os.FileMode(mode)` (`OpenMode`): the int64 is truncated
  to 32 bits, and the file is created with the nine permission bits plus set-user-ID,
  set-group-ID and sticky taken from `ModeSetuid`, `ModeSetgid` and `ModeSticky`. So the
  mode "-1" asks for 07777, and "40000755" for a set-user-ID 04755 file.
- `Protocol`: the sessions as functions.
- `Server`: the `Connection` class.
- `Properties`: whole-session facts.

How the client's stream is modelled: a `Stream` is the sequence of bytes the client sends,
plus the set of positions where the client *waits*. At a wait it sends nothing more until
the server has written something back (an rcp client waits after its command, after each
control line and after each file).

- Bytes the client sends without waiting are all there when the server reads them.
- Reads stop where the client waits, unless the server has written since it reached that
  position (`Protocol.Avail`). Past that position the server writes nothing while reading,
  so every later wait stops the reads too.
- `ReadByte` at such a position times out (`Protocol.ReadAt` gives `TimedOut`). It returns
  end of file at the end of the bytes, and the next byte otherwise.
- `ReadBytes('\n')` returns a line only when its newline comes before reads stop
  (`Protocol.Line`).
- A bulk `Read` from an empty `bufio` buffer returns everything up to where reads stop, at
  most 32 KiB (`Protocol.Chunk`). At a wait it returns nothing and a timeout.

What each handler then does with a timeout follows the code:

- In the preamble loop nothing is ever written, so a client waiting there is never
  answered. The loop's retries run into its overall limit, and the connection ends
  silently.
- A timed-out control line ends the sink session.
- A timed-out read in the copy loop returns from the transfer with no file
  acknowledgement (`Protocol.Stalled`).
- A timed-out terminator read is only a warning: the file is acknowledged and the loop
  reads the next line.

How the code behaves where a reader may expect otherwise:

- **Containment check.** The check is a plain byte prefix (rcpd.go:128, rcpd.go:194,
  rcpd.go:268), so a sibling such as "/srv/data2" passes for the root "/srv/data"
  (`Paths.SiblingAccepted`).
- **Bulk reads are not capped.** The copy loop reads into its whole 32 KiB buffer, not just
  the bytes still expected (rcpd.go:220). An rcp client waits for the acknowledgement of
  its control line, so `bufio` holds nothing when the copy loop starts, and then sends the
  payload and its NUL terminator together. Unless the payload fills a whole number of
  buffers, the NUL is written into the file. The terminator read that follows then times
  out (`Properties.StorePayloadAndTerminator`).

## Model

| member | source | states |
|---|---|---|
| Bytes.TrimPrefix | rcpd.go:117 | When `s` starts with the prefix, `s` is the prefix followed by the result; otherwise the result is `s` unchanged. |
| Bytes.Split | rcpd.go:98 | There is always at least one piece, and no piece contains the separator. |
| Bytes.SplitAppend | rcpd.go:98 | Splitting `a + [sep] + b` gives the pieces of `a` followed by the pieces of `b`. |
| Bytes.SplitJoin | rcpd.go:98 | Split is the inverse of Join on separator-free pieces. |
| Bytes.SplitN | rcpd.go:175 | SplitN with limit n gives between 1 and n pieces. |
| Bytes.SplitNCount | rcpd.go:175-176 | SplitN gives exactly min(n, number of Split pieces) pieces. |
| Bytes.SplitNJoin | rcpd.go:175 | Joining SplitN's pieces with the separator gives back the input. Only the last piece can contain the separator. |
| Bytes.IndexOf | rcpd.go:144 | The result is the first index holding the byte, or the length when there is none. |
| Bytes.TrimSpace | rcpd.go:154 | The result is empty, or neither of its ends is ASCII white space. |
| Bytes.TrimSpaceAround | rcpd.go:154 | The result is a contiguous slice of the input, and every byte of the input before and after that slice is white space. |
| Bytes.TrimSpaceNoop | rcpd.go:154 | A non-empty input without white space at either end is left unchanged. |
| Bytes.ContainsAt | rcpd.go:86 | An occurrence of the pattern at any index makes `Contains` true. |
| Bytes.ContainsOccurs | rcpd.go:86 | `Contains` holds exactly when the pattern occurs at some index, in both directions. |
| Bytes.ContainsPrefix | rcpd.go:86 | A pattern found in a prefix of the bytes is found in the bytes. |
| Numerals.ParseInt | rcpd.go:180-188 | An accepted value lies in the signed range of the bit size. The text is non-empty, everything after the first byte is a digit of the base, and a negative value needs a leading '-'. |
| Numerals.ParseIntSigned | rcpd.go:180-188 | An optional '+' or '-' followed by a non-empty digit string parses to the digits' value, negated after '-', exactly when that value fits the signed range, and is refused otherwise (so "+7" gives 7 and "-0012" gives -12). |
| Numerals.ParseIntShape | rcpd.go:180-188 | Nothing else parses: every accepted text is an optional sign followed by a non-empty digit string. |
| Numerals.ModeRange | rcpd.go:180 | An unsigned octal digit string is accepted as a mode exactly when its value is below 2^31. |
| Numerals.NegativeSizeParses | rcpd.go:185 | The size field "-1" is accepted, with value -1. |
| Numerals.FormatUnsigned | rcpd.go:298 | The result is a non-empty digit string of the base whose value is n. |
| Numerals.DigitsAppend | rcpd.go:298 | Appending a digit multiplies the value by the base and adds the digit. |
| Numerals.LeadingZeros | rcpd.go:298 | Zero padding on the left keeps the digits and the value. |
| Numerals.ZeroPad | rcpd.go:298 | The padded text is exactly max(width, digits) long, ends with the digits, and every byte before them is '0'. |
| Numerals.Octal4Digits | rcpd.go:298 | `%04o` writes at least four octal digits. |
| Numerals.OctalRoundTrip | rcpd.go:298 | What `%04o` writes for a mode below 2^31, `ParseInt(_, 8, 32)` reads back as the same value. |
| Numerals.DecimalRoundTrip | rcpd.go:298 | What `%d` writes for a size below 2^63, `ParseInt(_, 10, 64)` reads back as the same value. |
| Numerals.NotAmongDigits | rcpd.go:175 | A byte that is not a digit of the base (a space, a newline) does not occur in a digit string. |
| Header.ParseHeader | rcpd.go:175-190 | An accepted control line yields a mode in the signed 32-bit range and a size in the signed 64-bit range. The name is a suffix of the trimmed line body. |
| Header.ParseHeaderFields | rcpd.go:175-190 | Take a line whose trimmed body is `<a> <b> <name>` with no space in `a` or `b`. It is accepted exactly when `a` parses as octal in 32 bits and `b` as decimal in 64 bits. The header is then those two values and the whole remainder `name`, spaces included. |
| Header.AcceptedHeaderShape | rcpd.go:175-190 | Every accepted line has that shape: three pieces, the first two without spaces, joined by single spaces, the name being the third. |
| Header.TooFewFields | rcpd.go:175-178 | A body with fewer than three space-separated pieces is refused as badly formatted. |
| Header.SplitNLast | rcpd.go:190 | The last piece of SplitN is a suffix of the input. |
| Header.SplitFields | rcpd.go:175 | `<a> <b> <name>`, with no space in `a` or `b`, splits into exactly `[a, b, name]`. |
| Header.FormatHeader | rcpd.go:298 | The line the sender writes starts with 'C' and ends with a newline. |
| Header.TrimFormatted | rcpd.go:154 | Trimming a formatted line removes only its newline. |
| Header.ParseFields | rcpd.go:175-190 | A trimmed line `C<oct> <dec> <name>` of digit strings parses to the values of its fields and that name. |
| Header.LineRoundTrip | rcpd.go:154-158 | A line `C<oct> <dec> <name>\n` trims to itself without the newline, is routed as a 'C' line, and parses to its fields. |
| Header.HeaderRoundTrip | rcpd.go:298 | Round trip: the header line `C%04o %d %s\n` a sender writes, once trimmed by the receiver (rcpd.go:154), parses back to the same mode, size and name. The name must be non-empty and end in a non-space. |
| Paths.Segments | rcpd.go:126 | A path has at least one element, and no element contains '/'. |
| Paths.Normalize | rcpd.go:126 | The cleaning of an element list keeps the elements free of '/'. For rooted paths it keeps only names (no "", "." or ".."). |
| Paths.Clean | rcpd.go:126 | The cleaned path is non-empty, and a rooted path stays rooted. |
| Paths.Stack | rcpd.go:126 | The elements of a cleaned rooted path are all names. |
| Paths.JoinPath | rcpd.go:125 | Joining onto a rooted directory gives a rooted path. |
| Paths.CleanIdempotent | rcpd.go:126 | Clean is idempotent on rooted paths, so its result is a clean absolute path. |
| Paths.CleanHasOnlyNames | rcpd.go:126 | A cleaned rooted path is "/" or has no empty, "." or ".." element. |
| Paths.AbsPathIsClean | rcpd.go:126 | A rooted path built from names is clean, and those names are its elements. |
| Paths.CleanUnder | rcpd.go:125-126 | Cleaning `<dir>/<q>` for a clean directory continues the cleaning from the directory's elements. |
| Paths.NormalizeAppend | rcpd.go:126 | Cleaning a concatenation cleans the first part, then continues with the second. |
| Paths.NormalizeWithoutParent | rcpd.go:126 | Without "..", cleaning only drops the empty and "." elements. |
| Paths.Resolve | rcpd.go:125-131 | The result is accepted exactly when the root is a byte prefix of the cleaned join. An accepted path is that cleaned join: clean, absolute, and starting with the root. |
| Paths.TargetAliases | rcpd.go:120-123 | The targets "", "." and "/" all resolve to the root directory itself. |
| Paths.ClientPathRerooted | rcpd.go:265-271 | A client path without ".." resolves under the root: an absolute path such as "/etc/x" is re-rooted as `<root>/etc/x`. |
| Paths.SiblingAccepted | rcpd.go:128 | The prefix test accepts `../<last element of root><x>`: it resolves to `root + x`, which is neither the root nor inside it (for example "/srv/data2" for the root "/srv/data"). |
| Paths.ResolveAccepts | rcpd.go:125-131 | A cleaned join that starts with the root is accepted as itself. |
| Paths.BesideRoot | rcpd.go:128 | `root + x`, when `x` does not start with '/', is not the root and is not under `root/`. |
| Paths.ParentRejected | rcpd.go:125-131 | ".." from the root is refused, because the cleaned parent is shorter than the root. |
| Paths.ParentClean | rcpd.go:126 | Cleaning `<dir>/..` drops the last element. |
| Paths.AbsPathLonger | rcpd.go:126 | A proper prefix of an element list names a shorter path. |
| Paths.Base | rcpd.go:298 | `filepath.Base` is never empty. |
| Paths.BaseAbs | rcpd.go:298 | The Base of a clean rooted path other than "/" is its last element. |
| Paths.Dir | rcpd.go:200 | `filepath.Dir` of a rooted path is rooted. |
| Paths.DirAbs | rcpd.go:200 | The Dir of a clean rooted path other than "/" is that path without its last element. |
| Command.ScanFrom | rcpd.go:74-89 | When the scan finds an end, it lies after the bytes already read and within the input. |
| Command.ScanFromSpec | rcpd.go:74-89 | The scan stops at the first end where the bytes read contain "rcp " and end in NUL. When it runs out of input, no end completes a preamble. |
| Command.ScanStep | rcpd.go:84-88 | Unfolds `ScanFrom` by one loop turn, as a step for the proof of `ScanPreamble` (through `Protocol.ScanAtStep`): the scan stops after this byte exactly when the buffer is complete; otherwise it goes on. |
| Command.ScanStopsAtFirstCompletion | rcpd.go:74-94 | From the start of the input, the scan ends at the shortest complete prefix. When there is none, it finds nothing. |
| Command.Classify | rcpd.go:98-113 | A command needs at least four NUL-separated fields. Field 3 starting with "rcp -t " is a receive into the rest; otherwise, starting with "rcp -f " is a send of the rest; anything else is rejected. All three directions are stated. |
| Command.Preamble | rcpd.go:86 | A client's preamble ends in NUL. |
| Command.PreambleFields | rcpd.go:98-104 | A preamble of NUL-free fields splits into those four fields and a trailing empty piece. |
| Command.RestThenField | rcpd.go:98 | A NUL and a NUL-free field appended to split pieces add that field as the last piece. |
| Command.StandardPreamble | rcpd.go:74-113 | Take a standard preamble whose first three fields hold no "rcp ". The scan stops exactly at the command's terminating NUL, whatever follows. The command is then routed by its prefix. |
| FileSystem.FileModeOf | rcpd.go:205 | `os.FileMode(mode)` is below 2^32: a mode in range is kept, and a negative one wraps modulo 2^32. |
| FileSystem.OpenMode | rcpd.go:205 | The mode a file is created with is at most 07777. Its nine permission bits are the FileMode's, and its set-user-ID, set-group-ID and sticky bits are set exactly when ModeSetuid, ModeSetgid and ModeSticky are. A mode of at most 0777 is kept as is. |
| FileSystem.NegativeModeAll | rcpd.go:180-205 | The mode -1 asks for 07777: all permissions and all three special bits. |
| FileSystem.SetuidMode | rcpd.go:205 | The FileMode 040000755 creates a set-user-ID 04755 file. |
| FileSystem.Mkdir | rcpd.go:201 | Creating a directory succeeds exactly when it does not exist and its parent is a directory; it adds only that directory. |
| FileSystem.MkdirAll | rcpd.go:200-203 | On success the path is a directory. Every existing node is kept as it was, and every new node is a 0755 directory that is the path or one of its ancestors. When the path is already a directory, nothing changes. |
| FileSystem.MkdirAllFailure | rcpd.go:201-203 | When "/" is a directory, MkdirAll fails only when the path or one of its ancestors is a file. |
| FileSystem.CreateTrunc | rcpd.go:205-208 | Opening for writing succeeds exactly when the path is not a directory, and a new file's parent is a directory. It empties the file: an existing file keeps its permissions, a new one gets the requested ones. |
| Protocol.Avail | rcpd.go:219-220 | Reads from a position stop at the end of input or at a wait, never before the position. They stop at the position itself exactly when input has ended there or the client waits there unanswered. |
| Protocol.AvailFirstWait | rcpd.go:219-220 | There is no wait between the position and where reads stop. |
| Protocol.AvailFrom | rcpd.go:219-220 | Once a byte has been read, reads from any later position before the stop stop at the same place. |
| Protocol.AvailReaches | rcpd.go:219-220 | Reads get at least to a position when the client does not wait before it. |
| Protocol.ReadAt | rcpd.go:242-250 | `ReadByte` returns a byte exactly when reads have not stopped, and then it is the next byte. It times out exactly when the client waits there unanswered. |
| Protocol.Chunk | rcpd.go:220 | One bulk read from an empty `bufio` buffer returns at most 32768 bytes and never past where reads stop. It returns none exactly when `ReadByte` would return no byte, and fewer than 32768 only when it reaches that stop. |
| Protocol.CopyIn | rcpd.go:216-233 | The copy loop stops within the data that has arrived. It stops before the end of that data only once at least `size` bytes are in, and then less than 32 KiB past `size`. |
| Protocol.CopyInStep | rcpd.go:218-232 | Unfolds `CopyIn` by one turn, as a step for `CopyPayload`: the loop reads one chunk and continues. |
| Protocol.CopyRead | rcpd.go:218-232 | One bulk read of the loop: a read that returns nothing happens only where reads stop; one that returns data extends the file's bytes by it and leaves the rest of the loop unchanged. |
| Protocol.CopyInRounds | rcpd.go:216-233 | The loop reads whole 32 KiB buffers while data lasts: it stops at the first multiple of 32 KiB covering the expected size, or where the data stops if that comes first. |
| Protocol.CopyInExact | rcpd.go:216-233 | When the data stops right after the payload, the loop receives exactly the payload. |
| Protocol.CopyInShort | rcpd.go:218-226 | When the data stops before the payload is complete, the loop reads all of it. |
| Protocol.LineEnd | rcpd.go:144 | A complete line ends just after the first newline from its start. Without a newline, there is no complete line. |
| Protocol.LineEndIs | rcpd.go:144 | A line ends just after the first newline from its start. |
| Protocol.LineEndNone | rcpd.go:144-148 | Without a newline there is no complete line. |
| Protocol.Line | rcpd.go:143-152 | `ReadBytes('\n')` returns a line ending at the first newline, before reads stop. When it returns none, there is no newline before they stop. |
| Protocol.LineIs | rcpd.go:144 | The line ends just after the first newline before reads stop. |
| Protocol.LineNone | rcpd.go:144-151 | Without a newline before reads stop there is no line. |
| Protocol.LineByte | rcpd.go:144 | One byte of the line read: a newline read ends the line there, and a read that returns no byte leaves it cut off where reads stop. |
| Protocol.PreambleEnd | rcpd.go:70-94 | A preamble, when found, ends after the position and before reads stop (nothing is written during the scan, so the client is never answered). |
| Protocol.ScanAt | rcpd.go:74-89 | The scan over the bytes that arrive finds an end after the bytes read so far. |
| Protocol.ScanAtStep | rcpd.go:84-88 | One turn of the scan over the arrived bytes: it stops after this byte exactly when the buffer is complete, and goes on otherwise. |
| Protocol.PreambleByte | rcpd.go:74-88 | One byte of the preamble loop: a byte read ends the scan when it completes the preamble and goes on otherwise; a read that returns no byte leaves no preamble. |
| Protocol.ReceiveFile | rcpd.go:174-196 | A `C` line consumes input only forward. It ends the session with no reply or a single acknowledgement, or goes on with exactly two. |
| Protocol.ReceiveFileRefuses | rcpd.go:175-196 | A malformed header or an escaping name ends the session, with nothing consumed, written or changed. |
| Protocol.StoreFile | rcpd.go:200-258 | Input is consumed only forward. A session that ends writes nothing or one acknowledgement; one that goes on writes exactly two. |
| Protocol.StoreFileCreationFails | rcpd.go:200-208 | When MkdirAll fails, or OpenFile fails after it, the session ends before the header's acknowledgement: nothing consumed, nothing written, and only the directories MkdirAll made are kept. |
| Protocol.ReceiveFileStores | rcpd.go:200-258 | Unfolds `StoreFile` on its success path, as a step for the `Server.Connection.StoreFile` proof. Once the directories and the file are created, the file holds exactly the bytes the copy loop read. A loop that timed out short of the size ends the session with only the header's acknowledgement. Otherwise the terminator read takes one byte if it gets one (not at a wait or end of file), and two acknowledgements are written. |
| Protocol.ReceiveLoop | rcpd.go:142-171 | The control-line loop only consumes input and only appends to the output, and what it appends is acknowledgements. |
| Protocol.LoopAtEnd | rcpd.go:144-152 | Unfolds `ReceiveLoop` at a cut-off line: a line cut off by end of input or a timeout ends the session with the arrived input consumed. |
| Protocol.LoopFileLine | rcpd.go:157-162 | Unfolds `ReceiveLoop` at a `C` line: a trimmed `C` line transfers a file, then continues with the next line, unless the transfer failed. |
| Protocol.LoopEndLine | rcpd.go:163-167 | Unfolds `ReceiveLoop` at an `E` line: a trimmed `E` line is acknowledged once and ends the session. |
| Protocol.LoopSkipLine | rcpd.go:168-170 | Unfolds `ReceiveLoop` at any other line: the line is skipped without a reply. |
| Protocol.Payload | rcpd.go:313-333 | What the send loop transmits has the size Stat reports. For a file it is the file's contents. |
| Protocol.SendOpened | rcpd.go:292-348 | Serving an open file changes no file, only consumes input, and first writes 0 and the header line. |
| Protocol.SendOpenedCases | rcpd.go:292-348 | Unfolds `SendOpened` into its three endings, as a step for `SendReplies`. The client answers other than 0: nothing more is written. A read fails: nothing more is written. Otherwise: the whole payload and a final 0. |
| Protocol.SendSession | rcpd.go:261-351 | A source session changes no file and only appends to the output. |
| Properties.SilentConnection | rcpd.go:63-114 | A connection whose preamble never completes, is not a known command, or names an escaping path writes nothing and changes no file. |
| Properties.ReceiveReplies | rcpd.go:116-172 | A sink session with an escaping target writes nothing. Otherwise it writes two acknowledgements and afterwards only acknowledgements. |
| Properties.SendReplies | rcpd.go:261-351 | A source session writes nothing for an escaping path and a single 1 for a missing one. Otherwise it writes 0 and the header line, then, after the client's 0, the whole payload and a final 0. |
| Properties.ReceiveFormatted | rcpd.go:174-258 | Take a trimmed header line as the sender formats it, with a resolved name whose directory exists. The payload up to the client's wait is stored there with two acknowledgements. An existing file keeps its permissions; a new one gets the announced ones. |
| Properties.FormattedHeaderParsed | rcpd.go:175-196 | A trimmed sender-formatted header line is routed as a `C` line and reaches the creation of its resolved path. |
| Properties.StoreIntoDirectory | rcpd.go:200-258 | Storing into an existing directory replaces the file's contents with exactly the bytes the copy loop read; the session ends after one acknowledgement if the loop stalled, and goes on after two otherwise. |
| Properties.StoreGoesOn | rcpd.go:216-258 | A copy loop that did not stall stores the bytes it read, reads the terminator, and acknowledges twice. |
| Properties.StorePayloadThenWait | rcpd.go:216-258 | A client that sends exactly the payload and then waits or closes gets exactly the payload stored, nothing more consumed, and two acknowledgements. |
| Properties.StorePayloadAndTerminator | rcpd.go:216-258 | A client that waits after its control line, then sends the payload and its NUL together and waits, gets the NUL stored at the end of the file unless the payload fills whole 32 KiB buffers; the terminator read finds nothing and the file is still acknowledged twice. |
| Properties.CopyInPastPayload | rcpd.go:216-233 | With one byte after an n-byte payload, the loop's last read takes that byte too unless n is a multiple of 32 KiB. |
| Properties.StoreShortThenWait | rcpd.go:218-225 | A client that sends fewer bytes than announced and waits: the file keeps what arrived and the session ends with only the header's acknowledgement. |
| Properties.StoreShortThenClose | rcpd.go:218-256 | A client that sends fewer bytes than announced and closes: the file keeps what arrived and it is acknowledged twice. |
| Properties.SetuidModeParses | rcpd.go:180-205 | The mode field "40000755" is accepted and creates a set-user-ID 04755 file. |
| Properties.ParentExists | rcpd.go:200-203 | MkdirAll of an existing parent directory changes nothing. |
| Properties.LineEndAt | rcpd.go:144 | A line whose only newline is its last byte is read whole. |
| Properties.LineAt | rcpd.go:144 | A line the client sends without waiting inside it is read whole. |
| Properties.FormattedLineRead | rcpd.go:144 | A header line the sender formats (for a name without newline) is read whole by the receiver. |
| Properties.FormattedLineShape | rcpd.go:298 | A formatted header line has its only newline at its end. |
| Properties.EndLineStep | rcpd.go:163-167 | The line "E\n" is acknowledged with one 0 and ends the loop. |
| Properties.UnansweredLine | rcpd.go:168-170 | A line that is neither `C` nor `E` gets no reply, so a client that waits after it (as `rcp -p` does after its `T` line) is never answered, and the session ends there. |
| Server.ReadNode | rcpd.go:317 | Reading a directory fails. Reading a file at an offset gives up to 32 KiB of its contents from there, or end of file. |
| Server.Connection.constructor | rcpd.go:63-68 | A new connection has consumed and written nothing. |
| Server.Connection.ReadByte | rcpd.go:76 | Returns `ReadAt`'s result and moves past the byte exactly when one is returned. |
| Server.Connection.ReadLine | rcpd.go:144-152 | Reads exactly the bytes up to and including the next newline. A line cut off by end of input or a timeout is consumed up to where reads stop and reported as none. |
| Server.Connection.Read | rcpd.go:220 | The buffer receives exactly one chunk of the input; the status is an error exactly at a timeout. |
| Server.Connection.Write | rcpd.go:136 | The bytes are appended to the output. |
| Server.Connection.ScanPreamble | rcpd.go:70-94 | The byte-by-byte loop ends where `PreambleEnd` says and returns the bytes read, or none where reads stop. |
| Server.Connection.CopyPayload | rcpd.go:216-233 | The chunked copy loop ends where `CopyIn` says, reports a timeout exactly when it stalled, and the file holds exactly the bytes read. |
| Server.Connection.TransferFile | rcpd.go:174-196 | The new state is `ReceiveFile`'s, and the session goes on exactly when the function continues. |
| Server.Connection.StoreFile | rcpd.go:200-258 | The new state is `Protocol.StoreFile`'s. |
| Server.Connection.ReceiveFiles | rcpd.go:116-140 | The new state is `ReceiveSession`'s. |
| Server.Connection.ReceiveControlLines | rcpd.go:142-171 | The new state is `ReceiveLoop`'s. |
| Server.Connection.ReceiveControlLine | rcpd.go:143-170 | One turn either ends the loop in `ReceiveLoop`'s state, or consumes input and leaves the rest of the loop unchanged. |
| Server.Connection.SendFile | rcpd.go:261-290 | The new state is `SendSession`'s. |
| Server.Connection.SendOpenFile | rcpd.go:292-348 | The new state is `SendOpened`'s. |
| Server.Connection.SendPayload | rcpd.go:313-333 | The send loop writes exactly `Payload`, and reports failure exactly when there is none. |
| Server.Connection.Serve | rcpd.go:63-114 | The whole connection ends in `Session`'s state. |

## Left out

- `main`, flag parsing, the listener and the per-connection goroutine: outside the handlers
  modelled here.
- Time itself. A client either sends a byte or waits for the server, and a read at an
  unanswered wait times out. The 1 s retries of the preamble loop (rcpd.go:75-79) and its
  30 s overall limit are covered only through that outcome. A client that is merely slow
  is not modelled.
- Network segmentation: bytes the client sends without waiting are all there when the
  server reads them.
- The 100 ms pause between the two acknowledgements (rcpd.go:137): timing only.
- Logging and `hex.Dump`: no effect on the protocol.
- Failures of `conn.Write`: writes always succeed, so the error returns at rcpd.go:212,
  254, 293, 300, 324 and 338 are not modelled.
- Failure of `file.Stat` after a successful open (rcpd.go:284-290), and errors writing to
  the local file (rcpd.go:228): the file system model has no such failures.
- Symbolic links, the process umask, ownership, and file-system errors other than "not a
  directory", "is a directory", "not found" and "already exists": the file tree is a map
  from clean paths to nodes, and a new file gets exactly the mode `OpenMode` gives.
- Unicode white space in `bytes.TrimSpace`: only ASCII white space is trimmed.
- Protocol.Chunk: the 4096-byte buffer of `bufio.Reader` is not modelled. When a control
  line arrives together with payload bytes (the client does not wait after it), the line
  read leaves up to 4096 bytes in that buffer. The first bulk read of the copy loop then
  returns only those bytes, where the model returns up to 32 KiB. The bytes stored and
  where the loop stops can then differ from the model whenever the payload and what
  follows it arrive together.
- Protocol.CopyIn: `totalReceived` is an unbounded integer, so its int64 overflow is not
  modelled. The 64-bit size bound makes that overflow unreachable in practice.
- The size a directory reports, and its reads: a directory carries a size, and reading it
  fails (`Server.ReadNode`), so sending a directory of non-zero size stops after its header.
- Protocol.ReceiveSession, Protocol.Session: these carry no contract of their own. They
  are specified by `Properties.SilentConnection` and `Properties.ReceiveReplies`, and
  carried out by `Server.Connection.ReceiveFiles` and `Server.Connection.Serve`.
- Paths.ResolveTarget, Protocol.Announce, Protocol.Stalled, Numerals.FormatOctal4,
  Numerals.FormatDecimal: these carry no contract of their own either. They are specified by
  lemmas about them:
  - `ResolveTarget` (rcpd.go:117-131) by `Paths.TargetAliases` and `Paths.ClientPathRerooted`;
  - `Announce` (rcpd.go:298) by `Properties.SendReplies` and `Header.HeaderRoundTrip`;
  - `Stalled` (rcpd.go:218-225) by `Properties.StoreShortThenWait` and
    `Protocol.ReceiveFileStores`;
  - `FormatOctal4` by `Numerals.Octal4Digits` and `Numerals.OctalRoundTrip`;
  - `FormatDecimal` by `Numerals.DecimalRoundTrip`.
- No lemma composes a whole multi-file upload from preamble to `E` line. The single steps
  are covered by `Properties.ReceiveFormatted`, `Properties.StorePayloadAndTerminator`,
  `Properties.EndLineStep`, the `Loop*` lemmas and `Command.StandardPreamble`.
