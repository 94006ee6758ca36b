# sockproc, modelled in Dafny

sockproc is a small daemon. It listens on a Unix or TCP socket. For each connection
it reads a request, runs the request's command through `/bin/sh -c` and replies.

A request is a command line ending in `\r\n`, then a length line ending in `\r\n`,
then that many bytes of payload. The payload goes to the command's standard input.

The reply is:
- `status:<n>\r\n`;
- the length of the command's standard output, `\r\n`, then those bytes;
- the same for its standard error.

The command's output is gathered in a chain of 16384-byte buffers before it is
written out.

This project models the sequential core of `sockproc.c` and proves properties of it:

- **The buffer chain** (module `BufferChain`): `read_pipe`, `total_bytes` and
  `free_buffer_chain`.
  - A `Link` class mirrors `struct buffer_chain_t`: an `array<byte>` of 16384 bytes,
    `len` and `next`.
  - A ghost `seq<Link>` lists the chain in order. `ChainBytes` is its contents.
  - `ReadPipe` keeps the source's loop and allocations. It is proved to hold exactly
    the bytes of the pipe. Its shape (link lengths) is proved to be determined by the
    total, including the extra empty link after an exact multiple of 16384.
- **Request framing** (modules `RequestFraming` and `RequestReader`): the two
  byte-at-a-time loops of `main`, their shared 2047-byte budget, `strstr` over the
  zeroed buffer, and `sscanf("%zu")`.
  - `RequestFraming` states declaratively what the loops do to any input stream:
    where the first loop stops, how many bytes each loop takes, the final buffer, and
    the command and length that come out.
  - `RequestReader` is the imperative code: a 2048-byte `array`, one `read` per
    byte, a `strstr` after each byte, and the second loop as a do-while. It is proved
    to compute exactly that specification.
- **The stdin transfer loop** (module `Session`). It reads up to 2048 bytes at a
  time and forwards each chunk. The count is converted to `ssize_t` and decremented.
  The loop stops at end of stream or once the count is spent.
- **The reply** (module `Response`).
  - `Encode` is the byte format.
  - `WriteResponse` produces the buffers handed to `write(2)`: `snprintf` into a
    zeroed 32-byte buffer, written up to its NUL, then one buffer per link.
  - `Decode` is a length-prefixed decoder. It is proved to invert `Encode` in both
    directions, whatever bytes the streams hold.
- **Descriptors** (module `Streams`). A `Stream` class stands for one descriptor:
  - the bytes the peer will still send;
  - the bytes written so far;
  - a closed flag;
  - ghost logs of every `read` result and `write` call.

  `Read` returns any non-empty prefix that fits, which covers every chunking the
  kernel may choose. It returns 0 bytes only at end of stream.
- **The session** (module `Session`).
  - `ReceiveRequest` is the child branch of `main` up to the call of `create_child`.
  - `CreateChild` is `create_child`'s parent branch: feed standard input, close it,
    drain standard output and then standard error, reply, free both chains.

Both loops of `main` come in two variants:
- `AsWritten`, the code as it stands;
- `Corrected`, which fixes the two defects listed under Findings.

Every property not tied to those defects is proved for both.

The code, not the protocol description, is followed where the two disagree:
- Every header line of the reply ends in `\r\n`, not `\n`.
- The status is the raw `waitpid` status word, not a decoded exit code.
- A request that ends before any `\r\n`, or that fills the buffer without one, is
  still run: its command is whatever arrived. It is not discarded.

## Model

| member | source | states |
|---|---|---|
| Streams.Stream.Read | sockproc.c:66 | read(2): at most `space` bytes, 0 exactly at end of stream or for no space; the bytes are the next ones of the stream, land at `buf + off`, and the rest of `buf` is untouched; the read is logged |
| Streams.Stream.Write | sockproc.c:209 | write(2), complete: the bytes are appended to what the descriptor has written, and the call is logged |
| Streams.Stream.WriteAll | sockproc.c:226-244 | a sequence of complete writes appends the buffers' bytes in order and logs each buffer |
| Streams.Stream.Close | sockproc.c:213 | close(2) marks the descriptor closed |
| Streams.FlattenAppend | sockproc.c:231-244 | the bytes of two successive lists of buffers are the bytes of the first, then of the second |
| Bytes.CStrProps | sockproc.c:401 | what the string functions see of a buffer is a prefix with no NUL, followed by a NUL unless it fills the buffer |
| Bytes.CStrIsFirstNul | sockproc.c:401 | the C string of a buffer ends exactly at its first NUL |
| Bytes.CStrPadded | sockproc.c:394 | NUL padding after a text does not change the string it holds |
| Bytes.FindCrLf | sockproc.c:401 | strstr(t, "\r\n"): the index of the first delimiter of `t`, and none before it; None exactly when `t` holds no delimiter |
| Bytes.FoundWithin | sockproc.c:413 | strstr over the string in the first m bytes finds the string's first delimiter when it ends within m bytes, and nothing otherwise |
| Bytes.Dec | sockproc.c:229 | printf's "%zu" writes a canonical numeral (digits, no leading zero) with no CR and no NUL |
| Bytes.DecValue | sockproc.c:229 | the numeral printf writes denotes the value printed |
| Bytes.DecOfValue | sockproc.c:229 | every canonical numeral is the one printf writes for its value (with DecValue: a bijection) |
| Bytes.DecSizeLength | sockproc.c:229 | a size_t prints in at most 20 digits |
| Bytes.DecInt | sockproc.c:225 | "%d" writes a non-empty text with no CR and no NUL that opens with '-' exactly for a negative value |
| Bytes.DecIntLength | sockproc.c:225 | an int prints in at most 11 characters |
| Bytes.DigitRun | sockproc.c:424 | the run of digits at the front of a text: all digits, and the byte after it is not one |
| Bytes.ScanSize | sockproc.c:424 | sscanf "%zu" with data_len preset to 0 yields a size_t value |
| Bytes.ScanDec | sockproc.c:424 | a length written by printf and followed by a non-digit scans back to itself |
| Bytes.ScanPrefix | sockproc.c:424 | two texts that agree on the leading digits and stop there scan to the same value |
| Bytes.ScanCStr | sockproc.c:424 | sscanf reads the same from a buffer as from the C string in it |
| Bytes.ScanPadded | sockproc.c:424 | zeros after a text do not change what sscanf reads |
| BufferChain.Link.constructor | sockproc.c:56-61 | malloc and memset: a fresh link of 16384 bytes, empty and unlinked |
| BufferChain.ReadPipe | sockproc.c:48-86 | read_pipe on a stream: a well-formed chain of distinct links whose contents are exactly the stream's bytes, whose link lengths are ShapeOf(total), which drains the stream, and whose reads were the last ones logged, ending in a read of 0 bytes |
| BufferChain.FillChain | sockproc.c:62-83 | the loop reads the whole stream into full links followed by a partly filled current link, stopping at a read of 0 |
| BufferChain.Step | sockproc.c:66-82 | one turn of the loop keeps the loop state (contents so far equal the bytes read so far) and either reads more bytes or stops at end of stream |
| BufferChain.Fill | sockproc.c:66-67 | one read into the current link: the bytes read append to the chain's contents, and the read is logged |
| BufferChain.MakeRoom | sockproc.c:68-82 | when the current link is full, a fresh link is chained after it, so there is room again and the contents are unchanged |
| BufferChain.Grow | sockproc.c:70-81 | chaining a new link: the full link is closed with len 16384 and its bytes join the completed blocks |
| BufferChain.Close | sockproc.c:84 | `curr->len = count` completes a chain whose contents are the blocks and the current link's bytes, with the forced shape |
| BufferChain.FilledAll | sockproc.c:66-84 | once the loop has read the whole stream, the chain holds all of it and the stream is drained |
| BufferChain.ShapeIsForced | sockproc.c:63-84 | a chain whose links but the last are full and whose last is not full has the link lengths ShapeOf(total) |
| BufferChain.EmptyShape | sockproc.c:56-66 | an empty stream leaves one empty link |
| BufferChain.ExactMultipleShape | sockproc.c:66-84 | k·16384 bytes (k ≥ 1) leave k + 1 links, the last empty |
| BufferChain.ChainBytesLength | sockproc.c:89-101 | the chain holds as many bytes as the sum of its links' lengths |
| BufferChain.ChainOfBlocks | sockproc.c:76-84 | the contents of a chain with full leading links are those links' bytes followed by the last link's filled part |
| BufferChain.TotalBytes | sockproc.c:89-102 | total_bytes is the sum of the link lengths, which is the number of bytes the chain holds |
| BufferChain.FreeBufferChain | sockproc.c:105-116 | free_buffer_chain visits every link of the chain exactly once, in order |
| BufferChain.ChainBytesParts | sockproc.c:231-235 | the chain's contents are its links' filled parts, one after another |
| BufferChain.WriteChain | sockproc.c:231-235 | the loop that writes a chain hands write(2) each link's filled part, in chain order |
| RequestFraming.CommandEndOf | sockproc.c:395-408 | where the first loop stops: at a delimiter, at end of stream or with the budget spent, with the sizes each end implies |
| RequestFraming.CommandRead | sockproc.c:395-408 | the first loop takes at most the budget and at most what the client sent |
| RequestFraming.LengthRead | sockproc.c:410-423 | the second loop takes no more than the client sent, and every byte it writes lands inside buf |
| RequestFraming.Consumed | sockproc.c:394-423 | both loops together take no more than the client sent |
| RequestFraming.RequestOf | sockproc.c:424-431 | the request's payload length is a size_t |
| RequestFraming.CommandBufferShape | sockproc.c:394-408 | after the first loop buf is 2048 bytes long and still zero past the bytes read, so its last byte is NUL; when a delimiter was found it is zero from `bc` on |
| RequestFraming.CountCharges | sockproc.c:395-408 | `count` after the first loop is never negative; corrected it is the budget less every byte read, as written the "\n" of a delimiter is not charged |
| RequestFraming.BufferAtShape | sockproc.c:411-421 | after j bytes of the length line, buf holds the command part, those j bytes from `bc` on, and the rest of the command buffer |
| RequestFraming.DelimitedIff | sockproc.c:396-405 | the first loop stops at a delimiter at k exactly when the client's bytes hold "\r\n" at k with no NUL and no earlier "\r\n" before it, within the budget (both directions) |
| RequestFraming.FirstCrLfOfString | sockproc.c:401 | strstr over the buffer finds the first delimiter of the bytes when there is no NUL before it |
| RequestFraming.CommandBeforeDelimiter | sockproc.c:401-402 | the command is exactly the bytes before the first delimiter; the NUL written over its "\r" is never overwritten |
| RequestFraming.LengthLineStops | sockproc.c:412-423 | the second loop stops once "\r\n" is in the text at `bc`, at end of stream, or when the budget is spent, and at no earlier point |
| RequestFraming.LengthIsLeadingDigits | sockproc.c:410-424 | data_len is the value of the leading digits after the first delimiter, 0 when there is none, whenever the loop did not stop inside the digits |
| RequestFraming.LeadingDigitsKept | sockproc.c:424 | cutting a text after its leading digits leaves what sscanf reads unchanged |
| RequestFraming.LengthFromLineRead | sockproc.c:424 | data_len is what sscanf reads from the bytes the second loop read |
| RequestFraming.WellFormedRequest | sockproc.c:394-424 | a request as a client writes it (command without NUL or "\r\n", "\r\n", Dec(n), "\r\n", payload) yields that command and n, leaves exactly the payload unread, and keeps the string at `bc` terminated |
| RequestFraming.WellFormedEnds | sockproc.c:394-423 | on a well-formed request the first loop stops at the delimiter, and the second loop reads exactly the length line |
| RequestFraming.WellFormedTerminated | sockproc.c:410-424 | a length line that ends inside the budget leaves a NUL after the string at `bc` |
| RequestFraming.WellFormedCommand | sockproc.c:396-405 | a command without NUL or "\r\n", followed by "\r\n", ends the first loop at its delimiter |
| RequestFraming.WellFormedLength | sockproc.c:412-424 | a length line as a client writes it ends two bytes after its digits, which scan back to the length |
| RequestFraming.EndOfStreamStillRuns | sockproc.c:397-399 | with no delimiter before end of stream the request still runs: the command is the string that arrived, data_len is scanned from that same text, and every byte is consumed |
| RequestFraming.EndOfStreamText | sockproc.c:410-424 | at end of stream, both the command and the length text are what arrived |
| RequestFraming.EndOfStreamBuffer | sockproc.c:397-399 | at end of stream buf holds what arrived, then zeros |
| RequestFraming.PaddedText | sockproc.c:394 | zeros after a text change neither its C string nor what sscanf reads from it |
| RequestFraming.EndOfStreamExample | sockproc.c:397-424 | a client that sends "5" and closes runs the command "5" and is owed 5 bytes of payload |
| RequestFraming.AsWrittenOverrunsTerminator | sockproc.c:403-423 | as written, a 2045-byte command, its delimiter and one more byte overwrite buf[2047], so the string at `bc` has no terminator inside buf |
| RequestFraming.CorrectedKeepsTerminator | sockproc.c:403-423 | corrected, buf[2047] is never written and the string at `bc` always ends inside buf |
| RequestFraming.AsWrittenOverwritesCommand | sockproc.c:411-421 | as written, when the budget is spent without a delimiter, the length loop's one read overwrites buf[0], and 2048 bytes are consumed |
| RequestFraming.CorrectedKeepsCommand | sockproc.c:411-421 | corrected, a spent budget reads nothing more: the command is the string in the first 2047 bytes |
| RequestReader.ReadByte | sockproc.c:397 | read(cl, p, 1): 1 byte exactly when the connection has one, landing at buf[p] with the rest of buf untouched |
| RequestReader.ReadCommandByte | sockproc.c:397 | in the first loop, the next byte lands after those already read, in the zeroed part of buf |
| RequestReader.ReadIntoZeros | sockproc.c:397 | a byte read into the zeroed part of buf extends the prefix of bytes read |
| RequestReader.SearchRead | sockproc.c:401 | strstr over the zeroed buf sees the delimiter of the bytes read so far |
| RequestReader.FirstLoopFound | sockproc.c:401-404 | the first loop sees its first delimiter as soon as the "\n" is read, and leaves buf, `bc`, `count` and the connection as the specification says |
| RequestReader.FirstLoopEof | sockproc.c:397-399 | at end of stream before any delimiter, the first loop leaves the state the specification says |
| RequestReader.FirstLoopSpent | sockproc.c:396 | when the budget is spent before any delimiter, the first loop leaves the state the specification says |
| RequestReader.CommandStep | sockproc.c:396-407 | one pass of the first loop's body either ends the loop in the specified state, or reads one byte with no delimiter yet |
| RequestReader.ReadCommandLine | sockproc.c:394-408 | the first loop leaves buf, `bc`, `count` and the connection as CommandEndOf, CommandBuffer and CountAfterCommand specify |
| RequestReader.TopCheck | sockproc.c:413-416 | the strstr at the top of the second loop finds "\r\n" only once the loop has read all it will, and the byte about to be read fits buf |
| RequestReader.StopAtCount | sockproc.c:421-423 | the bottom test stops the second loop only once it has read all it will |
| RequestReader.SplicedStep | sockproc.c:416-420 | one more byte of the length line lands at `bc` + j |
| RequestReader.LineFactsHold | sockproc.c:412-423 | the second loop's decision after every byte agrees with LengthRead |
| RequestReader.LineRead | sockproc.c:416-421 | reading one more byte keeps the second loop's state |
| RequestReader.LengthStep | sockproc.c:412-423 | one pass of the second loop's body and bottom test keeps its state, and either reads one byte or stops |
| RequestReader.RunLengthLoop | sockproc.c:412-423 | the second loop writes exactly the n bytes it reads from `bc` on, and charges them to `count` |
| RequestReader.ReadLengthLine | sockproc.c:410-423 | the second loop leaves buf as RequestBuffer and the connection after Consumed bytes, with `count` charged for each byte |
| RequestReader.ReadRequest | sockproc.c:394-424 | both loops and sscanf yield RequestOf(input) and leave exactly the input after Consumed(input) unread |
| Response.Snprintf | sockproc.c:224-225 | the header buffer after memset and snprintf is 32 bytes |
| Response.HeaderIntact | sockproc.c:224-226 | write(fd, buf, strlen(buf)) sends the whole line when it is shorter than buf and holds no NUL |
| Response.StatusLineFits | sockproc.c:224-226 | the status line of any int is at most 20 bytes and is written untruncated |
| Response.LengthLineFits | sockproc.c:228-230 | the length line of any size_t is at most 22 bytes and is written untruncated |
| Response.StatusLineShape | sockproc.c:225 | "status:%d\r\n" opens with "status:" and a number, its only CR is the closing one, and it holds no NUL |
| Response.LengthLineShape | sockproc.c:229 | "%zu\r\n" is a number whose only CR is the closing one, with no NUL |
| Response.EncodeShape | sockproc.c:224-244 | a reply opens with its status line, whose CR is the first in the reply; it ends with the standard error bytes and nothing after them; its length is the three header lines plus both streams |
| Response.StatusHeader | sockproc.c:224-226 | what is written for the status is exactly "status:" ++ dec(status) ++ "\r\n" |
| Response.LengthHeader | sockproc.c:228-230 | what is written for a length is exactly dec(n) ++ "\r\n" |
| Response.SplitLine | sockproc.c:225 | a split line is the text, "\r\n", and the rest |
| Response.SplitLineOf | sockproc.c:225 | a line without CR followed by "\r\n" splits back into itself and the rest |
| Response.ParseDec | sockproc.c:229 | the decoder's numeral parser reads back what "%zu" writes |
| Response.ParseDecInt | sockproc.c:225 | the decoder's signed parser reads back what "%d" writes |
| Response.ParsedNat | sockproc.c:229 | the numeral parser accepts only what "%zu" writes |
| Response.ParsedInt | sockproc.c:225 | the signed parser accepts only what "%d" writes |
| Response.TakeBlockOf | sockproc.c:228-235 | a length line and its bytes are taken back exactly, whatever the bytes hold |
| Response.TakenBlock | sockproc.c:228-235 | a taken block is a length line and exactly that many bytes |
| Response.DecodeEncode | sockproc.c:224-244 | decoding a reply recovers the status and both streams exactly, even when they contain "\r\n" |
| Response.DecodeStreamsOf | sockproc.c:228-244 | the two stream blocks decode back to both streams |
| Response.EncodeDecode | sockproc.c:224-244 | the decoder accepts only replies the daemon writes: whatever decodes re-encodes to the same bytes |
| Response.DecodedStatus | sockproc.c:224-226 | a decoded status section is dec(status), "\r\n" and the two blocks |
| Response.DecodedStreams | sockproc.c:228-244 | decoded stream blocks are exactly the two blocks |
| Response.BlockCallsBytes | sockproc.c:228-235 | the buffers for one stream carry its length line and then its bytes |
| Response.ReplyCallsBytes | sockproc.c:224-244 | the buffers of a reply carry exactly Encode of the reply, however the streams are split into links |
| Response.WriteResponse | sockproc.c:224-244 | the reply's write(2) buffers: the status line, then for each chain its total_bytes line and its links' parts; together they are Encode(Reply(status, out, err)) |
| Response.WriteStreams | sockproc.c:228-244 | standard output's buffers, then standard error's |
| Response.WriteChunk | sockproc.c:228-235 | one stream's buffers: its length line, then its links in order |
| Session.ReadsOfPrefix | sockproc.c:205 | what successive reads return is the start of the input, in order |
| Session.TransferBound | sockproc.c:202-211 | nothing is forwarded for a count ≤ 0; otherwise at least min(count, available) bytes and fewer than count + 2048 |
| Session.OvershootExample | sockproc.c:204-211 | announcing 1 byte while sending 2048 forwards all 2048 to the child |
| Session.ToSsize | sockproc.c:203 | `ssize_t count = in_byte_count` on a 64-bit target: the ssize_t range, congruent to the size_t value modulo 2^64, negative exactly from 2^63 on |
| Session.HugeLengthSendsNothing | sockproc.c:203-204 | a length of 2^63 or more becomes negative as ssize_t, and nothing is forwarded |
| Session.RunningSnoc | sockproc.c:205-210 | a non-empty read while the count is not reached continues the loop, and its bytes append to what was forwarded |
| Session.StopAtEnd | sockproc.c:206-207 | a read of 0 ends the loop; the empty read is not forwarded |
| Session.StopAtLength | sockproc.c:204 | the loop ends once `count` bytes have gone through |
| Session.CopyStep | sockproc.c:205-210 | one pass reads up to 2048 bytes and either stops at end of stream or forwards exactly those bytes |
| Session.CopyInput | sockproc.c:203-211 | the transfer loop is one run allowed by Transferred; each write is the chunk just read; the child's stdin receives their bytes in order, and they are consumed from fd_in |
| Session.TransferInput | sockproc.c:201-213 | nothing is forwarded without fd_in; otherwise the loop's run; the write end is closed on both paths |
| Session.PayloadTransferred | sockproc.c:202-211 | for a length below 2^63, the child's stdin receives the start of the payload: all of it up to the length when it was sent, fewer than 2048 bytes beyond, and nothing for a length of 0 |
| Session.DrainPipe | sockproc.c:216 | read_pipe on one pipe: a chain whose links' filled parts flatten to the pipe's bytes, and the pipe is drained |
| Session.DrainPipes | sockproc.c:215-219 | standard output, then standard error, each drained into a chain that holds exactly that pipe's bytes |
| Session.ReplyBuffers | sockproc.c:224-248 | the buffers written for the status and the two chains are ReplyCalls of their parts and carry Encode(Reply(status, out, err)); free_buffer_chain visits every link of each chain, in order |
| Session.SendReply | sockproc.c:224-248 | the connection receives exactly Encode(Reply(status, out, err)), one write per buffer of ReplyCalls |
| Session.CollectAndReply | sockproc.c:215-252 | once stdin is closed: the connection receives exactly Encode(Reply(status, child's stdout, child's stderr)), one write per buffer of ReplyCalls of the chains' parts, which flatten to the two pipes' bytes; both read ends are drained and closed |
| Session.ClosePipes | sockproc.c:250-252 | both read ends are closed |
| Session.CreateChild | sockproc.c:192-253 | the parent branch: the child's stdin gets the transfer loop's run and is closed, and fd_in's read log gains exactly that run's chunks; the connection gets exactly the encoded reply, one write per buffer of ReplyCalls; the three parent-side pipe ends (stdin's write end, stdout's and stderr's read ends) are closed |
| Session.ReceiveRequest | sockproc.c:394-430 | the argument vector is "/bin/sh", "-c", the command of RequestOf(input); in_byte_count is its length; the payload is left unread on the connection |

## Left out

- Socket creation, binding, daemonising, the pid file and argument handling
  (sockproc.c:298-376): one-shot setup with file and socket side effects.
- Signal handlers and SIGCHLD settings: operating-system signal semantics.
- `fork`, `dup2`, `execve` and `waitpid`. The child is not run. What it prints is
  given in advance as the pending bytes of its stdout and stderr pipes. Those bytes
  do not depend on what it read from stdin. The status word `waitpid` stores is an
  input of `CreateChild`.
- The child branch of `create_child` and its fork-failure branch (sockproc.c:156-191,
  254-262), and the descriptor close bookkeeping on failed `pipe` calls
  (sockproc.c:135-152).
- The per-connection `fork` in the accept loop, and any interleaving of the two
  drains with the child: process concurrency and pipe-capacity deadlock cannot be
  stated sequentially.
- `malloc` failure and `exit(-1)`: allocation always succeeds.
- `read` and `write` returning -1, and partial writes: every write is complete and
  every read returns at least 0.
- `sscanf`'s leading whitespace and sign: `%zu` is modelled as the value of the
  leading decimal digits, saturating at SIZE_MAX for longer numerals.
- Reading past an unterminated `buf`. When the string at `bc` has no NUL inside the
  buffer (see Findings), C would read beyond it. The model reads only the 2048 bytes.
- BufferChain.FreeBufferChain: `free` is not modelled, since Dafny has no
  deallocation. The method returns the links it visits.
- Session.ReceiveRequest: it stops where `main` calls `create_child(cl, ..., cl,
  data_len)`. `CreateChild`, with the connection as both `fd` and `fd_in`, is the
  rest of that branch. The two contracts compose, since `ReceiveRequest` leaves the
  payload as the connection's pending bytes. No single method chains the two calls:
  the solver cannot check that composition within its resource limit.
- Session.CreateChild: requires both outputs to be shorter than 2^64 bytes, because
  `total_bytes` would wrap around in `size_t` beyond that. It models `fd_in != -1`
  as the flag `hasInput`. The child's pipe ends, which the parent closes at
  sockproc.c:197-199, are not modelled: end of stream on a pipe is given, as the end
  of its pending bytes, instead of following from those closes.
- Session.CollectAndReply: requires both outputs to be shorter than 2^64 bytes, as
  for CreateChild. It does not restate the read logs of the two pipes, and neither
  does CreateChild. ReadPipe proves what they hold: the pipe's bytes, ending in a
  read of 0 bytes. Carrying those logs through DrainPipes, beside both chains,
  costs the solver more than its resource limit allows.
- Session.DrainPipes: does not state that the two chains share no link. Each is
  freshly allocated, but carrying freshness through read_pipe's loop costs the
  solver more than its resource limit allows.
- Session.SendReply: requires both chains to hold fewer than 2^64 bytes, as for
  CreateChild.
- Session.ReplyBuffers: the reply is returned as the list of buffers handed to
  `write(2)`. They are written after both chains are freed, not before: the bytes are
  the same, only the order of free against write differs.
- Response.WriteResponse: requires both chains to hold fewer than 2^64 bytes, as
  for CreateChild.

## Findings

| source | as written | input that shows it | evidently intended | confidence | as-written member | corrected member |
|---|---|---|---|---|---|---|
| sockproc.c:403-423 | the "\n" that completes the first delimiter is not charged to `count`, so the second loop can write `buf[2047]`, the terminator the `memset` left; that read spends the budget, so no `strstr` sees it, but `sscanf` then reads the string at `bc` past the buffer | a 2045-byte command without NUL or CR, "\r\n", then any non-NUL byte | both loops stay within `buf[0..2046]` and the string at `bc` always ends inside `buf` | not executed | RequestFraming.AsWrittenOverrunsTerminator | RequestFraming.CorrectedKeepsTerminator |
| sockproc.c:411-421 | when the first loop spends its budget without a delimiter, `bc` and `p` are still `buf` and the second loop is a do-while, so its one read overwrites `buf[0]`, the command's first byte | 2048 or more bytes without "\r\n" | not to lose the command's first byte; the corrected member takes one minimal fix (with the budget spent nothing more is read, so the command is the first 2047 bytes), and rejecting such a request would fit the protocol as well | not executed | RequestFraming.AsWrittenOverwritesCommand | RequestFraming.CorrectedKeepsCommand |
