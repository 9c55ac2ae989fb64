# Branch server responder, modelled in Dafny

This project models the request-handling core of `branch-server.c`. That is the
branch side of the branch summary system. A collector connects, sends the request
line `REQUEST`, and expects one reply before the branch closes the connection.

The modelled routines are:

- `handle_client`: reads one request of at most 127 bytes into `req[128]`. It
  NUL-terminates the request and accepts it when `strstr` finds `REQUEST` in the
  C string. Then it either sends the fixed error reply or formats the four-line
  reply into `out[512]` and sends it. It returns 0 or -1.
- `compute_subtotal`: opens the CSV file and resets its two out-values. It skips
  the header with `fgets(line, 512, f)`. Every later chunk that `fgets` returns
  and that holds a comma counts as one record, and its amount is added.
- `robust_send`: the partial-send loop with cursor `sent`. It retries on EINTR
  and gives up with -1 on any other error.
- `robust_recv`: calls recv(2) until the answer is not an EINTR failure.

The socket is a value, `Net.Connection`, modelled as an oracle:

- It holds the scripts of answers that recv(2) and send(2) will give.
- It records every buffer handed to send(2) (`offered`) and the byte stream the
  kernel accepted (`delivered`).
- A send once the script is used up fails with EPIPE. A recv once the script is
  used up reports end of stream. An EPIPE answer is returned to robust_send like
  any other error; the SIGPIPE signal that comes with it on Linux is not
  modelled (see "Left out").
- Every loop therefore ends: each call consumes one answer.

Each routine that loops or writes into a buffer is a method proved against a
function that follows the same steps:

| Method | Function it is proved against |
|---|---|
| `RobustSend` | `SendFrom` |
| `RobustRecv` | `RecvFrom` |
| `ComputeSubtotal` | `Summarise` |
| `SumRecords` | `TallyText` |
| `HandleClient` | `ClientOutcome` |

The lemmas state what the routines promise in terms of those functions.

The file is its contents, or `None` when `fopen` fails. Two operations are
parameters of the model:

- `atof`: the amount a comma is followed by;
- `fmt`: the `%.2f` formatting of the subtotal.

Two points of the wire protocol, as the code implements them:

- **Request matching.** The collector sends the single line `REQUEST\n`. The
  code accepts any received buffer whose C string contains `REQUEST` anywhere,
  and the model does the same (`Responder.IsRequest`).
- **Reply length.** A reply is meant to end with an `END` line. The code cuts
  the formatted text to the 511 characters that fit `out`, and sends
  `strlen(out)` bytes; the model does the same (`Responder.ReplyWire`).
  `Responder.LongBranchIdCutsReply` shows a reply that loses its `END` line.

## Model

| member | source | states |
|---|---|---|
| Libc.CStr | branch-server.c:88-89 | the C string in a buffer is a prefix of it, has no NUL, and is followed by a NUL when shorter than the buffer |
| Libc.CStrUpToNul | branch-server.c:88 | writing a NUL after the received bytes makes the C string exactly those bytes, whatever the rest of `req` holds |
| Libc.StrStr | branch-server.c:89 | strstr returns the first index where REQUEST occurs, or none when it occurs nowhere |
| Libc.StrChr | branch-server.c:29-30 | strchr returns the first index of the comma, or none when the line has no comma |
| Libc.FormatInt | branch-server.c:103-104 | `%d` prints a non-empty, NUL-free string, with a minus sign exactly for negative counts and digits otherwise |
| Libc.FormatIntReadsBack | branch-server.c:103-104 | the printed record count reads back as the same number |
| Libc.Decimal | branch-server.c:103 | `%d` of a non-negative value: digits only, a leading zero exactly for 0, and 0 printed as the single digit `0` |
| Libc.DecimalRoundTrip | branch-server.c:103-104 | the digits of a non-negative count read back as that count |
| Net.Send | branch-server.c:74 | send(2) accepts a prefix of the buffer no longer than it, or fails and accepts nothing; the buffer is logged and the recv side is untouched |
| Net.Recv | branch-server.c:65 | recv(2) yields at most `count` bytes of the next answer, or fails with that answer's errno; the send side is untouched |
| RobustIo.SendFrom | branch-server.c:71-82 | the steps of the robust_send loop from cursor `sent` over the send script; the result is the whole length or -1, and the recv side is untouched |
| RobustIo.RobustSend | branch-server.c:71-82 | the loop returns and leaves what `SendFrom` computes for `buf[..count]` from cursor 0 |
| RobustIo.SendFromOutcome | branch-server.c:71-82 | robust_send returns `count` or -1; on success exactly the unsent bytes are delivered, on failure a proper prefix of them |
| RobustIo.SendFromFrame | branch-server.c:71-82 | robust_send leaves the recv side alone, consumes the send script from the front, and only appends to what was offered and delivered |
| RobustIo.RoomForAllSendsOnce | branch-server.c:73-81 | when send(2) has room for the whole buffer, one call delivers all of it and robust_send returns `count` |
| RobustIo.SendFromOffersTails | branch-server.c:73-74 | every buffer handed to send(2) is a non-empty tail of `buf[0..count)`; the first is the whole unsent part, and they never grow; nothing is offered once `sent == count` |
| RobustIo.InterruptRetriesSameSlice | branch-server.c:75-76 | after an EINTR the very same slice is offered again: the cursor does not move |
| RobustIo.ErrorStopsSend | branch-server.c:75-77 | an error other than EINTR returns -1 at once, consuming one answer and sending nothing more |
| RobustIo.OfferLogIrrelevant | branch-server.c:74 | the record of offered buffers does not influence the result or the delivered bytes |
| RobustIo.LeadingInterruptIsTransparent | branch-server.c:75-76 | an EINTR answer before the send script changes neither the result nor the delivered bytes |
| RobustIo.SendBeforeInterrupt | branch-server.c:74 | an EINTR answer queued behind the next one leaves that send(2) call unchanged |
| RobustIo.InterruptIsTransparent | branch-server.c:75-76 | inserting an EINTR answer anywhere in the send script changes neither the result nor the delivered bytes |
| RobustIo.LeadingInterrupts | branch-server.c:64-66 | counts the EINTR failures at the front of the recv script: all before it are EINTR, the next one is not |
| RobustIo.RecvFrom | branch-server.c:62-69 | recv(2) after the leading EINTR failures; the result is -1 with no bytes, or the count of the bytes read, at most `count` |
| RobustIo.RobustRecv | branch-server.c:62-69 | the loop returns what `RecvFrom` computes and stores the bytes read at the front of `buf`, leaving the rest of `buf` unchanged |
| RobustIo.RecvFromIsFirstResult | branch-server.c:62-69 | robust_recv returns the first answer that is not an EINTR failure, unchanged: -1 for an error (never EINTR), else the byte count; end of stream gives 0; the send side is untouched |
| CsvSummary.ChunkLen | branch-server.c:27-28 | fgets with a 512-byte buffer reads 1 to 511 characters and stops after the first newline |
| CsvSummary.Chunks | branch-server.c:27-28 | the file splits into fgets chunks, each of 1 to 511 characters |
| CsvSummary.ChunksCoverFile | branch-server.c:27-28 | the chunks concatenate back to the whole file |
| CsvSummary.LongLineIsSplit | branch-server.c:23-28 | text with no newline in its first 510 characters that goes on past 511 characters (such as a line longer than 511 characters) reaches the loop as a 511-character chunk followed by further chunks |
| CsvSummary.ChunkTotals | branch-server.c:29-33 | a chunk adds one record exactly when it has a comma before its first NUL, and nothing otherwise |
| CsvSummary.Summarise | branch-server.c:20-37 | the outcome compute_subtotal reports: a result exactly when the file opens and has a header chunk; the totals of the chunks after it |
| CsvSummary.ComputeSubtotal | branch-server.c:20-37 | returns 0 or -1: -1 exactly when the file cannot be opened or has no header chunk; on success the outputs are the totals of the chunks after the header; outputs are untouched when fopen fails and zero when the header is missing |
| CsvSummary.SumRecords | branch-server.c:27-33 | starting from zero, the record loop leaves a non-negative count and totals equal to those of every chunk fgets returns from the rest of the stream |
| CsvSummary.SummaryOfOpenFile | branch-server.c:20-37 | for a file that opens and is not empty, the reported totals are those of the stream after the header chunk |
| CsvSummary.Tally | branch-server.c:29-33 | the totals of a list of data chunks, summed in file order; the count is between 0 and the number of chunks |
| CsvSummary.TallyText | branch-server.c:28-34 | the totals the `while (fgets…)` loop adds up over the unread stream, one chunk per step; the count is between 0 and the stream's length |
| CsvSummary.TallyTextIsTally | branch-server.c:28-34 | the loop's running totals over the unread text agree with the totals over the chunk list |
| CsvSummary.HeaderOnlyFile | branch-server.c:21-27 | a file holding only a header line of at most 511 characters (read by fgets in one chunk) yields success with count 0 and subtotal 0 |
| CsvSummary.LongHeaderSpillsIntoRecords | branch-server.c:23-28 | when the first chunk fgets returns has 511 characters (as for a header line longer than that), everything after it is tallied as data; a comma there counts as a record |
| CsvSummary.TallyAppend | branch-server.c:28-34 | totals of consecutive runs of chunks add up |
| CsvSummary.CommaFreeChunkIgnored | branch-server.c:29-30 | a chunk without a comma leaves both the count and the subtotal unchanged, wherever it appears |
| CsvSummary.CommaChunksSnoc | branch-server.c:29-30 | a chunk read after the others adds its position to the set of comma chunks exactly when it has a comma |
| CsvSummary.TallyCountsCommaChunks | branch-server.c:28-34 | the count is the number of chunks that contain a comma |
| CsvSummary.SummaryCountsRecords | branch-server.c:27-34 | a non-empty file is summarised successfully, with count equal to the number of comma chunks after the header |
| Responder.ReplyText | branch-server.c:102-104 | the snprintf format: starts with `BRANCH_ID: `, ends with the END line, its length is the fixed framing plus the three fields, and it has no NUL when the formatted subtotal has none |
| Responder.ReplyWire | branch-server.c:101-105 | the bytes sent are a NUL-free prefix of the formatted text of at most 511 characters; for a NUL-free text they are exactly its first min(length, 511) characters |
| Responder.FittingReplyIsWhole | branch-server.c:101-105 | a NUL-free text that fits `out` with its NUL is sent whole |
| Responder.ShortReplyIsWhole | branch-server.c:101-105 | when the formatted reply fits `out`, it is sent whole and ends with the END line |
| Responder.LongBranchIdCutsReply | branch-server.c:101-104 | with a branch identifier of 512 characters or more, only the first 511 characters of the BRANCH_ID line are sent |
| Responder.RequestLineRead | branch-server.c:86 | `REQUEST\n` arriving in one piece is read whole: robust_recv returns 8 and nothing is left queued |
| Responder.RequestLineAccepted | branch-server.c:89 | the request line `REQUEST\n` is accepted |
| Responder.IsRequest | branch-server.c:88-89 | a received buffer is accepted exactly when REQUEST occurs in its C string |
| Responder.RequestEndsAtNul | branch-server.c:88-89 | a buffer with a NUL is accepted exactly when the part before the NUL is: REQUEST after a NUL is not seen |
| Responder.ReadRequest | branch-server.c:85-92 | the request is accepted exactly when robust_recv returned a positive count and the received C string contains REQUEST |
| Responder.SendReply | branch-server.c:101-105 | robust_send is given exactly the formatted reply cut to `out` |
| Responder.ClientOutcome | branch-server.c:84-107 | the steps of handle_client over the connection; the return code is 0 or -1, and only one request is read from the recv side |
| Responder.HandleClient | branch-server.c:84-107 | handle_client returns and leaves on the connection what `ClientOutcome` computes |
| Responder.SendFromSendsOnce | branch-server.c:98 | sending a message offers only tails of it and delivers a prefix of it, all of it exactly when robust_send reports the full count |
| Responder.IgnoredRequestSendsNothing | branch-server.c:86-92 | after a failed read, an end of stream or a buffer without REQUEST: returns -1 and hands nothing to send(2) |
| Responder.UnreadableCsvGetsErrorReply | branch-server.c:95-99 | a valid request with an unreadable CSV: returns -1 and sends only `ERROR: cannot read CSV\nEND\n` |
| Responder.ValidRequestGetsReply | branch-server.c:101-106 | a valid request with a readable CSV: returns 0 whatever the send result, and sends only the formatted reply cut to 511 characters |
| Responder.ReturnCodeIgnoresSend | branch-server.c:84-107 | the return code is 0 exactly for an accepted request with a readable CSV, else -1, and is the same whatever send(2) answers |
| Responder.CollectorExchange | branch-server.c:84-107 | `REQUEST\n` received in one piece, with room for the reply: returns 0 and the peer receives the whole reply |

## Left out

- `start_server` and `main` are not modelled (branch-server.c:39-60, 109-142). They are address lookup, socket setup and the accept/close loop, with no logic beyond "one request per connection".
- Real file I/O (`fopen`, `fgets`, `fclose`) is replaced by the file's contents, or `None` when it cannot be opened. A read error in the middle of the file is indistinguishable from end of file in the C loop, so it is not modelled separately.
- `atof`, `double` accumulation and `%.2f` are parameters (`atof`, `fmt`). The subtotal is the exact real sum, so floating-point rounding is not modelled.
- `errno` as global state is folded into each oracle answer. The EINTR and EPIPE values are the Linux ones.
- A C `char` is modelled as a Dafny `char`. Bytes are not distinguished from characters.
- CsvSummary.ComputeSubtotal: `count` is an unbounded integer, so the C `int` overflow after 2^31-1 records is not modelled.
- RobustIo.RobustSend: a kernel that answers 0 bytes forever (on which the C loop never ends) cannot be expressed. The send script is finite, and once it is used up send(2) fails with EPIPE.
- Net.Send: SIGPIPE's default action is not modelled. The code sends without `MSG_NOSIGNAL` (branch-server.c:74) and never ignores SIGPIPE, so on Linux a send to a peer that has closed its end kills the server instead of returning EPIPE. An EPIPE answer in the model, including the one given once the send script is used up, stands for a run that the kernel would have ended there.
- Responder.ValidRequestGetsReply: "returns 0 whatever the send result" holds only for runs without SIGPIPE; a send that raises it ends the process before handle_client returns.
- Responder.ReturnCodeIgnoresSend: the return code is independent of the send answers only for runs without SIGPIPE, for the same reason.
- RobustIo.RobustRecv: recv(2) answers are bounded by a finite script. An exhausted script means the peer has closed.
- The collector, reply decoder, multiplexed timeout loop and atomic ledger writer are not part of this model.
