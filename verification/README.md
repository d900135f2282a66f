# PDAP serial SWD driver — a Dafny model

This project models the OpenOCD driver for the PDAP probe in
`src/jtag/drivers/pdap.c`. The driver talks to the probe firmware over a
serial device in lines of text. Register reads and writes are sent at once.
Each read that reports its value is put in a queue together with its
destination. `pdap_swd_run_queue` flushes the queue: it sends a sync command,
reads one answer line per queued read, stores each value at its destination,
and then expects the firmware's sync echo.

The model has five modules:

- `Hex` covers `%x` printing and the `strtol(s, NULL, 16)` conversion to
  `uint32_t`. This includes white space, sign, the `0x` prefix, saturation
  to a 64-bit `long` and reduction modulo 2^32.
- `Wire` defines the commands the driver prints and their text. A decoder
  written from the line format is an independent inverse of rendering; the
  firmware's own parser is not part of this model.
- `LineReader` models `pdap_resp` as a function of the bytes the device
  still holds.
- `Protocol` holds the reading side of a flush and of the start-up sync loop
  as functions, with lemmas about the firmware replies.
- `Driver` holds the class `Pdap`, with the driver's static state and one
  method per C function.

The serial device is a channel with two fields:

- `pending` holds the bytes the firmware will still send. It is fixed in
  advance.
- `output` is the log of commands written, in order. The text the device
  receives is `Wire.Transcript(output)`, one line per command, and each line
  decodes back to its command.

A read destination (`uint32_t *value`) is an index into a caller-owned
`array<Word>`.

Where the driver's behaviour differs from what a reader of the protocol might
expect, the model follows the code:

- A write is printed as `<value> <cmd> wr`, with the value first (line 203).
- The delay after an access is `<n> ap_delay_clk`; there is no `idle`
  command (lines 196-198, 204-206).
- The sync token in the firmware's echo is never compared with the counter.
  Any line that starts with `sync ` is accepted (lines 143 and 236).
- There is no error latch. A read that fails or an `error ack ` line ends the
  flush at once with `ERROR_FAIL` (lines 219-227). The rest of the batch and
  the sync echo stay unread on the channel.
- With a debug log open, the first sync of `pdap_init` skips a token (see
  "## Findings"). `Init` follows the code here.
- A reset sends only `<srst> srst`. `trst` is ignored, and a negative `int`
  is printed as its 32-bit two's complement (line 159).
- `pdap_init` allocates the queue before it opens the device (lines
  102-104). If the device opens but cannot be configured, `dev` stays set,
  so a later call returns `ERROR_OK` at once (lines 101, 115-134).

## Model

| member | source | states |
|---|---|---|
| LineReader.ReadLine | src/jtag/drivers/pdap.c:53-79 | one call consumes at least the line feed of the line it returns; what it leaves is never longer than its input |
| LineReader.Scan | src/jtag/drivers/pdap.c:57-78 | a round of the `for(;;)` loop with the bytes kept so far: the input only shrinks, and a returned line has consumed at least its line feed |
| LineReader.ReadLineSuffix | src/jtag/drivers/pdap.c:53-79 | a call only consumes bytes: what is left is a suffix of the input |
| LineReader.ReadLineShape | src/jtag/drivers/pdap.c:58-75 | a returned line fits the buffer with its NUL (at most len-2 bytes), holds no CR or LF, and does not start with '#' |
| LineReader.ReadLineAtEof | src/jtag/drivers/pdap.c:59-60 | end of stream before a line feed is a failure |
| LineReader.ReadLineFirstLine | src/jtag/drivers/pdap.c:58-77 | the first line decides the call: too long fails before its LF; a '#' line is skipped and reading restarts after it; any other line is returned without its CRs |
| LineReader.ReadLinePlain | src/jtag/drivers/pdap.c:62-75 | a short line that is not a diagnostic is returned unchanged, and the stream continues after its LF |
| LineReader.ReadLineSkipsDiagnostic | src/jtag/drivers/pdap.c:64-70 | a firmware diagnostic line is invisible to the caller |
| LineReader.ReadLineOverflow | src/jtag/drivers/pdap.c:58 | a line of len-1 bytes fails rather than being cut short, and nothing after those bytes is consumed |
| LineReader.DropCR | src/jtag/drivers/pdap.c:61 | what remains after dropping carriage returns holds none and is no longer than the input |
| Driver.Pdap.Resp | src/jtag/drivers/pdap.c:53-79 | the imperative reader returns the line's length with the line and a NUL in the buffer, or ERROR_FAIL, exactly as ReadLine says, and consumes exactly the bytes ReadLine consumes |
| Hex.Format | src/jtag/drivers/pdap.c:139 | `%x` prints lower-case hex digits with no leading zero, and prints a leading 0 only for zero |
| Hex.ValueOfFormat | src/jtag/drivers/pdap.c:139 | the digits `%x` prints denote the number printed |
| Hex.FormatWordLength | src/jtag/drivers/pdap.c:217 | a `uint32_t` prints in at most 8 digits, so a firmware answer fits the 100-byte buffer |
| Hex.SkipSpaceShape | src/jtag/drivers/pdap.c:228 | strtol's leading white-space skip drops only white space and stops at a non-space character |
| Hex.DigitRunLongest | src/jtag/drivers/pdap.c:228 | the digits strtol reads are the longest run of hex digits at that point |
| Hex.Saturate | src/jtag/drivers/pdap.c:228 | the result is in the range of `long`; an in-range magnitude gives itself or its negation by the sign; a positive overflow gives exactly LONG_MAX and a negative one exactly LONG_MIN |
| Hex.Strtol16 | src/jtag/drivers/pdap.c:228 | `strtol(buf, NULL, 16)` always yields a value in the range of `long` |
| Hex.ToWord | src/jtag/drivers/pdap.c:228 | converting a C integer to `uint32_t` by adding or removing 2^32 gives its reduction modulo 2^32 |
| Hex.ParseWord | src/jtag/drivers/pdap.c:228 | `uint32_t val = strtol(buf, NULL, 16)` is strtol's result modulo 2^32 |
| Hex.ScanOfDigits | src/jtag/drivers/pdap.c:228 | on a non-empty run of hex digits strtol skips no white space, sign or `0x` prefix, and its digit run is the whole string |
| Hex.ParseDigitsWide | src/jtag/drivers/pdap.c:228 | an answer of hex digits stores its value modulo 2^32 when the value fits a `long`, and 0xffffffff (LONG_MAX truncated) when it does not |
| Hex.ParseDigits | src/jtag/drivers/pdap.c:228 | strtol on a run of hex digits whose value fits a `uint32_t` reads that value |
| Hex.ParseFormat | src/jtag/drivers/pdap.c:228 | a value the firmware prints with `%x` is read back unchanged |
| Hex.FormatDigits | src/jtag/drivers/pdap.c:228 | an answer printed with `%x` is a non-empty run of hex digits |
| Hex.Strtol16Ilp32 | src/jtag/drivers/pdap.c:228 | where `long` has 32 bits, strtol's result lies between -2^31 and 2^31-1 |
| Hex.ParseWordIlp32 | src/jtag/drivers/pdap.c:228 | where `long` has 32 bits, the stored value is that narrower strtol result modulo 2^32 |
| Hex.ParseIlp32Clamps | src/jtag/drivers/pdap.c:228 | where `long` has 32 bits, every answer from 0x80000000 up is stored as 0x7fffffff, although the LP64 reading gives it back unchanged |
| Hex.ParseUnsignedFormat | src/jtag/drivers/pdap.c:228 | with `strtoul` every `%x` answer reads back unchanged on a 32-bit target, the same value the LP64 reading gives |
| Hex.Inc | src/jtag/drivers/pdap.c:242 | `nb_transactions++` (here and at line 139) gives the successor modulo 2^32, which always differs from the old value |
| Hex.Unsigned | src/jtag/drivers/pdap.c:159 | `%x` of an `int` prints its value modulo 2^32, so a non-negative value prints as itself |
| Hex.UnsignedInjective | src/jtag/drivers/pdap.c:159 | distinct `int` values print differently under `%x` |
| Wire.SplitJoin | src/jtag/drivers/pdap.c:44-49 | splitting a printed line at single spaces gives back its words, and the line has no line break |
| Wire.FormatIsNumber | src/jtag/drivers/pdap.c:44-49 | a printed number is a number word that decodes to itself |
| Wire.WordsPlain | src/jtag/drivers/pdap.c:136-139 | every word of every command is made of printable characters |
| Wire.DecodeWordsOf | src/jtag/drivers/pdap.c:136-139 | the words of every command decode to that command |
| Wire.Render | src/jtag/drivers/pdap.c:44-49 | every line `PDAP` prints decodes to the command it was printed for and holds no line break |
| Wire.RenderFixedText | src/jtag/drivers/pdap.c:136-138 | the commands without numbers print as " ", "0 echo", "hex", "line_reset", "jtag_to_swd" and "swd_to_jtag" |
| Wire.RenderCountText | src/jtag/drivers/pdap.c:197 | the single-number commands print as "%x ap_delay_clk", and likewise "%x sync" (lines 139, 215) and "%x srst" (line 159) |
| Wire.RenderReadText | src/jtag/drivers/pdap.c:187-195 | register reads print as "%x rd p" with a destination and "%x rd drop" without |
| Wire.RenderWriteText | src/jtag/drivers/pdap.c:203 | a register write prints as "%x %x wr", the value before the register |
| Wire.Transcript | src/jtag/drivers/pdap.c:44-49 | the device receives one line per command, each decoding to its command and holding no line break |
| Driver.Pdap.Send | src/jtag/drivers/pdap.c:44-49 | one command is appended to the device output |
| Driver.Pdap.constructor | src/jtag/drivers/pdap.c:81-84 | the driver starts with no device, an empty queue and the transaction counter at 0 |
| Driver.Pdap.QueueWrite | src/jtag/drivers/pdap.c:86-95 | the destination is appended and earlier ones keep their order; the capacity doubles when the queue is full. The queue array is the old one, or a fresh one after a doubling, so calls can follow one another |
| Driver.Pdap.Queued | src/jtag/drivers/pdap.c:81-83 | the queued destinations are the first queue_next entries |
| Driver.DelayLines | src/jtag/drivers/pdap.c:196-198 | exactly one `ap_delay_clk` command carrying the delay follows an access when the delay is not zero, and none otherwise |
| Driver.Pdap.ReadReg | src/jtag/drivers/pdap.c:187-199 | a reported read ("p") is sent and its destination joins the end of the queue; without a destination it is dropped ("drop") and nothing is queued; then the optional delay command. The queue array is the old one or a fresh one |
| Driver.Pdap.WriteReg | src/jtag/drivers/pdap.c:201-207 | the write command is sent with the value first, then the optional delay; nothing is queued |
| Driver.Pdap.SwitchSeq | src/jtag/drivers/pdap.c:163-181 | the three supported sequences send their command and return ERROR_OK; any other sequence sends nothing and fails |
| Driver.Pdap.Reset | src/jtag/drivers/pdap.c:156-161 | only the srst level is sent, as its 32-bit two's complement; the result is always ERROR_OK |
| Driver.SyncStepAdvances | src/jtag/drivers/pdap.c:211-245 | a flush sends the current counter as its sync token and leaves the successor modulo 2^32, a different token, for the next one |
| Driver.StartupSyncSkipsToken | src/jtag/drivers/pdap.c:139 | as the `PDAP` macro of lines 44-49 is written: without a debug log the first sync of `pdap_init` is the same step; with one the device gets the counter plus one and the counter advances by two (from 0: "1 sync", then 2) |
| Driver.Pdap.SendStartup | src/jtag/drivers/pdap.c:136-139 | " ", "0 echo", "hex" and the first sync are sent in that order, with the token and counter step of StartupSync |
| Driver.Pdap.Init | src/jtag/drivers/pdap.c:97-148 | a second call is a no-op returning ERROR_OK. Otherwise a fresh queue of 16384 is allocated. Open or configure failure returns ERROR_FAIL with nothing sent. Else the start-up commands are sent with the token and counter step of StartupSync (which depend on the debug log), and the result and bytes consumed are those of AwaitSync |
| Driver.Pdap.AwaitSyncEcho | src/jtag/drivers/pdap.c:140-144 | lines are read until one starts with "sync "; a failed read fails; the outcome and the bytes consumed are AwaitSync's |
| Protocol.AwaitSync | src/jtag/drivers/pdap.c:141-144 | the start-up loop never leaves more bytes than it was given, and a success leaves strictly fewer |
| Protocol.AwaitSyncOkOnlyIf | src/jtag/drivers/pdap.c:140-144 | a success means the channel delivered lines up to and including the first one starting with "sync ", and what is left follows that line |
| Protocol.AwaitSyncSkipsBanner | src/jtag/drivers/pdap.c:140-144 | boot banners, stale lines and diagnostics before the first sync echo are consumed, and the loop stops right after the echo |
| Protocol.AwaitSyncAtEof | src/jtag/drivers/pdap.c:142 | with no complete line left the start-up loop fails |
| Protocol.StartsWithBytes | src/jtag/drivers/pdap.c:143 | the prefix test (here and at lines 223, 236) is strncmp's: the first bytes agree one by one with the prefix, a shorter line never matches, and what follows the prefix does not matter |
| Protocol.Drain | src/jtag/drivers/pdap.c:218-231 | the read loop yields at most one answer per queued read, and exactly one each when it completes |
| Protocol.Flush | src/jtag/drivers/pdap.c:211-245 | a flush yields at most one answer per queued read, and exactly one each when it succeeds |
| Protocol.DrainComplete | src/jtag/drivers/pdap.c:218-231 | no kept answer is an "error ack " line, and when every read was answered the channel delivered those answers in order ahead of the bytes left |
| Protocol.FlushOkOnlyIf | src/jtag/drivers/pdap.c:211-245 | no answer is an "error ack " line, and a success means the channel delivered the answers, then a line starting with "sync ", and what is left follows that line |
| Protocol.ParseAll | src/jtag/drivers/pdap.c:228 | one value per answer line |
| Protocol.HexLines | src/jtag/drivers/pdap.c:228 | one printed line per value |
| Protocol.LinesReadAs | src/jtag/drivers/pdap.c:53-79 | short non-diagnostic lines reach successive `pdap_resp` calls one by one, as sent |
| Protocol.DrainAfterLines | src/jtag/drivers/pdap.c:218-231 | answers to the first reads of a batch are consumed one by one, then the rest of the batch is drained from what follows |
| Protocol.FormatAnswer | src/jtag/drivers/pdap.c:219-228 | a `%x` answer fits the buffer, is neither a diagnostic nor an "error ack ", and reads back as the value printed |
| Protocol.HexLinesReadBack | src/jtag/drivers/pdap.c:219-228 | the same for every answer of a batch: parsing the printed answers gives back the values |
| Protocol.DrainAfterReplies | src/jtag/drivers/pdap.c:218-231 | `%x` replies to the first reads of a batch are consumed one by one |
| Protocol.FlushAnswered | src/jtag/drivers/pdap.c:211-245 | a batch whose every read is answered, followed by the sync echo, succeeds, stores the answered values in queue order, and leaves the bytes after the echo |
| Protocol.FlushAckAborts | src/jtag/drivers/pdap.c:223-227 | an "error ack " answer fails the flush; only the values before it are stored, and the line after it stays unread |
| Protocol.FlushReadFails | src/jtag/drivers/pdap.c:219-222 | end of stream or an over-long line where an answer is due fails the flush; only earlier values are stored |
| Protocol.FlushIgnoresDiagnostic | src/jtag/drivers/pdap.c:64-70 | a diagnostic line among the answers or before the sync echo changes nothing about a flush |
| Protocol.DrainedSoFarStart | src/jtag/drivers/pdap.c:218 | before the loop nothing has been read |
| Protocol.DrainedSoFarStep | src/jtag/drivers/pdap.c:219-231 | an answer that is not "error ack " advances the loop by one read |
| Protocol.DrainedSoFarStop | src/jtag/drivers/pdap.c:219-227 | a failed read or "error ack " ends the flush with failure, keeping earlier answers |
| Protocol.DrainedSoFarDone | src/jtag/drivers/pdap.c:232-240 | once every read is answered, the next line decides the flush by its "sync " prefix |
| Protocol.Stored | src/jtag/drivers/pdap.c:230 | sequential stores leave the memory size unchanged |
| Protocol.StoredStep | src/jtag/drivers/pdap.c:230 | one more value is stored at the next destination |
| Protocol.StoredAnswer | src/jtag/drivers/pdap.c:228-230 | storing one more answer stores its parsed value at the next destination |
| Protocol.StoredAt | src/jtag/drivers/pdap.c:230 | a word no answered read points at keeps its value; a destination that no later read repeats holds its read's value (the last write wins) |
| Driver.Pdap.StoreNext | src/jtag/drivers/pdap.c:219-230 | one answer line is read; unless the read failed or the line starts with "error ack ", its parsed value is stored at the destination and nothing else changes |
| Driver.Pdap.StoreAnswers | src/jtag/drivers/pdap.c:218-231 | the loop stores exactly the parsed answers of Drain at the queued destinations in order; on failure the flush has failed with those answers |
| Driver.Pdap.ReadSyncEcho | src/jtag/drivers/pdap.c:232-239 | one line is read and accepted exactly when it starts with "sync " |
| Driver.Pdap.Collect | src/jtag/drivers/pdap.c:218-240 | success, the bytes consumed and the memory written are exactly those Flush describes |
| Driver.Pdap.RunQueue | src/jtag/drivers/pdap.c:211-245 | sends "<counter> sync" (SyncStep). The result is ERROR_OK exactly when Flush succeeds, the channel advances as Flush says, and the answered values land at the queued destinations in queue order. Either way the counter advances modulo 2^32 and the queue is emptied |

## Left out

- Opening and configuring the device is not modelled: `getenv`, `fopen` and the
  `termios2` ioctl calls (lines 106-134). `Init` takes three booleans saying
  whether a debug log file is open, whether the device opens, and whether it
  can be configured.
- What is written to the debug log and through `LOG_*` is left out. This
  includes the ack code that line 224 parses only to log it. The one effect the
  log has on the device is modelled: the double evaluation of the `PDAP`
  arguments at line 139 (StartupSync). Every other `PDAP` call has arguments
  without side effects.
- `malloc` or `realloc` failure and `exit(1)` (lines 92, 104) are not modelled;
  allocation always succeeds.
- Driver.Pdap.QueueWrite: does not model the `int32_t` overflow of `queue_size`
  and `nb_bytes` once the queue grows past 2^27 entries, because the doubling
  is modelled on unbounded integers.
- The firmware's bytes are a stream fixed in advance. A read that would block
  forever on a live device is modelled as end of stream.
- LineReader.Scan, LineReader.ReadLine, Protocol.AwaitSync and
  Driver.Pdap.AwaitSyncEcho end because the stream is finite, not because the
  code bounds them. The loops of `pdap_resp` (lines 57-78) and of the start-up
  sync (lines 141-144) have no bound of their own. A device that keeps sending
  carriage returns or `#` lines that fit the buffer holds `pdap_resp` forever.
  One that keeps sending lines that do not start with "sync " holds
  `pdap_init` forever. The model does not capture these non-terminating runs.
- Read destinations are indices into one caller array, not raw pointers into
  arbitrary memory.
- Driver.Pdap.ReadReg, Driver.Pdap.WriteReg, Driver.Pdap.Reset and
  Driver.Pdap.RunQueue require an open device, as does Driver.Pdap.SwitchSeq
  for the three sequences it sends. On a NULL `dev` the C code would call
  `fprintf`, which is undefined behaviour. SwitchSeq's unsupported-sequence
  branch never touches `dev`, so it is modelled with the device closed too.
- Driver.Pdap.QueueWrite requires an open device. Only `pdap_init` gives the
  queue a capacity; before that `queue_size` is 0, doubling keeps it 0, and the
  store at line 94 is out of bounds. An open device also keeps the model's
  invariant that a closed driver has an empty queue.
- `pdap_quit`, the command and transport registration tables and the
  `adapter_driver` structure are left out; they have no logic.
- `src/jtag/drivers/zwizwa.c` is not part of this model.
- Hex.Strtol16: models `long` as 64 bits (LP64, as on 64-bit Linux). Where
  `long` has 32 bits, strtol saturates at 0x7fffffff; Hex.Strtol16Ilp32 and
  the Findings row for line 228 cover that target, and the rest of the model
  uses the LP64 reading, which equals the intended `strtoul` one on every
  `%x` answer.

## Findings

| source | as written | input that shows it | evidently intended | confidence | as-written member | corrected member |
|---|---|---|---|---|---|---|
| src/jtag/drivers/pdap.c:139 | `PDAP` (lines 44-49) repeats its arguments in `DBG` and in the `fprintf` to the device, so `PDAP("%x sync", nb_transactions++)` increments the counter twice when a debug log is open | `PDAP_LOGFILE` set, counter 0: the device receives "1 sync" and the counter leaves `pdap_init` at 2 | the device receives the current counter and the counter advances by one, with or without a log, as `pdap_swd_run_queue` does at lines 215 and 242 | high (not executed) | Driver.StartupSyncSkipsToken | Driver.SyncStepAdvances |
| src/jtag/drivers/pdap.c:228 | `uint32_t val = strtol(buf, NULL, 16)` converts through a signed `long` | a 32-bit target (`long` of 32 bits) and the answer "deadbeef": strtol saturates to 0x7fffffff, which is stored | `strtoul`, which reads every `%x` answer back unchanged | medium (not executed; the as-written result depends on the width of `long`) | Hex.ParseIlp32Clamps | Hex.ParseUnsignedFormat |
