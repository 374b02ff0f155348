# Parker 6K motor controller driver — a Dafny model

The Parker 6K driver is an EPICS asyn motor driver. It talks to a Parker
Compumotor 6K controller over a text link. Each command is written as an
ASCII string such as `3TAS` or `2D1000`. The controller answers with a frame:
`*<payload>\r\r\n` for a normal reply, or `...*<text>?` for an error. This
project models the logic at the core of the driver:

- **Reply classification** (`Protocol`). `errorResponse` looks for an error
  frame. `trimResponse` cuts a normal frame at its trailer and takes the
  payload after the `*`. `lowLevelWriteRead` runs the two in that order and
  returns their verdict. The transport status only sets the comms flag.
- **Transactions** (`Protocol`). The transport is replaced by a reply
  oracle. A `Channel` holds a link (is there a port user, and the comms
  flag), the replies the controller will give, and the log of commands
  written. The k-th command actually written is answered by the k-th reply.
  Each reply carries its classification, and `WellFormed` ties that
  classification to `Classify` of the raw bytes.
- **Axis operations** (`Axis`):
  - `move`: the MA, V, A/AA/AD/ADA, D and GO commands. Velocity and
    acceleration are scaled by ERES or DRES. The move is staged instead of
    sent while moves are deferred.
  - `setPosition`: stop, PSET and PESET, short-circuited, then a status
    refresh.
  - `stop` and `setClosedLoop`.
  - The status refresh of `getAxisStatus`: TPC, TPE and TAS. The axis
    keeps the TAS word it read, with the deferral state at that moment;
    the motor flags are decoded from it.
  - The axis `poll`.
- **Status strings** (`Status`). The TAS and TSS words are read at fixed
  character offsets. A read past the end sees the zeroed buffer.
- **Error-print throttle** (`ErrorThrottle`). At most one error report per
  second, unless the previous poll forces the next report.
- **Controller** (`Controller`):
  - `getAxis` bounds;
  - the TSS poll;
  - the deferred-move coordinator `setDeferredMoves`. Arm; stage one `D`
    per axis; fire one `GO` whose eight digits mark the staged axes 1 to 8.
- **C library pieces the above rely on**:
  - `Strings`: `strstr`, also with the one-character needles `"?"` and
    `"*"`, and NUL-terminated buffers;
  - `Decimal`: `%d`, `%.*f`, the unsigned 32-bit cast;
  - `Scan`: `sscanf` with `%d`, `%s` and literal text.

Every operation is a pure function. It takes the axis or controller record,
the channel and the arguments. It returns the status, the new record and the
new channel. The commands written are what it appended to `ch.sent`.

Where the code and its documentation disagree, the model follows the code:

- A fire starts its staging loop at axis 0. Axis 0 can have its `D` command
  written, but no GO digit exists for it.
- `setPosition` always refreshes the status afterwards, also after a failure.
- The motor `problem` flag has no command-error term.
- The limit flags have no soft-limit terms.
- A failed TPC, TPE or TAS read leaves every status bit off. A stepper with nothing
  staged therefore reads as done.
- A `?` without a `*` before it is not an error frame. The buffer is still
  cut at the `?` before the trailer search.
- A staging failure suppresses GO and leaves the controller error text
  unchanged.
- A request to end deferral while not deferring arms deferral.

## Model

| member | source | states |
|---|---|---|
| Strings.FindFirst | parker6kApp/src/parker6kController.cpp:399-404 | `strstr` finds the first occurrence of the pattern, and reports none only when there is no occurrence |
| Strings.FindCharFirst | parker6kApp/src/parker6kController.cpp:363-369 | the single-character search finds the first occurrence: no earlier one, none at all when absent |
| Strings.FindCharAt | parker6kApp/src/parker6kController.cpp:363-369 | an occurrence with none before it is exactly what the search reports |
| Strings.FindSingle | parker6kApp/src/parker6kController.cpp:363-369 | `strstr` with a one-character needle is the search for that character |
| Strings.CStringPrefix | parker6kApp/src/parker6kController.cpp:295-317 | the zeroed receive buffer reads as the longest NUL-free prefix of the bytes received |
| Strings.CStringOfFree | parker6kApp/src/parker6kController.cpp:295-317 | bytes without NUL read back unchanged |
| Strings.CharAt | parker6kApp/src/parker6kAxis.cpp:573 | a status character is what a zero-initialised buffer of any sufficient size holds at that offset after the string was copied in: past the end of the string that is NUL |
| Protocol.ErrorResponse | parker6kApp/src/parker6kController.cpp:354-381 | a buffer is an error frame exactly when a `*` lies before its first `?`; the error text holds no `?`; otherwise the buffer kept is a prefix of the input without `?` |
| Protocol.ErrorResponseCut | parker6kApp/src/parker6kController.cpp:363-380 | a buffer that is not an error frame is still cut just before its first `?`, and kept whole without one |
| Protocol.ErrorFrameShape | parker6kApp/src/parker6kController.cpp:363-376 | text without `*` or `?`, then `*`, text, `?`, anything: an error frame whose text is exactly what lies between the first `*` and the first `?` |
| Protocol.ErrorFrameParts | parker6kApp/src/parker6kController.cpp:363-376 | conversely, every error frame has that shape |
| Protocol.PromptWithoutHeader | parker6kApp/src/parker6kController.cpp:363-380 | a `?` with no `*` before it is not an error frame, but the buffer is cut at the `?` |
| Protocol.TrailerFound | parker6kApp/src/parker6kController.cpp:399-411 | one of the two trailer searches succeeds exactly when the buffer holds a `\r\n` somewhere |
| Protocol.CutTrailer | parker6kApp/src/parker6kController.cpp:399-411 | the buffer is cut exactly when it holds a `\r\n`, and the cut keeps a prefix |
| Protocol.Payload | parker6kApp/src/parker6kController.cpp:413-421 | without `*` the payload is empty; otherwise it is everything after the first `*` |
| Protocol.TrimResponse | parker6kApp/src/parker6kController.cpp:389-424 | the trim succeeds exactly when the buffer holds a `\r\n`; without `*` the response is empty |
| Protocol.FirstTrailerAfter | parker6kApp/src/parker6kController.cpp:399 | in a body whose every `\r` is followed by another character, the first `\r\r\n` is the one placed after the body |
| Protocol.TrimAtFullTrailer | parker6kApp/src/parker6kController.cpp:399-401 | when the full trailer is found, the cut is there and the trim succeeds |
| Protocol.TrimShape | parker6kApp/src/parker6kController.cpp:399-421 | a normal frame with the full trailer succeeds with the text between the first `*` and the trailer |
| Protocol.TrimShapeShort | parker6kApp/src/parker6kController.cpp:402-421 | a concrete frame shape: text without `*` or `\r`, `*`, a payload without `\r`, `\r\n`, then any tail without `\r\r\n`: the frame is cut at that `\r\n` and succeeds with the payload |
| Protocol.TrimAtShortTrailer | parker6kApp/src/parker6kController.cpp:399-421 | for every buffer without `\r\r\n`, the cut is at the first `\r\n` and the trim succeeds with the payload of what precedes it |
| Protocol.TrimFullTrailerFirst | parker6kApp/src/parker6kController.cpp:399-421 | the full trailer wins over an earlier `\r\n`: the payload keeps that `\r\n` and everything up to the `\r\r\n` |
| Protocol.TrimNoTrailer | parker6kApp/src/parker6kController.cpp:402-421 | a buffer with no `\r\n` anywhere fails the trim, and its response is the payload of the whole buffer |
| Protocol.Classify | parker6kApp/src/parker6kController.cpp:326-338 | a classified response never holds a `?`, and a success needs a `\r\n` in the bytes received |
| Protocol.ClassifyTrim | parker6kApp/src/parker6kController.cpp:331-338 | trimming the `?`-free buffer left by the error search gives a `?`-free response, and a success comes from a `\r\n` in the received bytes |
| Protocol.ClassifyNormalFrame | parker6kApp/src/parker6kController.cpp:326-338 | a complete normal reply is classified a success carrying its payload |
| Protocol.ClassifyErrorFrame | parker6kApp/src/parker6kController.cpp:326-331 | a complete error reply is classified a failure carrying the error text |
| Protocol.ClassifyFrame | parker6kApp/src/parker6kController.cpp:326-338 | `*<p>\r\r\n` with plain text `p` is a success with response `p` |
| Protocol.NoPortUserRun | parker6kApp/src/parker6kController.cpp:300-303 | without a port user a run of transactions writes nothing and fails at its first step, unless it has none |
| Protocol.WriteReadClassifies | parker6kApp/src/parker6kController.cpp:326-338 | on a well-formed channel a transaction returns `Classify` of the bytes received |
| Protocol.StatusIgnoresTransport | parker6kApp/src/parker6kController.cpp:319-338 | the same bytes give the same status and response whether or not the transport reported an error; only the comms flag differs |
| Protocol.PendingAfter | parker6kApp/src/parker6kController.cpp:300-317 | each transaction consumes exactly one reply, and none without a port user; a later command's success is read one reply further on |
| Protocol.SendWhileOk | parker6kApp/src/parker6kAxis.cpp:436-462 | the replies and whether there is a port user are unchanged, the steps attempted are those the replies let through, and exactly those steps are written in order |
| Protocol.SendWhileOkStatus | parker6kApp/src/parker6kAxis.cpp:436-462 | steps are sent while all before succeeded: every attempted step but the last succeeded, a failed run stops at its first failure, success means all steps succeeded |
| Protocol.AttemptsSpec | parker6kApp/src/parker6kAxis.cpp:436-462 | step i is attempted exactly when every step before it succeeded |
| Protocol.SendLast | parker6kApp/src/parker6kAxis.cpp:326-374 | every command is written whatever the replies, and the status is that of the last only |
| Decimal.Trunc | parker6kApp/src/parker6kAxis.cpp:362 | a C conversion to integer truncates toward zero |
| Decimal.ToUInt32 | parker6kApp/src/parker6kAxis.cpp:362 | the unsigned cast lies in 32 bits and agrees with the truncation modulo 2^32 |
| Decimal.AsInt32 | parker6kApp/src/parker6kAxis.cpp:364 | `%d` of a 32-bit value prints a signed 32-bit number congruent to it |
| Decimal.UInt32PrintRoundTrip | parker6kApp/src/parker6kAxis.cpp:362-364 | a position within the signed range survives the cast and `%d` unchanged |
| Decimal.NatToStringValue | parker6kApp/src/parker6kAxis.cpp:364 | the numeral printed for a natural number denotes that number |
| Decimal.FormatFixedRoundTrip | parker6kApp/src/parker6kAxis.cpp:332 | `%.*f` text reads back with exactly the requested decimals, within half a unit of the last printed place of the value |
| Scan.ScanIntRoundTrip | parker6kApp/src/parker6kAxis.cpp:600 | `%d` reads back a printed integer followed by a non-digit |
| Scan.NumeralRoundTrip | parker6kApp/src/parker6kAxis.cpp:600 | the digits of a printed natural number read back as that number, leaving the rest |
| Scan.NegativeRoundTrip | parker6kApp/src/parker6kAxis.cpp:600 | `%d` reads back a printed negative integer through its sign |
| Scan.NonNegativeRoundTrip | parker6kApp/src/parker6kAxis.cpp:600 | `%d` reads back a printed non-negative integer |
| Scan.ScanWordRoundTrip | parker6kApp/src/parker6kAxis.cpp:622 | `%s` reads back a non-empty word without white space |
| Scan.ScanIndexedIntRoundTrip | parker6kApp/src/parker6kAxis.cpp:600-610 | `"%d<mnem>%d"` on `<axis><mnem><value>` stores the value |
| Scan.ScanIndexedWordRoundTrip | parker6kApp/src/parker6kAxis.cpp:622 | `"%dTAS%s"` on `<axis>TAS<word>` stores the word |
| Scan.ScanPrefixedWordRoundTrip | parker6kApp/src/parker6kController.cpp:668 | `"TSS%s"` on `TSS<word>` stores the word |
| Scan.ScanPrefixedWordMismatch | parker6kApp/src/parker6kController.cpp:668 | a reply not starting with `TSS` stores nothing |
| Status.DecodeTssText | parker6kApp/src/parker6kController.cpp:674-680 | each system flag is exactly "the character at 0/2/3/12/26 is `1`", so the text of a set of bits decodes to that set |
| Status.DecodeTssEmpty | parker6kApp/src/parker6kController.cpp:674-680 | a word that did not scan reads as all system flags clear |
| Status.TasBitAtOffset | parker6kApp/src/parker6kAxis.cpp:30-51 | the TAS offsets are distinct: the bit at each bit's offset is that bit |
| Status.OnTasText | parker6kApp/src/parker6kAxis.cpp:30-54 | in the text of a set of bits, a bit reads as on exactly when it is in the set |
| Status.DecodeTasText | parker6kApp/src/parker6kAxis.cpp:629-668 | the published flags in terms of the reported bits: done from moving, deferral, and target zone and timeout for a servo; following error from position error or stall by drive type; hardware limits only; problem from fault, timeout or position error |
| Status.DecodeTasConsistent | parker6kApp/src/parker6kAxis.cpp:629-668 | a move reported done is never moving, and for a servo a following error is always a problem |
| Status.DecodeTasLocal | parker6kApp/src/parker6kAxis.cpp:629-668 | only offsets 0, 1, 5, 13, 15-18, 27, 28, 30 influence the flags; the soft limits do not |
| Status.DecodeTasEmpty | parker6kApp/src/parker6kAxis.cpp:629-668 | an empty status string leaves every flag off; done only for a stepper with nothing staged |
| Status.DeferredNeverDone | parker6kApp/src/parker6kAxis.cpp:629-631 | a staged deferred move is never reported as done |
| ErrorThrottle.Check | parker6kApp/src/parker6kAxis.cpp:581-592 | errors print exactly when a full period has elapsed or a report is forced; the clock is re-armed only by an elapsed period |
| ErrorThrottle.RunSpacing | parker6kApp/src/parker6kController.cpp:642-653 | without forced reports, two prints at non-decreasing times are at least one period apart |
| ErrorThrottle.FirstPrintAfter | parker6kApp/src/parker6kController.cpp:642-653 | without forced reports, any print comes at least one period after the starting clock |
| Axis.Divide | parker6kApp/src/parker6kAxis.cpp:331 | the quotient is finite exactly when the resolution is non-zero, and then multiplies back to the dividend |
| Axis.MoveCommands | parker6kApp/src/parker6kAxis.cpp:321-372 | the order of a move's commands: the MA mode with relative clamped to 1; V exactly when a velocity is given; A, AA, AD, ADA exactly when both are given; then D and GO, or one empty command while deferred |
| Axis.MoveModeReadBack | parker6kApp/src/parker6kAxis.cpp:321-325 | the mode command reads back as 1 (absolute) exactly when the move is not relative, and as 0 otherwise |
| Axis.DistanceReadBack | parker6kApp/src/parker6kAxis.cpp:362-365 | the distance written reads back as the truncated position when it fits in 32 bits |
| Axis.ValueReadBack | parker6kApp/src/parker6kAxis.cpp:312-341 | a velocity or acceleration reads back as its quotient by ERES (AXSDEF 0) or DRES, to the printed precision |
| Axis.Move | parker6kApp/src/parker6kAxis.cpp:287-377 | every command is written, the status is the last transaction's, and a deferred move is staged with its 32-bit position while an immediate move leaves the axis as it was |
| Axis.RoundHalfUp | parker6kApp/src/parker6kAxis.cpp:430 | `floor(x + 0.5)` is within half a unit of `x` |
| Axis.SetPosition | parker6kApp/src/parker6kAxis.cpp:419-478 | stop, PSET and PESET each sent only while all before succeeded, then the refresh reading the replies that follow; error exactly when a step failed |
| Axis.SetPositionSteps | parker6kApp/src/parker6kAxis.cpp:436-466 | the three steps and the refresh after them: the refresh follows the attempted steps on the wire and reads the replies after theirs |
| Axis.ThreeStepRun | parker6kApp/src/parker6kAxis.cpp:436-462 | a short-circuit run of three steps attempts one step more than its leading successes, all three when the first two succeed, and succeeds exactly when all three do |
| Axis.RefreshAfter | parker6kApp/src/parker6kAxis.cpp:464-466 | a refresh after some commands publishes from the replies that follow theirs |
| Axis.RefreshAfterSent | parker6kApp/src/parker6kAxis.cpp:464-466 | the refresh queries follow the earlier commands on the wire, and the replies and whether there is a port user are unchanged |
| Axis.SetPositionShortCircuit | parker6kApp/src/parker6kAxis.cpp:436-466 | the exact commands written for each pattern of step failures, with the refresh queries after them |
| Axis.Stop | parker6kApp/src/parker6kAxis.cpp:483-499 | `!<n>S` is written and the staged move is dropped whatever the reply |
| Axis.SetClosedLoop | parker6kApp/src/parker6kAxis.cpp:504-520 | DRIVE1 or DRIVE0 by the argument, the axis unchanged |
| Axis.DriveReadBack | parker6kApp/src/parker6kAxis.cpp:513-517 | the command written reads back as DRIVE 1 exactly when closing the loop, and DRIVE 0 otherwise |
| Axis.GetAxisStatus | parker6kApp/src/parker6kAxis.cpp:557-668 | all three queries are always written, the status is always success, busy is exactly "not done", and the axis is what the answers publish |
| Axis.RefreshShift | parker6kApp/src/parker6kAxis.cpp:464-466 | a refresh after m transactions reads the replies m onward |
| Axis.RefreshFirstFails | parker6kApp/src/parker6kAxis.cpp:596-602 | a failed TPC query leaves both positions as they were and all status bits off |
| Axis.RefreshAnyFails | parker6kApp/src/parker6kAxis.cpp:596-624 | a failure of any of the TPC, TPE or TAS queries leaves the status word unread, so the flags are those of an empty word |
| Axis.RefreshEncoderFallback | parker6kApp/src/parker6kAxis.cpp:607-612 | a TPE reply that does not scan publishes the TPC value as the encoder position |
| Axis.PublishReadsAnswers | parker6kApp/src/parker6kAxis.cpp:596-624 | answers carrying p, e and the bits `on` publish exactly those |
| Axis.PublishFrame | parker6kApp/src/parker6kAxis.cpp:596-624 | a refresh changes only the positions, the status reading and the throttle clock; the reading records the deferral state; without a TPC answer the positions stay and the word is empty |
| Axis.NumberAnswer | parker6kApp/src/parker6kAxis.cpp:596-610 | a well-formed `<axis><mnem><value>` reply is answered with exactly that text |
| Axis.StatusAnswer | parker6kApp/src/parker6kAxis.cpp:618-622 | a well-formed `<axis>TAS<bits>` reply is answered with exactly that text |
| Axis.RefreshFromAnswers | parker6kApp/src/parker6kAxis.cpp:596-624 | answers carrying p, e and the bits `on`, wherever they stand among the replies, publish exactly those |
| Axis.RefreshReadsReplies | parker6kApp/src/parker6kAxis.cpp:596-668 | three well-formed replies publish the reported positions and the flags of the reported bits |
| Axis.Poll | parker6kApp/src/parker6kAxis.cpp:525-548 | axis 0 is never queried; without a port user the comms status is set and the poll fails; otherwise a refresh whose moving answer is "not done" |
| Controller.GetAxis | parker6kApp/src/parker6kController.cpp:613-617 | nothing for an index outside the table, the table entry inside it; the staging loop, move and stop dispatch find their axis through it |
| Controller.Poll | parker6kApp/src/parker6kController.cpp:624-698 | without a port user it fails with nothing changed; otherwise the TSS status decides the flags published, the comms flag, the forced-report flag and whether an error is printed |
| Controller.PollReadsReply | parker6kApp/src/parker6kController.cpp:664-680 | a well-formed TSS reply publishes exactly the reported system bits |
| Controller.FailureAfterSuccessReported | parker6kApp/src/parker6kController.cpp:684-697 | a failure right after a success is always printed, and a failure keeps the published flags |
| Controller.FireCommandLayout | parker6kApp/src/parker6kController.cpp:883 | the GO command is `GO` followed by the digit of mask entry j at position j + 1, for the axes 1 to 8 |
| Controller.StagedCommandsFrom | parker6kApp/src/parker6kController.cpp:859-874 | the loop from axis i writes at most one command per remaining axis |
| Controller.StagedCommandsOnlyStaged | parker6kApp/src/parker6kController.cpp:859-868 | every command listed belongs to a staged axis at or after the start |
| Controller.StagedDistanceReadBack | parker6kApp/src/parker6kController.cpp:866 | the distance command of a staged axis reads back as its staged position as a signed 32-bit value |
| Controller.StageFrom | parker6kApp/src/parker6kController.cpp:859-874 | the staging loop keeps the mask size and leaves the replies and whether there is a port user unchanged |
| Controller.StageFromSent | parker6kApp/src/parker6kController.cpp:859-874 | the staging loop writes the distance of every staged axis in index order, whatever the replies |
| Controller.StageFromStatus | parker6kApp/src/parker6kController.cpp:859-874 | the staging status holds exactly when every distance command written succeeded |
| Controller.StageFromMask | parker6kApp/src/parker6kController.cpp:859-874 | the mask gains exactly the staged axes it can hold |
| Controller.AllSucceedStep | parker6kApp/src/parker6kController.cpp:868-872 | a run of commands all succeeds exactly when the first does and the rest, read after its reply, do |
| Controller.ClearDeferredUnstages | parker6kApp/src/parker6kController.cpp:898-906 | after clearing nothing is staged: no distance command and an all-zero GO mask remain, and clearing again changes nothing |
| Controller.SetDeferredMoves | parker6kApp/src/parker6kController.cpp:839-911 | arming sends nothing and succeeds; a fire writes the D commands, GO only if all succeeded, succeeds exactly when all and GO succeeded, sets the error text by GO's status, clears every axis and ends deferral |
| Controller.FireCommandMask | parker6kApp/src/parker6kController.cpp:859-885 | GO digit j is 1 exactly when axis j (1 to 8) is staged |
| Controller.FireClearsAll | parker6kApp/src/parker6kController.cpp:898-910 | after a fire, whatever the replies, no axis is staged and deferral is off |
| Controller.StagingFailureSuppressesGo | parker6kApp/src/parker6kController.cpp:877-881 | a failed D command means only the D commands are written, the call fails and the error text is kept |
| Controller.FireNothingStaged | parker6kApp/src/parker6kController.cpp:883-885 | with nothing staged a fire writes only `GO00000000` |
| Controller.ArmIdempotent | parker6kApp/src/parker6kController.cpp:854-857 | while not armed any request arms, succeeds and sends nothing, and arming again changes nothing |
| Controller.MoveAxis | parker6kApp/src/parker6kAxis.cpp:363-372 | a move dispatched to one axis sees the controller's deferral flag and changes no other axis |
| Controller.StopAxis | parker6kApp/src/parker6kAxis.cpp:492-496 | a stop dispatched to one axis changes no other axis |
| Controller.ArmStageFire | parker6kApp/src/parker6kController.cpp:859-885 | a move made while armed is staged with its position, its distance is among the D commands of the fire, and its GO digit is 1 |
| Controller.StagedCommandListed | parker6kApp/src/parker6kController.cpp:859-868 | every staged axis contributes its own distance command |
| Controller.StopUnstages | parker6kApp/src/parker6kAxis.cpp:496 | a stopped axis is dropped from the next fire's mask |

## Left out

- The asyn and motor framework: port connection, the parameter library (`setIntegerParam` and friends, callbacks), `writeInt32`, `writeFloat64`, `writeOctet`, `report`, `printConnectedStatus`, the constructors, the exit handler and iocsh registration. These are plumbing, with no driver logic. Parameters the operations read (AXSDEF, MaxDigits, DRES, ERES, encoder ratio, drive type) are fields or arguments.
- The transport itself (`pasynOctetSyncIO->writeRead`). It is replaced by the reply oracle. The time of day is an integer argument `now`.
- `getAxisInitialStatus`, `printAxisParams`, `home`, `moveVelocity` and all commented-out code. The first two are startup reads and printing. The other two are empty stubs.
- Error and trace printing (`asynPrint`, `cout`, `printf`). Only the throttle decision to print is modelled.
- Locking and the poller threads.
- IEEE doubles. Positions, velocities and accelerations are Dafny reals. `%.*f` is exact decimal rounding with ties to even. A zero resolution gives an infinity, printed `inf`/`-inf`, so `move` needs no precondition on the scale.
- Axis.Move: the unsigned cast of an out-of-range or negative position is undefined in C++. It is modelled as truncation modulo 2^32, the behaviour on the usual targets.
- Controller.StagedCommand: the deferred distance is printed with `%d` of a `double`, which is undefined behaviour. The model prints the staged 32-bit position as the immediate path does.
- Axis.RoundHalfUp: the conversion of `floor(...)` to `epicsInt32` is not narrowed to 32 bits. Positions are unbounded integers.
- Scan.ScanIndexedIntRoundTrip: `sscanf %d` overflow of values beyond 32 bits is not modelled. Read values are unbounded integers.
- The 1024-byte buffer sizes and the 1023-character `strncpy` caps. Replies and payloads are unbounded.
- The pointer-sized `memset` of the response buffer. It clears the first byte, so a response left unwritten reads as the empty string, and the model says so.
- The minimum velocity argument of `move`, which the source never uses.
- The axis `printNextError_`, which the source never sets. The axis throttle only advances its clock.
- Axis and controller dispatch by the motor framework. `Controller.MoveAxis` and `Controller.StopAxis` require an existing axis.
