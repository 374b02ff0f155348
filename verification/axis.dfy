/** One axis of the controller (`p6kAxis`): the command sequences of `move`,
    `setPosition`, `stop` and `setClosedLoop`, and the status refresh of
    `getAxisStatus` and `poll`.

    Every operation is a function from the axis, the channel and its
    arguments to the status it returns, the axis afterwards and the channel
    afterwards; the commands it wrote are what it appended to `ch.sent`. */
module Axis {
  import opened Wrappers
  import opened Decimal
  import opened Scan
  import opened Protocol
  import opened Status
  import opened ErrorThrottle

  type UInt32 = u: int | 0 <= u < TWO32

  /** The axis parameters `move` reads: the drive type reported by AXSDEF,
      the number of decimals, and the drive and encoder resolutions. */
  datatype Params = Params(axisDef: int, maxDigits: int, dres: int, eres: int)

  /** The axis state the modelled operations read or write: its number and
      drive type, the staged deferred move, the error throttle of its
      poller, the positions it publishes and the status reading its motor
      flags are decoded from. */
  datatype Axis = Axis(
    axisNo: int,
    driveType: int,
    params: Params,
    deferredMove: bool,
    deferredPosition: UInt32,
    throttle: Throttle,
    position: int,
    encoderPosition: int,
    tas: TasReading,
    commsErrorStatus: bool)

  /** The motor flags an axis publishes: its last status reading decoded. */
  function Flags(a: Axis): AxisFlags {
    DecodeTas(a.tas.text, a.driveType, a.tas.deferred)
  }

  /** The status an operation returns, the axis after it and the channel. */
  datatype Result = Result(ok: bool, axis: Axis, ch: Channel)

  // ---- Command text -------------------------------------------------------

  /** Velocity and acceleration are divided by the resolution in IEEE
      arithmetic: dividing a non-zero value by a zero resolution gives an
      infinity, which `%f` prints as `inf` or `-inf`. */
  datatype Extended = Finite(value: real) | PlusInfinity | MinusInfinity

  /** `x / scale` for a non-zero `x`. */
  function Divide(x: real, scale: int): (e: Extended)
    requires x != 0.0
    ensures scale != 0 <==> e.Finite?
    ensures scale != 0 ==> e.value * scale as real == x
  {
    if scale == 0 then (if x > 0.0 then PlusInfinity else MinusInfinity)
    else Finite(x / scale as real)
  }

  function Halve(e: Extended): Extended {
    match e
    case Finite(v) => Finite(v / 2.0)
    case PlusInfinity => PlusInfinity
    case MinusInfinity => MinusInfinity
  }

  /** `%.*f` of an extended value. */
  function FormatExtended(e: Extended, digits: int): string {
    match e
    case Finite(v) => FormatFixed(v, digits)
    case PlusInfinity => "inf"
    case MinusInfinity => "-inf"
  }

  /** The resolution velocities and accelerations are divided by: ERES when
      AXSDEF is 0, DRES otherwise. */
  function Scale(p: Params): int {
    if p.axisDef == 0 then p.eres else p.dres
  }

  /** `"<n>MA<!relative>"`: select absolute (1) or incremental (0) moves. */
  function MaCommand(n: int, relative: int): string {
    IntToString(n) + "MA" + IntToString(if relative == 0 then 1 else 0)
  }

  /** `"<n><mnem><value>"` with the value printed by `%.*f`. */
  function ValueCommand(n: int, mnem: string, digits: int, v: Extended): string {
    IntToString(n) + mnem + FormatExtended(v, digits)
  }

  /** The four acceleration commands: A, AA (half the acceleration), AD and
      ADA. */
  function AccelerationCommands(n: int, digits: int, accel: Extended): seq<string> {
    [ValueCommand(n, "A", digits, accel), ValueCommand(n, "AA", digits, Halve(accel)),
     ValueCommand(n, "AD", digits, accel), ValueCommand(n, "ADA", digits, accel)]
  }

  /** `"<n>D<pos>"`: the distance of the next move, a 32-bit value printed
      with `%d`. */
  function DistanceCommand(n: int, pos: UInt32): string {
    IntToString(n) + "D" + IntToString(AsInt32(pos))
  }

  function GoCommand(n: int): string {
    IntToString(n) + "GO"
  }

  /** `"!<n>S"`: stop the axis immediately. */
  function StopCommand(n: int): string {
    "!" + IntToString(n) + "S"
  }

  /** The commands `move` writes, in order: the move mode, with `relative`
      clamped to 1; the velocity exactly when one is given; the four
      acceleration commands exactly when both an acceleration and a velocity
      are given; then the distance and GO, or, while moves are deferred, only
      an empty command. */
  function MoveCommands(a: Axis, movesDeferred: bool, position: real, relative: int,
                        maxVelocity: real, acceleration: real): (cmds: seq<string>)
    ensures var n := a.axisNo;
            var v := if maxVelocity != 0.0 then 1 else 0;
            var acc := if maxVelocity != 0.0 && acceleration != 0.0 then 4 else 0;
            |cmds| == 1 + v + acc + (if movesDeferred then 1 else 2) &&
            cmds[0] == MaCommand(n, if relative > 1 then 1 else relative) &&
            (v == 1 ==> cmds[1] == ValueCommand(n, "V", a.params.maxDigits, Divide(maxVelocity, Scale(a.params)))) &&
            (acc == 4 ==>
               cmds[1 + v..1 + v + 4] == AccelerationCommands(n, a.params.maxDigits, Divide(acceleration, Scale(a.params)))) &&
            (movesDeferred ==> cmds[|cmds| - 1] == "") &&
            (!movesDeferred ==> cmds[|cmds| - 2] == DistanceCommand(n, ToUInt32(position)) &&
                                cmds[|cmds| - 1] == GoCommand(n))
  {
    var n := a.axisNo;
    var digits := a.params.maxDigits;
    var scale := Scale(a.params);
    [MaCommand(n, if relative > 1 then 1 else relative)]
    + (if maxVelocity != 0.0 then [ValueCommand(n, "V", digits, Divide(maxVelocity, scale))] else [])
    + (if acceleration != 0.0 && maxVelocity != 0.0
       then AccelerationCommands(n, digits, Divide(acceleration, scale)) else [])
    + (if movesDeferred then [""] else [DistanceCommand(n, ToUInt32(position)), GoCommand(n)])
  }

  // ---- move ---------------------------------------------------------------

  /** `move`: the commands of `MoveCommands` are all written, none skipped
      after a failure, and the status returned is that of the last one only.
      While moves are deferred the distance is staged on the axis instead of
      being sent; the minimum velocity is not used. */
  function Move(a: Axis, movesDeferred: bool, ch: Channel, position: real, relative: int,
                minVelocity: real, maxVelocity: real, acceleration: real): (r: Result)
    ensures var cmds := MoveCommands(a, movesDeferred, position, relative, maxVelocity, acceleration);
            r.ch.sent == ch.sent + Emitted(ch, cmds) &&
            r.ok == Succeeds(ch, |cmds| - 1)
    ensures r.ch.replies == ch.replies && r.ch.link.connected == ch.link.connected
    ensures movesDeferred ==> r.axis == a.(deferredMove := true, deferredPosition := ToUInt32(position))
    ensures !movesDeferred ==> r.axis == a
  {
    var x := SendLast(ch, MoveCommands(a, movesDeferred, position, relative, maxVelocity, acceleration));
    var staged := if movesDeferred then a.(deferredMove := true, deferredPosition := ToUInt32(position)) else a;
    Result(x.ok, staged, x.ch)
  }

  /** The mode command of a move reads back as 1 (absolute) exactly when the
      move is not relative, and as 0 otherwise: any `relative` other than 0
      selects incremental moves. */
  lemma MoveModeReadBack(a: Axis, movesDeferred: bool, position: real, relative: int,
                         maxVelocity: real, acceleration: real)
    ensures ScanIndexedInt(MoveCommands(a, movesDeferred, position, relative, maxVelocity, acceleration)[0], "MA") ==
            Some(if relative == 0 then 1 else 0)
  {
    var mode := if relative == 0 then 1 else 0;
    assert MaCommand(a.axisNo, if relative > 1 then 1 else relative) == IntToString(a.axisNo) + "MA" + IntToString(mode);
    ScanIndexedIntRoundTrip(a.axisNo, "MA", mode);
  }

  /** The distance a move writes reads back, as a signed 32-bit value, as the
      position truncated toward zero whenever that fits in 32 bits. */
  lemma DistanceReadBack(n: int, position: real)
    requires -TWO31 <= Trunc(position) < TWO31
    ensures ScanIndexedInt(DistanceCommand(n, ToUInt32(position)), "D") == Some(Trunc(position))
  {
    UInt32PrintRoundTrip(position);
    ScanIndexedIntRoundTrip(n, "D", Trunc(position));
  }

  /** The velocity and acceleration values are printed so that they read back
      as the quotient by the resolution, to within half a unit of the last
      printed decimal. */
  lemma ValueReadBack(x: real, scale: int, digits: int)
    requires x != 0.0 && scale != 0
    ensures var v := ParseFixed(FormatExtended(Divide(x, scale), digits));
            v.Some? && v.value.decimals == Precision(digits) && Approximates(v.value, x / scale as real)
  {
    FormatFixedRoundTrip(x / scale as real, digits);
  }

  // ---- setPosition, stop, setClosedLoop ------------------------------------

  /** `floor(x + 0.5)`: round half up. */
  function RoundHalfUp(x: real): (k: int)
    ensures k as real - 0.5 <= x < k as real + 0.5
  {
    (x + 0.5).Floor
  }

  /** The three commands of `setPosition`: stop, set the motor position, set
      the encoder position scaled by the encoder ratio. */
  function SetPositionCommands(n: int, position: real, encoderRatio: real): seq<string> {
    [StopCommand(n),
     IntToString(n) + "PSET" + IntToString(RoundHalfUp(position)),
     IntToString(n) + "PESET" + IntToString(RoundHalfUp(position * encoderRatio))]
  }

  /** `setPosition`: stop, PSET and PESET, each only while all before it
      succeeded, then a status refresh whatever happened, reading the replies
      after those of the attempted steps. The status is an error exactly when
      one of the three steps failed. The encoder ratio is read from the
      parameter list of address 0. */
  function SetPosition(a: Axis, ch: Channel, position: real, encoderRatio: real, now: int): (r: Result)
    ensures var m := if !Succeeds(ch, 0) then 1 else if !Succeeds(ch, 1) then 2 else 3;
            r.ch.sent == ch.sent +
              Emitted(ch, SetPositionCommands(a.axisNo, position, encoderRatio)[..m] + StatusCommands(a.axisNo)) &&
            r.axis == RefreshedAxis(a, ch, m, now)
    ensures r.ok <==> Succeeds(ch, 0) && Succeeds(ch, 1) && Succeeds(ch, 2)
    ensures r.ch.replies == ch.replies && r.ch.link.connected == ch.link.connected
  {
    var cmds := SetPositionCommands(a.axisNo, position, encoderRatio);
    var run := SendWhileOk(ch, cmds);
    var s := GetAxisStatus(a, run.ch, now);
    SetPositionSteps(a, ch, cmds, now);
    Result(run.ok, s.axis, s.ch)
  }

  /** The run of three steps followed by the refresh: the refresh reads the
      replies after the attempted steps, and its queries follow them. */
  lemma SetPositionSteps(a: Axis, ch: Channel, cmds: seq<string>, now: int)
    requires |cmds| == 3
    ensures var m := if !Succeeds(ch, 0) then 1 else if !Succeeds(ch, 1) then 2 else 3;
            var run := SendWhileOk(ch, cmds);
            var s := GetAxisStatus(a, run.ch, now);
            s.ch.sent == ch.sent + Emitted(ch, cmds[..m] + StatusCommands(a.axisNo)) &&
            s.axis == RefreshedAxis(a, ch, m, now) &&
            (run.ok <==> Succeeds(ch, 0) && Succeeds(ch, 1) && Succeeds(ch, 2)) &&
            s.ch.replies == ch.replies && s.ch.link.connected == ch.link.connected
  {
    var run := SendWhileOk(ch, cmds);
    ThreeStepRun(ch, cmds);
    RefreshAfter(a, ch, run.ch, cmds[..run.attempted], now);
    RefreshAfterSent(a, ch, run.ch, cmds[..run.attempted], now);
  }

  /** A refresh after the commands `done` were written reads the replies
      after theirs. */
  lemma RefreshAfter(a: Axis, ch: Channel, c: Channel, done: seq<string>, now: int)
    requires c.replies == ch.replies && c.link.connected == ch.link.connected
    requires c.sent == ch.sent + Emitted(ch, done)
    ensures GetAxisStatus(a, c, now).axis == RefreshedAxis(a, ch, |done|, now)
  {
    RefreshShift(a, ch, c, |done|, now);
  }

  /** The queries of a refresh after the commands `done` follow theirs on
      the wire, and the replies and the link are left alone. */
  lemma RefreshAfterSent(a: Axis, ch: Channel, c: Channel, done: seq<string>, now: int)
    requires c.replies == ch.replies && c.link.connected == ch.link.connected
    requires c.sent == ch.sent + Emitted(ch, done)
    ensures var s := GetAxisStatus(a, c, now);
            s.ch.sent == ch.sent + Emitted(ch, done + StatusCommands(a.axisNo)) &&
            s.ch.replies == ch.replies && s.ch.link.connected == ch.link.connected
  {
    EmittedAppend(ch, done, StatusCommands(a.axisNo));
  }

  /** A short-circuit run of three steps attempts one step more than the
      number of leading successes, and succeeds exactly when all three do. */
  lemma ThreeStepRun(ch: Channel, cmds: seq<string>)
    requires |cmds| == 3
    ensures var r := SendWhileOk(ch, cmds);
            r.attempted == (if !Succeeds(ch, 0) then 1 else if !Succeeds(ch, 1) then 2 else 3) &&
            (r.ok <==> Succeeds(ch, 0) && Succeeds(ch, 1) && Succeeds(ch, 2))
  {
    SendWhileOkStatus(ch, cmds);
    AttemptsSpec(ch, 3, 0);
    AttemptsSpec(ch, 3, 1);
    AttemptsSpec(ch, 3, 2);
  }

  /** The short-circuit rule, read back: PSET is written only after the stop
      succeeded, and PESET only after both succeeded. */
  lemma SetPositionShortCircuit(a: Axis, ch: Channel, position: real, encoderRatio: real, now: int)
    requires ch.link.connected
    ensures var r := SetPosition(a, ch, position, encoderRatio, now);
            var cmds := SetPositionCommands(a.axisNo, position, encoderRatio);
            (!Succeeds(ch, 0) ==> r.ch.sent == ch.sent + [cmds[0]] + StatusCommands(a.axisNo)) &&
            (Succeeds(ch, 0) && !Succeeds(ch, 1) ==>
               r.ch.sent == ch.sent + [cmds[0], cmds[1]] + StatusCommands(a.axisNo)) &&
            (Succeeds(ch, 0) && Succeeds(ch, 1) ==> r.ch.sent == ch.sent + cmds + StatusCommands(a.axisNo))
  {
    var cmds := SetPositionCommands(a.axisNo, position, encoderRatio);
    assert cmds[..1] == [cmds[0]];
    assert cmds[..2] == [cmds[0], cmds[1]];
    assert cmds[..3] == cmds;
  }

  /** `stop`: write the stop command and drop any staged deferred move,
      whatever the reply. */
  function Stop(a: Axis, ch: Channel): (r: Result)
    ensures r.ch.sent == ch.sent + Emitted(ch, [StopCommand(a.axisNo)])
    ensures r.ok == Succeeds(ch, 0)
    ensures r.axis == a.(deferredMove := false)
  {
    var x := WriteRead(ch, StopCommand(a.axisNo));
    Result(x.ok, a.(deferredMove := false), x.ch)
  }

  function DriveCommand(n: int, closedLoop: bool): string {
    IntToString(n) + "DRIVE" + (if closedLoop then "1" else "0")
  }

  /** `setClosedLoop`: enable (DRIVE1) or disable (DRIVE0) the drive. */
  function SetClosedLoop(a: Axis, ch: Channel, closedLoop: bool): (r: Result)
    ensures r.ch.sent == ch.sent + Emitted(ch, [DriveCommand(a.axisNo, closedLoop)])
    ensures r.ok == Succeeds(ch, 0)
    ensures r.axis == a
  {
    var x := WriteRead(ch, DriveCommand(a.axisNo, closedLoop));
    Result(x.ok, a, x.ch)
  }

  /** The drive command reads back as 1 when closing the loop and 0 when
      opening it. */
  lemma DriveReadBack(n: int, closedLoop: bool)
    ensures ScanIndexedInt(DriveCommand(n, closedLoop), "DRIVE") == Some(if closedLoop then 1 else 0)
  {
    var v := if closedLoop then 1 else 0;
    assert DriveCommand(n, closedLoop) == IntToString(n) + "DRIVE" + IntToString(v);
    ScanIndexedIntRoundTrip(n, "DRIVE", v);
  }

  // ---- Status refresh -----------------------------------------------------

  /** The three queries of a status refresh. */
  function StatusCommands(n: int): seq<string> {
    [IntToString(n) + "TPC", IntToString(n) + "TPE", IntToString(n) + "TAS"]
  }

  /** What one query of a refresh yields: its response when it succeeded,
      nothing otherwise. */
  function Answer(ch: Channel, k: nat): Option<string> {
    if Succeeds(ch, k) then Some(Pending(ch, k).response) else None
  }

  /** What a transaction yields, as `Answer` does for a pending reply. */
  function Answered(x: Exchange): (q: Option<string>)
    ensures q.Some? <==> x.ok
  {
    if x.ok then Some(x.response) else None
  }

  /** The axis a refresh publishes from the answers to TPC, TPE and TAS.
      Each answer is read only while every answer so far was given. The
      motor position is the value after `TPC` (0 when it does not scan); the
      encoder position the value after `TPE`, which keeps the TPC value when
      it does not scan; the status reading is the word after `TAS`, empty when
      it was not read. The clock of the error throttle moves as `Check` says;
      nothing else changes. */
  function Publish(a: Axis, now: int, tpc: Option<string>, tpe: Option<string>, tas: Option<string>): Axis {
    var s0 := tpc.Some?;
    var s1 := s0 && tpe.Some?;
    var s2 := s1 && tas.Some?;
    var intVal0 := if s0 then ScanIndexedInt(tpc.value, "TPC").GetOr(0) else 0;
    var intVal1 := if s1 then ScanIndexedInt(tpe.value, "TPE").GetOr(intVal0) else intVal0;
    var word := if s2 then ScanIndexedWord(tas.value, "TAS").GetOr("") else "";
    a.(throttle := Check(a.throttle, now).next,
       position := if s0 then intVal0 else a.position,
       encoderPosition := if s1 then intVal1 else a.encoderPosition,
       tas := TasReading(word, a.deferredMove))
  }

  /** A refresh touches only the positions, the status reading and the
      throttle clock; the reading records the deferral state of the axis, and
      without a TPC answer both positions stay and the status word is empty. */
  lemma PublishFrame(a: Axis, now: int, tpc: Option<string>, tpe: Option<string>, tas: Option<string>)
    ensures var b := Publish(a, now, tpc, tpe, tas);
            b.axisNo == a.axisNo && b.driveType == a.driveType && b.params == a.params &&
            b.deferredMove == a.deferredMove && b.deferredPosition == a.deferredPosition &&
            b.commsErrorStatus == a.commsErrorStatus && b.tas.deferred == a.deferredMove &&
            (tpc.None? ==> b.position == a.position && b.encoderPosition == a.encoderPosition && b.tas.text == "")
  {
  }

  /** The axis after a refresh whose three replies are the b-th, (b+1)-th and
      (b+2)-th from now. */
  function RefreshedAxis(a: Axis, ch: Channel, b: nat, now: int): Axis {
    Publish(a, now, Answer(ch, b), Answer(ch, b + 1), Answer(ch, b + 2))
  }

  /** The result of a status refresh: its status, whether the poller should
      treat the axis as moving, the axis and the channel. */
  datatype Refresh = Refresh(ok: bool, busy: bool, axis: Axis, ch: Channel)

  /** `getAxisStatus`: query TPC, TPE and TAS one transaction after the
      other, all three always written, and publish what they answered. The
      status is always a success and the poller is told the axis is busy
      exactly when the move is not done. */
  function GetAxisStatus(a: Axis, ch: Channel, now: int): (r: Refresh)
    ensures r.ok && r.busy == !DoneMoving(r.axis.tas.text, a.driveType, r.axis.tas.deferred)
    ensures r.axis == RefreshedAxis(a, ch, 0, now)
    ensures r.ch.sent == ch.sent + Emitted(ch, StatusCommands(a.axisNo))
    ensures r.ch.replies == ch.replies && r.ch.link.connected == ch.link.connected
  {
    var n := a.axisNo;
    var x0 := WriteRead(ch, IntToString(n) + "TPC");
    var x1 := WriteRead(x0.ch, IntToString(n) + "TPE");
    var x2 := WriteRead(x1.ch, IntToString(n) + "TAS");
    PendingAfter(ch, IntToString(n) + "TPC", 0);
    PendingAfter(ch, IntToString(n) + "TPC", 1);
    PendingAfter(x0.ch, IntToString(n) + "TPE", 0);
    assert Answered(x0) == Answer(ch, 0);
    assert Answered(x1) == Answer(ch, 1);
    assert Answered(x2) == Answer(ch, 2);
    var axis := Publish(a, now, Answered(x0), Answered(x1), Answered(x2));
    Refresh(true, !DoneMoving(axis.tas.text, a.driveType, axis.tas.deferred), axis, x2.ch)
  }

  /** A refresh reads the same replies whichever transactions came before
      it, as long as they consumed the same number of replies. */
  lemma RefreshShift(a: Axis, ch: Channel, ch': Channel, m: nat, now: int)
    requires ch'.replies == ch.replies && ch'.link.connected == ch.link.connected
    requires ch.link.connected ==> |ch'.sent| == |ch.sent| + m
    ensures RefreshedAxis(a, ch', 0, now) == RefreshedAxis(a, ch, m, now)
  {
    SucceedsShift(ch, ch', m, 0);
    SucceedsShift(ch, ch', m, 1);
    SucceedsShift(ch, ch', m, 2);
  }

  /** A failed first query leaves both positions as they were and clears
      every status bit. */
  lemma RefreshFirstFails(a: Axis, ch: Channel, b: nat, now: int)
    requires !Succeeds(ch, b)
    ensures var r := RefreshedAxis(a, ch, b, now);
            r.position == a.position && r.encoderPosition == a.encoderPosition &&
            Flags(r) == DecodeTas("", a.driveType, a.deferredMove)
  {
  }

  /** A failure of any of the three queries leaves the status word unread:
      the published flags are those of an empty word. */
  lemma RefreshAnyFails(a: Axis, ch: Channel, b: nat, now: int)
    requires !(Succeeds(ch, b) && Succeeds(ch, b + 1) && Succeeds(ch, b + 2))
    ensures Flags(RefreshedAxis(a, ch, b, now)) == DecodeTas("", a.driveType, a.deferredMove)
  {
  }

  /** A TPE reply that does not scan publishes the TPC value as the encoder
      position: both reads go through one variable. */
  lemma RefreshEncoderFallback(a: Axis, ch: Channel, b: nat, now: int)
    requires Succeeds(ch, b) && Succeeds(ch, b + 1)
    requires ScanIndexedInt(Pending(ch, b + 1).response, "TPE").None?
    ensures var r := RefreshedAxis(a, ch, b, now);
            r.encoderPosition == r.position
  {
  }

  /** The reply text `<n><mnem><value>` of a query. */
  function QueryReply(n: int, mnem: string, value: string): string {
    IntToString(n) + mnem + value
  }

  /** Digits and a minus sign are plain reply text. */
  lemma IntToStringPlain(n: int)
    ensures PlainText(IntToString(n))
  {
    var s := IntToString(n);
    var m: nat := if n < 0 then -n else n;
    forall i | 0 <= i < |s| ensures PlainChar(s[i]) {
      if n < 0 && i > 0 {
        assert s[i] == NatToString(m)[i - 1];
      }
    }
  }

  /** A status string is plain reply text without white space. */
  lemma TasTextPlain(on: set<TasBit>)
    ensures PlainText(TasText(on))
    ensures forall i :: 0 <= i < |TasText(on)| ==> !IsSpace(TasText(on)[i])
  {
  }

  lemma QueryReplyPlain(n: int, mnem: string, value: string)
    requires PlainText(mnem) && PlainText(value)
    ensures PlainText(QueryReply(n, mnem, value))
  {
    IntToStringPlain(n);
    var s := QueryReply(n, mnem, value);
    var k := |IntToString(n)|;
    forall i | 0 <= i < |s| ensures PlainChar(s[i]) {
      if i < k { assert s[i] == IntToString(n)[i]; }
      else if i < k + |mnem| { assert s[i] == mnem[i - k]; }
      else { assert s[i] == value[i - k - |mnem|]; }
    }
  }

  /** The answer to a well-formed query reply. */
  lemma QueryAnswer(ch: Channel, k: nat, n: int, mnem: string, value: string)
    requires WellFormed(ch) && ch.link.connected
    requires PlainText(mnem) && PlainText(value)
    requires Upcoming(ch, k).raw == Frame(QueryReply(n, mnem, value))
    ensures Answer(ch, k) == Some(QueryReply(n, mnem, value))
  {
    PendingClassifies(ch, k);
    QueryReplyPlain(n, mnem, value);
    ClassifyFrame(QueryReply(n, mnem, value));
  }

  /** Answers carrying `p`, `e` and the status bits `on` publish exactly
      those. */
  lemma PublishReadsAnswers(a: Axis, now: int, p: int, e: int, on: set<TasBit>)
    ensures var r := Publish(a, now, Some(QueryReply(a.axisNo, "TPC", IntToString(p))),
                             Some(QueryReply(a.axisNo, "TPE", IntToString(e))),
                             Some(QueryReply(a.axisNo, "TAS", TasText(on))));
            r.position == p && r.encoderPosition == e &&
            Flags(r) == DecodeTas(TasText(on), a.driveType, a.deferredMove)
  {
    TasTextPlain(on);
    ScanIndexedIntRoundTrip(a.axisNo, "TPC", p);
    ScanIndexedIntRoundTrip(a.axisNo, "TPE", e);
    ScanIndexedWordRoundTrip(a.axisNo, "TAS", TasText(on));
  }

  /** Three well-formed replies publish the reported motor position `p`,
      encoder position `e` and the flags of the reported status bits `on`. */
  lemma RefreshReadsReplies(a: Axis, ch: Channel, b: nat, now: int, p: int, e: int, on: set<TasBit>)
    requires WellFormed(ch) && ch.link.connected
    requires Upcoming(ch, b).raw == Frame(QueryReply(a.axisNo, "TPC", IntToString(p)))
    requires Upcoming(ch, b + 1).raw == Frame(QueryReply(a.axisNo, "TPE", IntToString(e)))
    requires Upcoming(ch, b + 2).raw == Frame(QueryReply(a.axisNo, "TAS", TasText(on)))
    ensures var r := RefreshedAxis(a, ch, b, now);
            r.position == p && r.encoderPosition == e &&
            Flags(r) == DecodeTas(TasText(on), a.driveType, a.deferredMove)
  {
    var q0 := QueryReply(a.axisNo, "TPC", IntToString(p));
    var q1 := QueryReply(a.axisNo, "TPE", IntToString(e));
    var q2 := QueryReply(a.axisNo, "TAS", TasText(on));
    assert Answer(ch, b) == Some(q0) by { NumberAnswer(ch, b, a.axisNo, "TPC", p); }
    assert Answer(ch, b + 1) == Some(q1) by { NumberAnswer(ch, b + 1, a.axisNo, "TPE", e); }
    assert Answer(ch, b + 2) == Some(q2) by { StatusAnswer(ch, b + 2, a.axisNo, on); }
    RefreshFromAnswers(a, ch, b, now, p, e, on);
  }

  /** Answers carrying `p`, `e` and the status bits `on`, wherever they
      stand in the reply sequence, publish exactly those. */
  lemma RefreshFromAnswers(a: Axis, ch: Channel, b: nat, now: int, p: int, e: int, on: set<TasBit>)
    requires Answer(ch, b) == Some(QueryReply(a.axisNo, "TPC", IntToString(p)))
    requires Answer(ch, b + 1) == Some(QueryReply(a.axisNo, "TPE", IntToString(e)))
    requires Answer(ch, b + 2) == Some(QueryReply(a.axisNo, "TAS", TasText(on)))
    ensures var r := RefreshedAxis(a, ch, b, now);
            r.position == p && r.encoderPosition == e &&
            Flags(r) == DecodeTas(TasText(on), a.driveType, a.deferredMove)
  {
    PublishReadsAnswers(a, now, p, e, on);
    RefreshOfAnswers(a, ch, b, now, QueryReply(a.axisNo, "TPC", IntToString(p)),
                     QueryReply(a.axisNo, "TPE", IntToString(e)), QueryReply(a.axisNo, "TAS", TasText(on)));
  }

  /** The answer to a well-formed reply carrying a number. */
  lemma NumberAnswer(ch: Channel, k: nat, n: int, mnem: string, v: int)
    requires WellFormed(ch) && ch.link.connected && PlainText(mnem)
    requires Upcoming(ch, k).raw == Frame(QueryReply(n, mnem, IntToString(v)))
    ensures Answer(ch, k) == Some(QueryReply(n, mnem, IntToString(v)))
  {
    IntToStringPlain(v);
    QueryAnswer(ch, k, n, mnem, IntToString(v));
  }

  /** The answer to a well-formed reply carrying a status string. */
  lemma StatusAnswer(ch: Channel, k: nat, n: int, on: set<TasBit>)
    requires WellFormed(ch) && ch.link.connected
    requires Upcoming(ch, k).raw == Frame(QueryReply(n, "TAS", TasText(on)))
    ensures Answer(ch, k) == Some(QueryReply(n, "TAS", TasText(on)))
  {
    TasTextPlain(on);
    QueryAnswer(ch, k, n, "TAS", TasText(on));
  }

  lemma RefreshOfAnswers(a: Axis, ch: Channel, b: nat, now: int, q0: string, q1: string, q2: string)
    requires Answer(ch, b) == Some(q0) && Answer(ch, b + 1) == Some(q1) && Answer(ch, b + 2) == Some(q2)
    ensures RefreshedAxis(a, ch, b, now) == Publish(a, now, Some(q0), Some(q1), Some(q2))
  {
  }

  /** The poller's `poll`: axis 0 is never queried and reports success;
      another axis fails without a port user, setting its comms error
      status; otherwise it refreshes its status and tells the poller whether
      it is moving. */
  datatype PollResult = PollResult(ok: bool, moving: Option<bool>, axis: Axis, ch: Channel)

  function Poll(a: Axis, ch: Channel, now: int): (r: PollResult)
    ensures a.axisNo == 0 ==> r == PollResult(true, None, a, ch)
    ensures a.axisNo != 0 && !ch.link.connected ==>
              r == PollResult(false, None, a.(commsErrorStatus := true), ch)
    ensures a.axisNo != 0 && ch.link.connected ==>
              r.ok && r.moving == Some(!Flags(r.axis).done) &&
              r.axis == RefreshedAxis(a, ch, 0, now) &&
              r.ch.sent == ch.sent + StatusCommands(a.axisNo)
  {
    if a.axisNo == 0 then PollResult(true, None, a, ch)
    else if !ch.link.connected then PollResult(false, None, a.(commsErrorStatus := true), ch)
    else
      var s := GetAxisStatus(a, ch, now);
      PollResult(s.ok, Some(s.busy), s.axis, s.ch)
  }
}
