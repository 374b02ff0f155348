/** The status strings the controller reports: the axis status (`TAS`) and
    the system status (`TSS`). Each is 32 bits written as '0'/'1' characters
    in groups of four separated by '_'; a flag is set exactly when the
    character at its offset is '1'. Reading past the end of a status string
    sees the zeroed buffer, so such a flag reads as clear. */
module Status {
  import opened Wrappers
  import opened Strings

  const ON: char := '1'
  const OFF: char := '0'

  /** Characters in a full status string: 32 bits and 7 separators. */
  const STATUS_LENGTH: nat := 39

  /** Drive types reported by `AXSDEF`. */
  const STEPPER: int := 0
  const SERVO: int := 1

  /** The flag at offset `i` of a status buffer holding `s`. */
  predicate On(s: string, i: nat) {
    CharAt(s, i) == ON
  }

  // ---- System status ----------------------------------------------------

  /** The named bits of the system status string. */
  datatype TssBit = SystemReady | ProgRunning | Immediate | CmdError | MemError

  /** Character offset of each system status bit. */
  function TssOffset(b: TssBit): (i: nat)
    ensures i < STATUS_LENGTH && i % 5 != 4
  {
    match b
    case SystemReady => 0
    case ProgRunning => 2
    case Immediate => 3
    case CmdError => 12
    case MemError => 26
  }

  /** The system status bit at a character offset, if one is named there. */
  function TssBitAt(i: nat): (r: Option<TssBit>)
    ensures r.Some? ==> TssOffset(r.value) == i
  {
    if i == 0 then Some(SystemReady)
    else if i == 2 then Some(ProgRunning)
    else if i == 3 then Some(Immediate)
    else if i == 12 then Some(CmdError)
    else if i == 26 then Some(MemError)
    else None
  }

  /** The controller flags published from a `TSS` reply. */
  datatype SystemFlags = SystemFlags(systemReady: bool, progRunning: bool, immediate: bool,
                                     cmdError: bool, memError: bool)

  const SYSTEM_CLEAR := SystemFlags(false, false, false, false, false)

  /** The flags of a system status word, each read at its own offset. */
  function DecodeTss(s: string): SystemFlags {
    SystemFlags(On(s, TssOffset(SystemReady)), On(s, TssOffset(ProgRunning)),
                On(s, TssOffset(Immediate)), On(s, TssOffset(CmdError)),
                On(s, TssOffset(MemError)))
  }

  /** Character `i` of the status string with exactly the bits `on` set. */
  function TssChar(on: set<TssBit>, i: nat): char {
    if i % 5 == 4 then '_'
    else match TssBitAt(i)
      case Some(b) => if b in on then ON else OFF
      case None => OFF
  }

  /** The status string the controller sends with exactly the bits `on` set. */
  function TssText(on: set<TssBit>): (s: string)
    ensures |s| == STATUS_LENGTH
  {
    seq(STATUS_LENGTH, i requires 0 <= i => TssChar(on, i))
  }

  /** Decoding the text of a set of bits gives back exactly that set. */
  lemma DecodeTssText(on: set<TssBit>)
    ensures var f := DecodeTss(TssText(on));
            f.systemReady == (SystemReady in on) && f.progRunning == (ProgRunning in on) &&
            f.immediate == (Immediate in on) && f.cmdError == (CmdError in on) &&
            f.memError == (MemError in on)
  {
    var s := TssText(on);
    assert s[0] == (if SystemReady in on then ON else OFF);
    assert s[2] == (if ProgRunning in on then ON else OFF);
    assert s[3] == (if Immediate in on then ON else OFF);
    assert s[12] == (if CmdError in on then ON else OFF);
    assert s[26] == (if MemError in on then ON else OFF);
  }

  /** A failed or empty reply leaves the buffer zeroed: every flag clear. */
  lemma DecodeTssEmpty()
    ensures DecodeTss("") == SYSTEM_CLEAR
  {
  }

  // ---- Axis status ------------------------------------------------------

  /** The named bits of the axis status string. */
  datatype TasBit =
    | Moving | Direction | Accelerating | AtVelocity | Homed | Absolute | Continuous
    | Jog | Joystick | Stall | Drive | DriveFault | PosLim | NegLim | PosLimSoft
    | NegLimSoft | PosError | TargetZone | TargetTimeout | GoWhenPend | MovePend | Preempt

  /** Character offset of each axis status bit. */
  function TasOffset(b: TasBit): (i: nat)
    ensures i < STATUS_LENGTH && i % 5 != 4
  {
    match b
    case Moving => 0
    case Direction => 1
    case Accelerating => 2
    case AtVelocity => 3
    case Homed => 5
    case Absolute => 6
    case Continuous => 7
    case Jog => 8
    case Joystick => 10
    case Stall => 13
    case Drive => 15
    case DriveFault => 16
    case PosLim => 17
    case NegLim => 18
    case PosLimSoft => 20
    case NegLimSoft => 21
    case PosError => 27
    case TargetZone => 28
    case TargetTimeout => 30
    case GoWhenPend => 31
    case MovePend => 33
    case Preempt => 36
  }

  /** The axis status bit at a character offset, if one is named there. */
  function TasBitAt(i: nat): (r: Option<TasBit>)
    ensures r.Some? ==> TasOffset(r.value) == i
  {
    if i == 0 then Some(Moving)
    else if i == 1 then Some(Direction)
    else if i == 2 then Some(Accelerating)
    else if i == 3 then Some(AtVelocity)
    else if i == 5 then Some(Homed)
    else if i == 6 then Some(Absolute)
    else if i == 7 then Some(Continuous)
    else if i == 8 then Some(Jog)
    else if i == 10 then Some(Joystick)
    else if i == 13 then Some(Stall)
    else if i == 15 then Some(Drive)
    else if i == 16 then Some(DriveFault)
    else if i == 17 then Some(PosLim)
    else if i == 18 then Some(NegLim)
    else if i == 20 then Some(PosLimSoft)
    else if i == 21 then Some(NegLimSoft)
    else if i == 27 then Some(PosError)
    else if i == 28 then Some(TargetZone)
    else if i == 30 then Some(TargetTimeout)
    else if i == 31 then Some(GoWhenPend)
    else if i == 33 then Some(MovePend)
    else if i == 36 then Some(Preempt)
    else None
  }

  /** Distinct bits sit at distinct offsets. */
  lemma TasBitAtOffset(b: TasBit)
    ensures TasBitAt(TasOffset(b)) == Some(b)
  {
  }

  /** The motor status an axis poll publishes. `done` and `moving` are
      separate: `moving` is the raw moving bit, `done` the derived
      move-complete flag. */
  datatype AxisFlags = AxisFlags(
    done: bool, moving: bool, direction: bool, highLimit: bool, lowLimit: bool,
    homed: bool, powerOn: bool, followingError: bool, problem: bool)

  /** An axis status word as read, with whether a deferred move was staged
      when it was read: everything the published motor flags come from. */
  datatype TasReading = TasReading(text: string, deferred: bool)

  /** Move complete: never while a deferred move is staged; otherwise when
      the moving bit is clear, and for a servo only once it has settled in
      its target zone without a target timeout. */
  function DoneMoving(s: string, driveType: int, deferred: bool): (done: bool)
  {
    if deferred then false
    else if On(s, TasOffset(Moving)) then false
    else if driveType == SERVO then On(s, TasOffset(TargetZone)) && !On(s, TasOffset(TargetTimeout))
    else true
  }

  /** The flags of an axis status word. The limits are the hardware limit bits
      only; the following error is the position error bit for a servo and the
      stall bit otherwise; a problem is a drive fault, a target timeout or a
      position error, whatever the drive type. */
  function DecodeTas(s: string, driveType: int, deferred: bool): (f: AxisFlags)
  {
    AxisFlags(
      done := DoneMoving(s, driveType, deferred),
      moving := On(s, TasOffset(Moving)),
      direction := On(s, TasOffset(Direction)),
      highLimit := On(s, TasOffset(PosLim)),
      lowLimit := On(s, TasOffset(NegLim)),
      homed := On(s, TasOffset(Homed)),
      powerOn := On(s, TasOffset(Drive)),
      followingError := if driveType == SERVO then On(s, TasOffset(PosError)) else On(s, TasOffset(Stall)),
      problem := On(s, TasOffset(DriveFault)) || On(s, TasOffset(TargetTimeout)) || On(s, TasOffset(PosError)))
  }

  /** Character `i` of the status string with exactly the bits `on` set. */
  function TasChar(on: set<TasBit>, i: nat): char {
    if i % 5 == 4 then '_'
    else match TasBitAt(i)
      case Some(b) => if b in on then ON else OFF
      case None => OFF
  }

  /** The status string the controller sends with exactly the bits `on` set. */
  function TasText(on: set<TasBit>): (s: string)
    ensures |s| == STATUS_LENGTH
  {
    seq(STATUS_LENGTH, i requires 0 <= i => TasChar(on, i))
  }

  /** Each bit of the text of `on` reads as set exactly when it is in `on`. */
  lemma OnTasText(on: set<TasBit>, b: TasBit)
    ensures On(TasText(on), TasOffset(b)) <==> b in on
  {
    TasBitAtOffset(b);
  }

  /** The published flags in terms of the bits the controller reported. */
  lemma DecodeTasText(on: set<TasBit>, driveType: int, deferred: bool)
    ensures var f := DecodeTas(TasText(on), driveType, deferred);
            f.moving == (Moving in on) && f.direction == (Direction in on) &&
            f.highLimit == (PosLim in on) && f.lowLimit == (NegLim in on) &&
            f.homed == (Homed in on) && f.powerOn == (Drive in on) &&
            f.followingError == (if driveType == SERVO then PosError in on else Stall in on) &&
            f.problem == (DriveFault in on || TargetTimeout in on || PosError in on) &&
            f.done == (!deferred && Moving !in on &&
                       (driveType == SERVO ==> TargetZone in on && TargetTimeout !in on))
  {
    OnTasText(on, Moving);
    OnTasText(on, Direction);
    OnTasText(on, PosLim);
    OnTasText(on, NegLim);
    OnTasText(on, Homed);
    OnTasText(on, Drive);
    OnTasText(on, PosError);
    OnTasText(on, Stall);
    OnTasText(on, DriveFault);
    OnTasText(on, TargetZone);
    OnTasText(on, TargetTimeout);
  }

  /** The offsets the axis decode reads; all other bits, the soft limits
      among them, have no influence on the published flags. */
  function TasOffsetsRead(): set<nat> {
    {0, 1, 5, 13, 15, 16, 17, 18, 27, 28, 30}
  }

  /** Two status words that agree at the offsets read decode alike. */
  lemma DecodeTasLocal(a: string, b: string, driveType: int, deferred: bool)
    requires forall i :: i in TasOffsetsRead() ==> CharAt(a, i) == CharAt(b, i)
    ensures DecodeTas(a, driveType, deferred) == DecodeTas(b, driveType, deferred)
  {
    assert 0 in TasOffsetsRead() && 1 in TasOffsetsRead() && 5 in TasOffsetsRead();
    assert 13 in TasOffsetsRead() && 15 in TasOffsetsRead() && 16 in TasOffsetsRead();
    assert 17 in TasOffsetsRead() && 18 in TasOffsetsRead() && 27 in TasOffsetsRead();
    assert 28 in TasOffsetsRead() && 30 in TasOffsetsRead();
  }

  /** A failed or empty reply leaves the buffer zeroed: every flag clear; the
      move then counts as done only for a stepper with nothing staged. */
  lemma DecodeTasEmpty(driveType: int, deferred: bool)
    ensures DecodeTas("", driveType, deferred) ==
            AxisFlags(!deferred && driveType != SERVO, false, false, false, false, false, false, false, false)
  {
  }

  /** The published flags never contradict each other: a move reported done
      is not moving, and for a servo a following error is always a problem. */
  lemma DecodeTasConsistent(s: string, driveType: int, deferred: bool)
    ensures var f := DecodeTas(s, driveType, deferred);
            (f.done ==> !f.moving) && (driveType == SERVO && f.followingError ==> f.problem)
  {
  }

  /** A staged deferred move is never reported as done. */
  lemma DeferredNeverDone(s: string, driveType: int)
    ensures !DecodeTas(s, driveType, true).done
  {
  }
}
