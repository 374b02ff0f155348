/** The controller (`p6kController`): the axis table, the system status poll
    and the deferred-move coordinator that stages distances on every axis
    and starts them together with one GO command. */
module Controller {
  import opened Wrappers
  import opened Decimal
  import opened Scan
  import opened Protocol
  import opened Status
  import opened ErrorThrottle
  import opened Axis

  /** Axes a GO command can address; the staging mask has one more entry,
      index 0, which GO never prints. */
  const MAX_AXES: nat := 8

  /** The controller error text after a failed and a successful GO. */
  const DEFERRED_MOVE_FAILED: string := "ERROR: Deferred Move Failed"
  const NO_ERROR: string := " "

  /** The controller state the modelled operations read or write: the axis
      table (an absent axis is a null entry), whether moves are being
      deferred, the error throttle of the controller poller, the published
      system flags and the controller error text. */
  datatype Controller = Controller(
    axes: seq<Option<Axis>>,
    movesDeferred: bool,
    throttle: Throttle,
    system: SystemFlags,
    errorText: string)

  /** `getAxis(int)`: the axis at an index of the axis table, nothing
      outside the table. */
  function GetAxis(axes: seq<Option<Axis>>, i: int): (r: Option<Axis>)
    ensures r.Some? ==> 0 <= i < |axes| && axes[i] == r
    ensures (i < 0 || i >= |axes|) ==> r.None?
    ensures 0 <= i < |axes| ==> r == axes[i]
  {
    if i < 0 || i >= |axes| then None else axes[i]
  }

  // ---- Controller poll ----------------------------------------------------

  /** The system status query. */
  const TSS: string := "TSS"

  /** The status of a controller poll, whether it printed an error, the
      controller after it and the channel. */
  datatype SystemPoll = SystemPoll(ok: bool, reported: bool, c: Controller, ch: Channel)

  /** `poll`: without a port user fail at once and change nothing. Otherwise
      run the throttle check, query TSS and, when the query succeeded, publish
      the flags of the word after `TSS` (all clear when it does not scan).
      The comms flag and the forced-report flag then both follow the status,
      and an error is reported only when the poll failed and the throttle
      allows it. */
  function Poll(c: Controller, ch: Channel, now: int): (r: SystemPoll)
    ensures !ch.link.connected ==> r == SystemPoll(false, false, c, ch)
    ensures ch.link.connected ==>
              var d := Check(c.throttle, now);
              r.ok == Succeeds(ch, 0) &&
              r.ch.sent == ch.sent + [TSS] && r.ch.replies == ch.replies && r.ch.link.connected &&
              r.ch.link.commsError == (if r.ok then OK else ERROR) &&
              r.c.throttle == Throttle(d.next.lastTimeSecs, r.ok) &&
              (r.reported <==> !r.ok && d.report) &&
              r.c.system == (if r.ok then DecodeTss(ScanPrefixedWord(Pending(ch, 0).response, TSS).GetOr(""))
                             else c.system) &&
              r.c == c.(throttle := r.c.throttle, system := r.c.system)
  {
    if !ch.link.connected then SystemPoll(false, false, c, ch)
    else
      var d := Check(c.throttle, now);
      var x := WriteRead(ch, TSS);
      var stat := x.ok;
      var word := if stat then ScanPrefixedWord(x.response, TSS).GetOr("") else "";
      var system := if stat then DecodeTss(word) else c.system;
      var link := x.ch.link.(commsError := if stat then OK else ERROR);
      SystemPoll(stat, !stat && d.report,
                 c.(throttle := d.next.(printNextError := stat), system := system),
                 x.ch.(link := link))
  }

  /** A well-formed TSS reply publishes exactly the reported system bits. */
  lemma PollReadsReply(c: Controller, ch: Channel, now: int, on: set<TssBit>)
    requires WellFormed(ch) && ch.link.connected
    requires Upcoming(ch, 0).raw == Frame(TSS + TssText(on))
    ensures var r := Poll(c, ch, now);
            r.ok && r.c.system.systemReady == (SystemReady in on) &&
            r.c.system.progRunning == (ProgRunning in on) && r.c.system.immediate == (Immediate in on) &&
            r.c.system.cmdError == (CmdError in on) && r.c.system.memError == (MemError in on)
  {
    var text := TssText(on);
    assert PlainText(TSS + text) && forall i :: 0 <= i < |text| ==> !IsSpace(text[i]) by {
      forall i | 0 <= i < |TSS + text| ensures PlainChar((TSS + text)[i]) {
        if i >= 3 { assert (TSS + text)[i] == text[i - 3]; }
      }
    }
    PendingClassifies(ch, 0);
    ClassifyFrame(TSS + text);
    ScanPrefixedWordRoundTrip(TSS, text);
    DecodeTssText(on);
  }

  /** A failed poll keeps the published flags; the next failure after a
      successful poll is reported whatever the time, because a success
      forces the next report. */
  lemma FailureAfterSuccessReported(c: Controller, ch: Channel, now: int, later: int)
    requires ch.link.connected && Succeeds(ch, 0)
    ensures var r1 := Poll(c, ch, now);
            var r2 := Poll(r1.c, r1.ch, later);
            !r2.ok ==> r2.reported && r2.c.system == r1.c.system
  {
  }

  // ---- Deferred moves -----------------------------------------------------

  /** Axis `i` has a staged deferred move. */
  predicate Staged(axes: seq<Option<Axis>>, i: int) {
    GetAxis(axes, i).Some? && GetAxis(axes, i).value.deferredMove
  }

  /** The distance command of a staged axis: its number and staged
      position. */
  function StagedCommand(a: Axis): string {
    DistanceCommand(a.axisNo, a.deferredPosition)
  }

  /** The distance command of a staged axis reads back as its staged
      position, printed as a signed 32-bit value. */
  lemma StagedDistanceReadBack(a: Axis)
    ensures ScanIndexedInt(StagedCommand(a), "D") == Some(AsInt32(a.deferredPosition))
  {
    ScanIndexedIntRoundTrip(a.axisNo, "D", AsInt32(a.deferredPosition));
  }

  /** The distance commands of the staged axes from index `i` on, in index
      order, each carrying the axis number and its staged position. */
  function StagedCommandsFrom(axes: seq<Option<Axis>>, i: nat): (r: seq<string>)
    requires i <= |axes|
    ensures |r| <= |axes| - i
    decreases |axes| - i
  {
    if i == |axes| then []
    else
      (if Staged(axes, i) then [StagedCommand(axes[i].value)] else [])
      + StagedCommandsFrom(axes, i + 1)
  }

  function StagedCommands(axes: seq<Option<Axis>>): seq<string> {
    StagedCommandsFrom(axes, 0)
  }

  /** The staging mask: entry `j` is set exactly when axis `j` is staged. */
  function MaskOf(axes: seq<Option<Axis>>): (m: seq<bool>)
    ensures |m| == MAX_AXES + 1
    ensures forall j :: 0 <= j <= MAX_AXES ==> (m[j] <==> Staged(axes, j))
  {
    seq(MAX_AXES + 1, j requires 0 <= j => Staged(axes, j))
  }

  /** `"GO"` followed by the mask entries 1 to 8 as digits. */
  function FireCommand(mask: seq<bool>): (s: string)
    requires |mask| == MAX_AXES + 1
    ensures |s| == 2 + MAX_AXES
  {
    "GO" + seq(MAX_AXES, j requires 0 <= j < MAX_AXES => if mask[j + 1] then '1' else '0')
  }

  /** The GO command starts with `"GO"`, and character `j + 1` is the digit
      of mask entry `j` for each axis 1 to 8; mask entry 0 is not sent. */
  lemma FireCommandLayout(mask: seq<bool>)
    requires |mask| == MAX_AXES + 1
    ensures var s := FireCommand(mask);
            s[..2] == "GO" &&
            forall j :: 1 <= j <= MAX_AXES ==> s[j + 1] == (if mask[j] then '1' else '0')
  {
  }

  /** The state of the staging loop: the accumulated status, the mask and
      the channel. */
  datatype Staging = Staging(stat: bool, mask: seq<bool>, ch: Channel)

  /** Every one of the next `n` commands will succeed. */
  predicate AllSucceed(ch: Channel, n: nat) {
    forall k :: 0 <= k < n ==> Succeeds(ch, k)
  }

  /** The next `n + 1` commands all succeed exactly when the first does and
      the `n` after it do. */
  lemma AllSucceedStep(ch: Channel, cmd: string, n: nat)
    ensures AllSucceed(ch, n + 1) <==> Succeeds(ch, 0) && AllSucceed(WriteRead(ch, cmd).ch, n)
  {
    var x := WriteRead(ch, cmd);
    forall k | 0 <= k < n ensures Succeeds(x.ch, k) == Succeeds(ch, k + 1) {
      PendingAfter(ch, cmd, k);
    }
    if Succeeds(ch, 0) && AllSucceed(x.ch, n) {
      forall k | 0 <= k < n + 1 ensures Succeeds(ch, k) {
        if k > 0 { assert Succeeds(x.ch, k - 1); }
      }
    }
  }

  /** The staging loop from index `i`: write the distance of every staged
      axis, whatever the replies, fold each status into `stat`, and mark the
      axis in the mask when its index is within the mask. What it writes,
      its status and its mask are stated by `StageFromSent`,
      `StageFromStatus` and `StageFromMask`. */
  function StageFrom(axes: seq<Option<Axis>>, i: nat, st: Staging): (r: Staging)
    requires i <= |axes| && |st.mask| == MAX_AXES + 1
    ensures |r.mask| == MAX_AXES + 1
    ensures r.ch.replies == st.ch.replies && r.ch.link.connected == st.ch.link.connected
    decreases |axes| - i
  {
    if i == |axes| then st
    else if !Staged(axes, i) then StageFrom(axes, i + 1, st)
    else StageFrom(axes, i + 1, StageOne(axes, i, st))
  }

  /** The state after writing the distance of the staged axis `i`. */
  function StageOne(axes: seq<Option<Axis>>, i: nat, st: Staging): (r: Staging)
    requires Staged(axes, i) && |st.mask| == MAX_AXES + 1
    ensures |r.mask| == MAX_AXES + 1
    ensures r.ch == Transmit(st.ch, StagedCommand(axes[i].value))
    ensures r.stat == (Succeeds(st.ch, 0) && st.stat)
  {
    var x := WriteRead(st.ch, StagedCommand(axes[i].value));
    Staging(x.ok && st.stat, if i <= MAX_AXES then st.mask[i := true] else st.mask, x.ch)
  }

  /** The staging mask gains exactly the staged axes from index `i` on that
      it can hold. */
  lemma {:induction false} StageFromMask(axes: seq<Option<Axis>>, i: nat, st: Staging)
    requires i <= |axes| && |st.mask| == MAX_AXES + 1
    ensures var r := StageFrom(axes, i, st);
            forall j :: 0 <= j <= MAX_AXES ==> (r.mask[j] <==> st.mask[j] || (i <= j && Staged(axes, j)))
    decreases |axes| - i
  {
    if i < |axes| {
      if !Staged(axes, i) {
        StageFromMask(axes, i + 1, st);
      } else {
        StageFromMask(axes, i + 1, StageOne(axes, i, st));
      }
    }
  }

  /** The staging loop writes the distance commands of the staged axes from
      index `i` on, in order, whatever the replies. */
  lemma {:induction false} StageFromSent(axes: seq<Option<Axis>>, i: nat, st: Staging)
    requires i <= |axes| && |st.mask| == MAX_AXES + 1
    ensures StageFrom(axes, i, st).ch.sent == st.ch.sent + Emitted(st.ch, StagedCommandsFrom(axes, i))
    decreases |axes| - i
  {
    if i < |axes| {
      if !Staged(axes, i) {
        StageFromSent(axes, i + 1, st);
      } else {
        var next := StageOne(axes, i, st);
        StageFromSent(axes, i + 1, next);
        EmittedAppend(st.ch, [StagedCommand(axes[i].value)], StagedCommandsFrom(axes, i + 1));
      }
    }
  }

  /** The status of the staging loop holds exactly when it held before and
      every distance command it writes succeeds. */
  lemma {:induction false} StageFromStatus(axes: seq<Option<Axis>>, i: nat, st: Staging)
    requires i <= |axes| && |st.mask| == MAX_AXES + 1
    ensures StageFrom(axes, i, st).stat <==> st.stat && AllSucceed(st.ch, |StagedCommandsFrom(axes, i)|)
    decreases |axes| - i
  {
    if i < |axes| {
      if !Staged(axes, i) {
        StageFromStatus(axes, i + 1, st);
      } else {
        StageFromStatus(axes, i + 1, StageOne(axes, i, st));
        AllSucceedStep(st.ch, StagedCommand(axes[i].value), |StagedCommandsFrom(axes, i + 1)|);
      }
    }
  }

  /** Drop every staged deferred move; nothing else about the axes changes. */
  function ClearDeferred(axes: seq<Option<Axis>>): (r: seq<Option<Axis>>)
    ensures |r| == |axes|
    ensures forall i :: 0 <= i < |axes| ==> r[i] == (match axes[i]
                                                     case None => None
                                                     case Some(a) => Some(a.(deferredMove := false)))
  {
    seq(|axes|, i requires 0 <= i < |axes| =>
      match axes[i]
      case None => None
      case Some(a) => Some(a.(deferredMove := false)))
  }

  /** The status of a deferred-move request, the controller after it and
      the channel. */
  datatype Deferral = Deferral(ok: bool, c: Controller, ch: Channel)

  /** `setDeferredMoves`: a request to defer, or any request while not
      deferring, arms deferral and sends nothing. A request to stop
      deferring fires: the distance of every staged axis is written, then,
      only if all of those succeeded, one GO command carrying the staging
      mask; the error text records whether GO succeeded. Whatever happened,
      every staged move is dropped and deferral ends. */
  function SetDeferredMoves(c: Controller, ch: Channel, deferMoves: bool): (r: Deferral)
    ensures deferMoves || !c.movesDeferred ==> r == Deferral(true, c.(movesDeferred := true), ch)
    ensures !deferMoves && c.movesDeferred ==>
              var cmds := StagedCommands(c.axes);
              var staged := AllSucceed(ch, |cmds|);
              r.ch.sent == ch.sent + Emitted(ch, cmds + (if staged then [FireCommand(MaskOf(c.axes))] else [])) &&
              r.ch.replies == ch.replies && r.ch.link.connected == ch.link.connected &&
              (r.ok <==> staged && Succeeds(ch, |cmds|)) &&
              r.c.errorText == (if !staged then c.errorText
                                else if Succeeds(ch, |cmds|) then NO_ERROR else DEFERRED_MOVE_FAILED) &&
              r.c == c.(axes := ClearDeferred(c.axes), movesDeferred := false, errorText := r.c.errorText)
  {
    if deferMoves || !c.movesDeferred then Deferral(true, c.(movesDeferred := true), ch)
    else
      var st0 := Staging(true, seq(MAX_AXES + 1, _ => false), ch);
      var st := StageFrom(c.axes, 0, st0);
      StageFromMask(c.axes, 0, st0);
      StageFromSent(c.axes, 0, st0);
      StageFromStatus(c.axes, 0, st0);
      assert st.mask == MaskOf(c.axes);
      var cmds := StagedCommands(c.axes);
      var cleared := c.(axes := ClearDeferred(c.axes), movesDeferred := false);
      if !st.stat then
        assert cmds + [] == cmds;
        Deferral(false, cleared, st.ch)
      else
        var x := WriteRead(st.ch, FireCommand(st.mask));
        SucceedsShift(ch, st.ch, |cmds|, 0);
        Deferral(x.ok, cleared.(errorText := if x.ok then NO_ERROR else DEFERRED_MOVE_FAILED), x.ch)
  }

  /** Digit `j` of the GO command is 1 exactly when axis `j` is staged, for
      the axes 1 to 8 it can address. */
  lemma FireCommandMask(axes: seq<Option<Axis>>, j: nat)
    requires 1 <= j <= MAX_AXES
    ensures FireCommand(MaskOf(axes))[j + 1] == (if Staged(axes, j) then '1' else '0')
  {
  }

  /** After a fire no axis has a staged move, whatever the replies. */
  lemma FireClearsAll(c: Controller, ch: Channel)
    requires c.movesDeferred
    ensures var r := SetDeferredMoves(c, ch, false);
            !r.c.movesDeferred && forall i :: 0 <= i < |r.c.axes| ==> !Staged(r.c.axes, i)
  {
  }

  /** A staging failure suppresses GO: only the distance commands are
      written and the request fails. */
  lemma StagingFailureSuppressesGo(c: Controller, ch: Channel, k: nat)
    requires c.movesDeferred && ch.link.connected
    requires k < |StagedCommands(c.axes)| && !Succeeds(ch, k)
    ensures var r := SetDeferredMoves(c, ch, false);
            !r.ok && r.ch.sent == ch.sent + StagedCommands(c.axes) && r.c.errorText == c.errorText
  {
    var cmds := StagedCommands(c.axes);
    assert !AllSucceed(ch, |cmds|);
    assert cmds + [] == cmds;
  }

  /** With no staged axis a fire writes only `GO00000000`. */
  lemma FireNothingStaged(c: Controller, ch: Channel)
    requires c.movesDeferred && ch.link.connected
    requires forall i :: 0 <= i < |c.axes| ==> !Staged(c.axes, i)
    ensures SetDeferredMoves(c, ch, false).ch.sent == ch.sent + ["GO00000000"]
  {
    NoStagedCommands(c.axes, 0);
    var m := MaskOf(c.axes);
    forall j | 0 <= j <= MAX_AXES ensures !m[j] {
      assert !Staged(c.axes, j);
    }
    assert FireCommand(m) == "GO00000000";
  }

  /** Axes without a staged move contribute no distance command. */
  lemma {:induction false} NoStagedCommands(axes: seq<Option<Axis>>, i: nat)
    requires i <= |axes|
    requires forall j :: i <= j < |axes| ==> !Staged(axes, j)
    ensures StagedCommandsFrom(axes, i) == []
    decreases |axes| - i
  {
    if i < |axes| {
      NoStagedCommands(axes, i + 1);
    }
  }

  /** Arming is idempotent, and a disarm request while not armed arms. */
  lemma ArmIdempotent(c: Controller, ch: Channel, deferMoves: bool)
    requires !c.movesDeferred
    ensures var r := SetDeferredMoves(c, ch, deferMoves);
            r.ok && r.c.movesDeferred && r.ch == ch &&
            SetDeferredMoves(r.c, ch, true) == r
  {
  }

  // ---- Axis commands through the controller -------------------------------

  /** `move` dispatched to an existing axis of the table: it sees the
      controller's deferral flag, and no other axis and no controller field
      changes. */
  function MoveAxis(c: Controller, ch: Channel, i: nat, position: real, relative: int,
                    minVelocity: real, maxVelocity: real, acceleration: real): (r: Deferral)
    requires GetAxis(c.axes, i).Some?
    ensures |r.c.axes| == |c.axes| && r.c == c.(axes := r.c.axes)
    ensures forall j :: 0 <= j < |c.axes| && j != i ==> r.c.axes[j] == c.axes[j]
    ensures var m := Move(c.axes[i].value, c.movesDeferred, ch, position, relative, minVelocity, maxVelocity, acceleration);
            r.c.axes[i] == Some(m.axis) && r.ok == m.ok && r.ch == m.ch
  {
    var m := Move(c.axes[i].value, c.movesDeferred, ch, position, relative, minVelocity, maxVelocity, acceleration);
    Deferral(m.ok, c.(axes := c.axes[i := Some(m.axis)]), m.ch)
  }

  /** `stop` dispatched to an existing axis of the table; nothing else changes. */
  function StopAxis(c: Controller, ch: Channel, i: nat): (r: Deferral)
    requires GetAxis(c.axes, i).Some?
    ensures |r.c.axes| == |c.axes| && r.c == c.(axes := r.c.axes)
    ensures forall j :: 0 <= j < |c.axes| && j != i ==> r.c.axes[j] == c.axes[j]
    ensures var s := Stop(c.axes[i].value, ch);
            r.c.axes[i] == Some(s.axis) && r.ok == s.ok && r.ch == s.ch
  {
    var s := Stop(c.axes[i].value, ch);
    Deferral(s.ok, c.(axes := c.axes[i := Some(s.axis)]), s.ch)
  }

  /** Arm, stage, fire: a move made while armed is not sent but staged, and
      the fire that follows writes its distance and marks its index in the
      GO command. */
  lemma ArmStageFire(c: Controller, ch: Channel, i: nat, position: real, relative: int,
                     minVelocity: real, maxVelocity: real, acceleration: real)
    requires 1 <= i <= MAX_AXES && GetAxis(c.axes, i).Some?
    ensures var armed := SetDeferredMoves(c, ch, true);
            var moved := MoveAxis(armed.c, armed.ch, i, position, relative, minVelocity, maxVelocity, acceleration);
            var a := moved.c.axes[i].value;
            Staged(moved.c.axes, i) && a.deferredPosition == ToUInt32(position) &&
            FireCommand(MaskOf(moved.c.axes))[i + 1] == '1' &&
            DistanceCommand(a.axisNo, ToUInt32(position)) in StagedCommands(moved.c.axes)
  {
    var armed := SetDeferredMoves(c, ch, true);
    var moved := MoveAxis(armed.c, armed.ch, i, position, relative, minVelocity, maxVelocity, acceleration);
    FireCommandMask(moved.c.axes, i);
    StagedCommandListed(moved.c.axes, 0, i);
  }

  /** A staged axis at or after `i` has its distance command in the list. */
  lemma {:induction false} StagedCommandListed(axes: seq<Option<Axis>>, i: nat, j: nat)
    requires i <= j < |axes| && Staged(axes, j)
    ensures StagedCommand(axes[j].value) in StagedCommandsFrom(axes, i)
    decreases j - i
  {
    if i < j {
      StagedCommandListed(axes, i + 1, j);
    }
  }

  /** Every command in the list belongs to a staged axis at or after `i`. */
  lemma {:induction false} StagedCommandsOnlyStaged(axes: seq<Option<Axis>>, i: nat, c: string)
    requires i <= |axes| && c in StagedCommandsFrom(axes, i)
    ensures exists j :: i <= j < |axes| && Staged(axes, j) && c == StagedCommand(axes[j].value)
    decreases |axes| - i
  {
    if i < |axes| {
      if Staged(axes, i) && c == StagedCommand(axes[i].value) {
      } else {
        StagedCommandsOnlyStaged(axes, i + 1, c);
      }
    }
  }

  /** After clearing, nothing is staged: a fire would write no distance and
      an all-zero GO mask, and clearing again changes nothing. */
  lemma ClearDeferredUnstages(axes: seq<Option<Axis>>)
    ensures var r := ClearDeferred(axes);
            ClearDeferred(r) == r && StagedCommands(r) == [] &&
            forall j :: 0 <= j <= MAX_AXES ==> !MaskOf(r)[j]
  {
    var r := ClearDeferred(axes);
    forall j | 0 <= j < |r| ensures !Staged(r, j) {
    }
    NoStagedCommands(r, 0);
  }

  /** A stop after staging drops the axis from the next fire. */
  lemma StopUnstages(c: Controller, ch: Channel, i: nat)
    requires GetAxis(c.axes, i).Some?
    ensures var s := StopAxis(c, ch, i);
            !Staged(s.c.axes, i) && (i <= MAX_AXES ==> !MaskOf(s.c.axes)[i])
  {
  }
}
