/** One command/reply transaction with the controller (`lowLevelWriteRead`)
    and the classification of the raw reply into an error frame or a normal
    frame (`errorResponse`, `trimResponse`).

    The transport is replaced by a reply oracle: the k-th command actually
    written is answered by the k-th entry of `replies`. */
module Protocol {
  import opened Wrappers
  import opened Strings

  /** Values of the controller-wide comms error parameter. */
  const OK: int := 0
  const ERROR: int := 1

  /** The reply of an error frame ends at this prompt. */
  const ERROR_TRAILER: char := '?'
  /** The payload of a reply follows this character. */
  const HEADER: char := '*'
  /** A normal reply ends with this trailer ... */
  const TRAILER: string := "\r\r\n"
  /** ... or, failing that, with this one. */
  const SMALL_TRAILER: string := "\r\n"

  // ---- Classification -------------------------------------------------------

  /** What the search for an error frame finds in a received buffer. */
  datatype ErrorScan =
    | ErrorFrame(text: string)    // a '*' before the first '?': the text between them
    | NotError(buffer: string)    // otherwise: the buffer, cut at the first '?' if any

  /** `errorResponse`: cut the buffer at the first '?'; if that leaves a '*',
      the frame is an error and its text follows the first '*'. The cut is
      made even when no '*' is found. A buffer is an error frame exactly
      when a '*' comes before its first '?'; neither the error text nor the
      remaining buffer holds a '?'. */
  function ErrorResponse(buf: string): (r: ErrorScan)
    ensures r.ErrorFrame? <==>
              exists q :: 0 <= q < |buf| && buf[q] == ERROR_TRAILER &&
                          Free(buf[..q], ERROR_TRAILER) && !Free(buf[..q], HEADER)
    ensures r.ErrorFrame? ==> Free(r.text, ERROR_TRAILER)
    ensures r.NotError? ==> r.buffer <= buf && Free(r.buffer, ERROR_TRAILER)
  {
    FindCharFirst(buf, ERROR_TRAILER);
    match FindChar(buf, ERROR_TRAILER)
    case None => NotError(buf)
    case Some(q) =>
      var cut := buf[..q];
      FindCharFirst(cut, HEADER);
      match FindChar(cut, HEADER)
      case None => NotError(cut)
      case Some(h) => ErrorFrame(cut[h + 1..])
  }

  /** A buffer that is not an error frame is cut just before its first '?',
      or kept whole when it has none. */
  lemma ErrorResponseCut(buf: string)
    requires ErrorResponse(buf).NotError?
    ensures var b := ErrorResponse(buf).buffer;
            b <= buf && Free(b, ERROR_TRAILER) && (|b| < |buf| ==> buf[|b|] == ERROR_TRAILER)
  {
    FindCharFirst(buf, ERROR_TRAILER);
  }

  /** The status and response text of one transaction. */
  datatype Outcome = Outcome(ok: bool, response: string)

  /** The buffer cut at the first `"\r\r\n"`, else at the first `"\r\n"`;
      `None` when neither trailer is present, which is exactly when no
      `"\r\n"` occurs at all. The cut is a prefix of the buffer. */
  function CutTrailer(buf: string): (r: Option<string>)
    ensures r.Some? <==> exists j :: MatchAt(buf, SMALL_TRAILER, j)
    ensures r.Some? ==> r.value <= buf
  {
    TrailerFound(buf);
    match Find(buf, TRAILER)
    case Some(k) => Some(buf[..k])
    case None =>
      match Find(buf, SMALL_TRAILER)
      case Some(k) => Some(buf[..k])
      case None => None
  }

  /** One of the two trailers is found exactly when `"\r\n"` occurs: the
      full trailer contains the short one. */
  lemma TrailerFound(buf: string)
    ensures Find(buf, TRAILER).Some? || Find(buf, SMALL_TRAILER).Some? <==>
            exists j :: MatchAt(buf, SMALL_TRAILER, j)
  {
    FindFirst(buf, TRAILER);
    FindFirst(buf, SMALL_TRAILER);
    match Find(buf, TRAILER)
    case Some(k) =>
      assert buf[k + 1..k + 3] == buf[k..k + 3][1..];
      assert MatchAt(buf, SMALL_TRAILER, k + 1);
    case None =>
  }

  /** The text after the first '*', or empty when there is none. */
  function Payload(body: string): (p: string)
    ensures |p| <= |body|
    ensures Free(body, HEADER) ==> p == ""
    ensures !Free(body, HEADER) ==>
              var h := |body| - |p| - 1;
              0 <= h && body[h] == HEADER && Free(body[..h], HEADER) && p == body[h + 1..]
  {
    FindCharFirst(body, HEADER);
    match FindChar(body, HEADER)
    case Some(h) => body[h + 1..]
    case None => ""
  }

  /** `trimResponse`: the status says only whether a trailer was found, that
      is whether `"\r\n"` occurs; the payload is taken from the cut buffer,
      or from the whole buffer when no trailer was found, and stays empty
      when the buffer has no '*'. */
  function TrimResponse(buf: string): (r: Outcome)
    ensures r.ok <==> exists j :: MatchAt(buf, SMALL_TRAILER, j)
    ensures Free(buf, HEADER) ==> r.response == ""
  {
    var cut := CutTrailer(buf);
    assert cut.Some? && Free(buf, HEADER) ==> Free(cut.value, HEADER) by {
      if cut.Some? && Free(buf, HEADER) { FreePrefix(cut.value, buf, HEADER); }
    }
    Outcome(cut.Some?, Payload(cut.GetOr(buf)))
  }

  /** The classification `lowLevelWriteRead` applies to a received buffer:
      the buffer is read as a C string, the error search always runs first,
      and an error frame always fails with its text as the response. The
      response never holds a '?', and a success needs a `"\r\n"` before the
      first NUL. */
  function Classify(raw: string): (r: Outcome)
    ensures Free(r.response, ERROR_TRAILER)
    ensures r.ok ==> exists j :: MatchAt(CString(raw), SMALL_TRAILER, j)
  {
    match ErrorResponse(CString(raw))
    case ErrorFrame(t) => Outcome(false, t)
    case NotError(b) =>
      var r := TrimResponse(b);
      ClassifyTrim(CString(raw), b);
      r
  }

  /** The trim of the part of a C string before its first '?'. */
  lemma ClassifyTrim(c: string, b: string)
    requires b <= c && Free(b, ERROR_TRAILER)
    ensures Free(TrimResponse(b).response, ERROR_TRAILER)
    ensures TrimResponse(b).ok ==> exists j :: MatchAt(c, SMALL_TRAILER, j)
  {
    var cut := CutTrailer(b);
    var body := cut.GetOr(b);
    FreePrefix(body, b, ERROR_TRAILER);
    var p := Payload(body);
    assert p == body[|body| - |p|..];
    if cut.Some? {
      var j :| MatchAt(b, SMALL_TRAILER, j);
      MatchPrefix(b, c, SMALL_TRAILER, j);
    }
  }

  // ---- Frame shapes -------------------------------------------------------

  /** An error frame: any text without '*' or '?', then '*', the error text
      (no '?'), the prompt '?', and anything at all. Its payload is exactly
      the text strictly between the first '*' and the first '?'. */
  lemma ErrorFrameShape(pre: string, text: string, tail: string)
    requires Free(pre, HEADER) && Free(pre, ERROR_TRAILER) && Free(text, ERROR_TRAILER)
    ensures ErrorResponse(pre + "*" + text + "?" + tail) == ErrorFrame(text)
  {
    var buf := pre + "*" + text + "?" + tail;
    var q := |pre| + 1 + |text|;
    assert buf[..q] == pre + "*" + text;
    assert Free(buf[..q], ERROR_TRAILER);
    FindCharAt(buf, ERROR_TRAILER, q);
    var cut := buf[..q];
    assert cut[..|pre|] == pre;
    FindCharAt(cut, HEADER, |pre|);
    assert cut[|pre| + 1..] == text;
  }

  /** Conversely every error frame has that shape. */
  lemma ErrorFrameParts(buf: string) returns (pre: string, tail: string)
    requires ErrorResponse(buf).ErrorFrame?
    ensures var text := ErrorResponse(buf).text;
            buf == pre + "*" + text + "?" + tail &&
            Free(pre, HEADER) && Free(pre, ERROR_TRAILER) && Free(text, ERROR_TRAILER)
  {
    var q := FindChar(buf, ERROR_TRAILER).value;
    var cut := buf[..q];
    var h := FindChar(cut, HEADER).value;
    FindCharFirst(buf, ERROR_TRAILER);
    FindCharFirst(cut, HEADER);
    var text := cut[h + 1..];
    pre := cut[..h];
    tail := buf[q + 1..];
    assert Free(pre, ERROR_TRAILER) by {
      forall i | 0 <= i < |pre| ensures pre[i] != ERROR_TRAILER {
        assert pre[i] == cut[i];
      }
    }
    assert Free(text, ERROR_TRAILER) by {
      forall i | 0 <= i < |text| ensures text[i] != ERROR_TRAILER {
        assert text[i] == cut[h + 1 + i];
      }
    }
    assert cut == pre + "*" + text;
    assert buf == cut + "?" + tail;
  }

  /** A '?' with no '*' before it is not an error, but the buffer is still
      cut at the '?'. */
  lemma PromptWithoutHeader(pre: string, tail: string)
    requires Free(pre, HEADER) && Free(pre, ERROR_TRAILER)
    ensures ErrorResponse(pre + "?" + tail) == NotError(pre)
  {
    var buf := pre + "?" + tail;
    assert buf[..|pre|] == pre;
    FindCharAt(buf, ERROR_TRAILER, |pre|);
  }

  /** A normal frame: a payload without carriage return after a '*', then
      the full trailer. */
  lemma TrimShape(pre: string, p: string, tail: string)
    requires Free(pre, HEADER) && Free(pre, '\r') && Free(p, '\r')
    ensures TrimResponse(pre + "*" + p + TRAILER + tail) == Outcome(true, p)
  {
    var buf := pre + "*" + p + TRAILER + tail;
    var k := |pre| + 1 + |p|;
    assert buf[k..k + 3] == TRAILER;
    assert forall j :: 0 <= j < k ==> buf[j] != '\r' by {
      forall j | 0 <= j < k ensures buf[j] != '\r' {
        if j < |pre| { assert buf[j] == pre[j]; }
        else if j > |pre| { assert buf[j] == p[j - |pre| - 1]; }
      }
    }
    FindAt(buf, TRAILER, k);
    var body := buf[..k];
    assert body == pre + "*" + p;
    assert body[..|pre|] == pre;
    FindCharAt(body, HEADER, |pre|);
    assert body[|pre| + 1..] == p;
  }

  /** No full trailer starts where two carriage returns do not follow each
      other. */
  lemma NoTrailerAt(buf: string, j: nat)
    requires j + 2 < |buf| ==> !(buf[j] == '\r' && buf[j + 1] == '\r')
    ensures !MatchAt(buf, TRAILER, j)
  {
    if j + 3 <= |buf| {
      assert buf[j..j + 3][0] == buf[j] && buf[j..j + 3][1] == buf[j + 1];
    }
  }

  /** In text where no carriage return is followed by another or ends the
      text, the first full trailer is the one appended to it. */
  lemma FirstTrailerAfter(body: string, tail: string)
    requires forall i :: 0 <= i < |body| && body[i] == '\r' ==> i + 1 < |body| && body[i + 1] != '\r'
    ensures Find(body + TRAILER + tail, TRAILER) == Some(|body|)
  {
    var buf := body + TRAILER + tail;
    var k := |body|;
    assert buf[k..k + 3] == TRAILER;
    forall j | 0 <= j < k ensures !MatchAt(buf, TRAILER, j) {
      assert buf[j] == body[j];
      if j + 1 < k { assert buf[j + 1] == body[j + 1]; }
      NoTrailerAt(buf, j);
    }
    FindFirstMatch(buf, TRAILER, k);
  }

  /** The first full trailer decides the cut, even when a `"\r\n"` comes
      before it: the status is a success and the payload is taken from the
      text before that trailer. */
  lemma TrimAtFullTrailer(buf: string, k: nat)
    requires Find(buf, TRAILER) == Some(k)
    ensures TrimResponse(buf) == Outcome(true, Payload(buf[..k]))
  {
  }

  /** With no full trailer anywhere, the first `"\r\n"` decides the cut and
      the trim succeeds, whatever else the buffer holds. */
  lemma TrimAtShortTrailer(buf: string, k: nat)
    requires Find(buf, TRAILER) == None && Find(buf, SMALL_TRAILER) == Some(k)
    ensures TrimResponse(buf) == Outcome(true, Payload(buf[..k]))
  {
  }

  /** A payload that carries a `"\r\n"` of its own, followed by the full
      trailer: the earlier short trailer does not cut it. */
  lemma TrimFullTrailerFirst(pre: string, p: string, q: string, tail: string)
    requires Free(pre, HEADER) && Free(pre, '\r') && Free(p, '\r') && Free(q, '\r')
    ensures TrimResponse(pre + "*" + p + SMALL_TRAILER + q + TRAILER + tail) ==
            Outcome(true, p + SMALL_TRAILER + q)
  {
    var body := pre + "*" + (p + SMALL_TRAILER + q);
    var m := |pre| + 1 + |p|;
    forall i | 0 <= i < |body| ensures body[i] == '\r' ==> i == m {
      if i < |pre| { assert body[i] == pre[i]; }
      else if |pre| < i < m { assert body[i] == p[i - |pre| - 1]; }
      else if m + 1 < i { assert body[i] == q[i - m - 2]; }
    }
    assert body[m + 1] == '\n';
    FirstTrailerAfter(body, tail);
    var buf := pre + "*" + p + SMALL_TRAILER + q + TRAILER + tail;
    assert buf == body + TRAILER + tail;
    assert buf[..|body|] == body;
    TrimAtFullTrailer(buf, |body|);
    assert body[..|pre|] == pre;
    FindCharAt(body, HEADER, |pre|);
  }

  /** A frame that ends in the short trailer, with no full trailer anywhere
      after it: the buffer is cut at the `"\r\n"`. */
  lemma TrimShapeShort(pre: string, p: string, tail: string)
    requires Free(pre, HEADER) && Free(pre, '\r') && Free(p, '\r')
    requires forall j :: !MatchAt(tail, TRAILER, j)
    ensures TrimResponse(pre + "*" + p + SMALL_TRAILER + tail) == Outcome(true, p)
  {
    var body := pre + "*" + p;
    var buf := body + SMALL_TRAILER + tail;
    assert buf == pre + "*" + p + SMALL_TRAILER + tail;
    var k := |body|;
    forall j | 0 <= j < k ensures buf[j] != '\r' {
      assert buf[j] == body[j];
      if j < |pre| { assert body[j] == pre[j]; }
      else if j > |pre| { assert body[j] == p[j - |pre| - 1]; }
    }
    assert buf[k] == '\r' && buf[k + 1] == '\n';
    forall j | 0 <= j <= |buf| ensures !MatchAt(buf, TRAILER, j) {
      if j < k + 2 {
        NoTrailerAt(buf, j);
      } else if j + 3 <= |buf| {
        assert buf[j..j + 3] == tail[j - k - 2..j - k + 1];
        assert !MatchAt(tail, TRAILER, j - k - 2);
      }
    }
    FindNone(buf, TRAILER);
    assert buf[k..k + 2] == SMALL_TRAILER;
    FindAt(buf, SMALL_TRAILER, k);
    assert buf[..k] == body;
    assert body[..|pre|] == pre;
    FindCharAt(body, HEADER, |pre|);
    assert body[|pre| + 1..] == p;
  }

  /** Without any `"\r\n"` there is no trailer: the status fails and the
      payload comes from the whole buffer. */
  lemma TrimNoTrailer(buf: string)
    requires forall j :: !MatchAt(buf, SMALL_TRAILER, j)
    ensures !TrimResponse(buf).ok
    ensures TrimResponse(buf).response == Payload(buf)
  {
  }

  /** Text free of NUL, '?' and carriage returns except in the trailer: a
      complete normal reply succeeds with its payload. */
  lemma ClassifyNormalFrame(p: string, tail: string)
    requires Free(p, NUL) && Free(p, ERROR_TRAILER) && Free(p, '\r')
    requires Free(tail, NUL) && Free(tail, ERROR_TRAILER)
    ensures Classify("*" + p + TRAILER + tail) == Outcome(true, p)
  {
    var buf := "*" + p + TRAILER + tail;
    forall i | 0 <= i < |buf| ensures buf[i] != NUL && buf[i] != ERROR_TRAILER {
      if 0 < i <= |p| { assert buf[i] == p[i - 1]; }
      else if i >= |p| + 4 { assert buf[i] == tail[i - |p| - 4]; }
    }
    CStringOfFree(buf);
    assert ErrorResponse(buf) == NotError(buf);
    assert "" + "*" + p + TRAILER + tail == buf;
    TrimShape("", p, tail);
  }

  /** A complete error reply fails with its error text. */
  lemma ClassifyErrorFrame(pre: string, text: string, tail: string)
    requires Free(pre, HEADER) && Free(pre, ERROR_TRAILER) && Free(text, ERROR_TRAILER)
    requires Free(pre, NUL) && Free(text, NUL) && Free(tail, NUL)
    ensures Classify(pre + "*" + text + "?" + tail) == Outcome(false, text)
  {
    var buf := pre + "*" + text + "?" + tail;
    forall i | 0 <= i < |buf| ensures buf[i] != NUL {
      if i < |pre| { assert buf[i] == pre[i]; }
      else if |pre| < i <= |pre| + |text| { assert buf[i] == text[i - |pre| - 1]; }
      else if i > |pre| + |text| + 1 { assert buf[i] == tail[i - |pre| - |text| - 2]; }
    }
    CStringOfFree(buf);
    ErrorFrameShape(pre, text, tail);
  }

  // ---- Transactions -------------------------------------------------------

  /** The transport's answer to one command: whether the write/read itself
      succeeded, the bytes received, and the outcome `lowLevelWriteRead`
      derives from them. Replies are built by `Received`, which classifies
      the bytes once; `WellFormed` states that every reply was built so. */
  datatype Reply = Reply(transportOk: bool, raw: string, outcome: Outcome)

  /** The reply carrying the bytes `raw`. */
  function Received(transportOk: bool, raw: string): (r: Reply)
    ensures r.transportOk == transportOk && r.raw == raw
  {
    Reply(transportOk, raw, Classify(raw))
  }

  /** The reply's outcome is the classification of its bytes. */
  predicate Classified(r: Reply) {
    r.outcome == Classify(r.raw)
  }

  /** A controller that stops answering looks like a transport failure with
      nothing received. */
  const SILENCE: Reply := Reply(false, "", Outcome(false, ""))

  /** Nothing received classifies as a failure with an empty response. */
  lemma SilenceClassified()
    ensures Classified(SILENCE) && SILENCE == Received(false, "")
  {
    assert CString("") == "";
    assert ErrorResponse("") == NotError("");
    assert CutTrailer("") == None;
  }

  /** `connected`: a low-level port user exists. `commsError`: the
      controller's comms error parameter. */
  datatype Link = Link(connected: bool, commsError: int)

  /** The link, the replies the controller will give, and the commands
      written so far. */
  datatype Channel = Channel(link: Link, replies: seq<Reply>, sent: seq<string>)

  /** Every reply of the channel carries the classification of its bytes. */
  predicate WellFormed(ch: Channel) {
    forall i {:trigger Classified(ch.replies[i])} :: 0 <= i < |ch.replies| ==> Classified(ch.replies[i])
  }

  /** The reply to the i-th command. */
  function ReplyAt(replies: seq<Reply>, i: nat): Reply {
    if i < |replies| then replies[i] else SILENCE
  }

  /** The reply to the k-th command from now. */
  function Upcoming(ch: Channel, k: nat): Reply {
    ReplyAt(ch.replies, |ch.sent| + k)
  }

  /** How the k-th command from now will be classified. */
  function Pending(ch: Channel, k: nat): Outcome {
    Upcoming(ch, k).outcome
  }

  /** On a well-formed channel the pending outcome is the classification of
      the bytes the controller will send. */
  lemma PendingClassifies(ch: Channel, k: nat)
    requires WellFormed(ch)
    ensures Pending(ch, k) == Classify(Upcoming(ch, k).raw)
  {
    if |ch.sent| + k < |ch.replies| {
      assert Classified(ch.replies[|ch.sent| + k]);
    } else {
      SilenceClassified();
    }
  }

  /** The k-th command from now will be written and classified a success. */
  predicate Succeeds(ch: Channel, k: nat) {
    ch.link.connected && Pending(ch, k).ok
  }

  /** What a sequence of commands puts on the wire: nothing at all without
      a port user. */
  function Emitted(ch: Channel, cmds: seq<string>): seq<string> {
    if ch.link.connected then cmds else []
  }

  /** What two sequences of commands put on the wire is what each puts there,
      one after the other. */
  lemma EmittedAppend(ch: Channel, a: seq<string>, b: seq<string>)
    ensures Emitted(ch, a + b) == Emitted(ch, a) + Emitted(ch, b)
  {
  }

  /** The result of one transaction. */
  datatype Exchange = Exchange(ok: bool, response: string, ch: Channel)

  /** The channel after writing one command: without a port user nothing is
      written and the comms flag becomes ERROR; otherwise the command is
      logged, its reply consumed, and the comms flag follows the transport
      status. */
  function Transmit(ch: Channel, cmd: string): (c: Channel)
    ensures c.replies == ch.replies && c.link.connected == ch.link.connected
    ensures c.sent == ch.sent + Emitted(ch, [cmd])
    ensures c.link.commsError ==
            if ch.link.connected && Upcoming(ch, 0).transportOk then OK else ERROR
  {
    if !ch.link.connected then ch.(link := ch.link.(commsError := ERROR))
    else
      Channel(Link(true, if Upcoming(ch, 0).transportOk then OK else ERROR), ch.replies, ch.sent + [cmd])
  }

  /** `lowLevelWriteRead`: without a port user the call fails with nothing
      written; otherwise the returned status and response are the reply's
      classification, never the transport status. */
  function WriteRead(ch: Channel, cmd: string): (x: Exchange)
    ensures x.ch == Transmit(ch, cmd)
    ensures x.ok == Succeeds(ch, 0)
    ensures ch.link.connected ==> x.response == Pending(ch, 0).response
  {
    if !ch.link.connected then Exchange(false, "", Transmit(ch, cmd))
    else
      var outcome := Upcoming(ch, 0).outcome;
      Exchange(outcome.ok, outcome.response, Transmit(ch, cmd))
  }

  /** On a well-formed channel one transaction returns the classification
      of the bytes received for it. */
  lemma WriteReadClassifies(ch: Channel, cmd: string)
    requires WellFormed(ch) && ch.link.connected
    ensures var x := WriteRead(ch, cmd);
            Outcome(x.ok, x.response) == Classify(Upcoming(ch, 0).raw)
  {
    PendingClassifies(ch, 0);
  }

  /** After one transaction, the next pending reply is the one after. */
  lemma TransmitShift(ch: Channel, cmd: string, k: nat)
    ensures Upcoming(Transmit(ch, cmd), k) == Upcoming(ch, if ch.link.connected then k + 1 else k)
    ensures Succeeds(Transmit(ch, cmd), k) == Succeeds(ch, k + 1)
  {
  }

  /** After one transaction, the next pending reply is the one after. */
  lemma PendingAfter(ch: Channel, cmd: string, k: nat)
    ensures Pending(WriteRead(ch, cmd).ch, k) == Pending(ch, if ch.link.connected then k + 1 else k)
    ensures Succeeds(WriteRead(ch, cmd).ch, k) == Succeeds(ch, k + 1)
  {
    TransmitShift(ch, cmd, k);
  }

  /** The returned status and response depend on the received bytes only:
      a transport failure changes the comms flag but not the status. */
  lemma StatusIgnoresTransport(ch: Channel, cmd: string, raw: string)
    requires ch.link.connected && |ch.sent| < |ch.replies|
    ensures var good := ch.(replies := ch.replies[|ch.sent| := Received(true, raw)]);
            var bad := ch.(replies := ch.replies[|ch.sent| := Received(false, raw)]);
            var g := WriteRead(good, cmd);
            var b := WriteRead(bad, cmd);
            g.ok == b.ok && g.response == b.response &&
            g.ch.link.commsError == OK && b.ch.link.commsError == ERROR
  {
  }

  /** After a run of transactions that wrote `m` commands (none at all
      without a port user), the k-th pending reply is the (m+k)-th of before. */
  lemma SucceedsShift(ch: Channel, ch': Channel, m: nat, k: nat)
    requires ch'.replies == ch.replies && ch'.link.connected == ch.link.connected
    requires ch.link.connected ==> |ch'.sent| == |ch.sent| + m
    ensures Succeeds(ch', k) == Succeeds(ch, m + k)
    ensures ch.link.connected ==> Pending(ch', k) == Pending(ch, m + k)
  {
    if ch.link.connected {
      assert Upcoming(ch', k) == Upcoming(ch, m + k);
    }
  }

  // ---- Command sequences ------------------------------------------------

  /** One transaction for each command, in order, whatever the replies. */
  function SendAll(ch: Channel, cmds: seq<string>): (c: Channel)
    ensures c.replies == ch.replies && c.link.connected == ch.link.connected
    ensures c.sent == ch.sent + Emitted(ch, cmds)
    decreases |cmds|
  {
    if cmds == [] then ch
    else
      var c0 := Transmit(ch, cmds[0]);
      var c := SendAll(c0, cmds[1..]);
      assert cmds == [cmds[0]] + cmds[1..];
      c
  }

  /** The first of the next `n` commands that will fail, counting from `i`;
      `n` when none of them fails. */
  function FirstFailureFrom(ch: Channel, i: nat, n: nat): (f: nat)
    requires i <= n
    ensures i <= f <= n
    decreases n - i
  {
    if i == n then n
    else if !Succeeds(ch, i) then i
    else FirstFailureFrom(ch, i + 1, n)
  }

  /** `FirstFailureFrom` stops at the first failure and nowhere else. */
  lemma {:induction false} FirstFailureFromSpec(ch: Channel, i: nat, n: nat)
    requires i <= n
    ensures var f := FirstFailureFrom(ch, i, n);
            (forall k :: i <= k < f ==> Succeeds(ch, k)) && (f < n ==> !Succeeds(ch, f))
    decreases n - i
  {
    if i == n {
    } else if !Succeeds(ch, i) {
      assert FirstFailureFrom(ch, i, n) == i;
    } else {
      assert FirstFailureFrom(ch, i, n) == FirstFailureFrom(ch, i + 1, n);
      FirstFailureFromSpec(ch, i + 1, n);
    }
  }

  /** The first of the next `n` commands that will fail, or `n`. */
  function FirstFailure(ch: Channel, n: nat): (f: nat)
    ensures f <= n
  {
    FirstFailureFrom(ch, 0, n)
  }

  /** The outcome of a short-circuit sequence: whether every command
      succeeded, how many were attempted, and the channel. */
  datatype Run = Run(ok: bool, attempted: nat, ch: Channel)

  /** How many of the next `n` commands a short-circuit sequence attempts:
      all up to and including the first failure. */
  function Attempts(ch: Channel, n: nat): (m: nat)
    ensures m <= n
  {
    var f := FirstFailure(ch, n);
    if f < n then f + 1 else n
  }

  /** One transaction per command, in order, stopping after the first that
      fails: the commands up to and including the first failure are
      attempted, the rest are not. */
  function SendWhileOk(ch: Channel, cmds: seq<string>): (r: Run)
    ensures r.ch.replies == ch.replies && r.ch.link.connected == ch.link.connected
    ensures r.attempted == Attempts(ch, |cmds|)
    ensures r.ch.sent == ch.sent + Emitted(ch, cmds[..r.attempted])
  {
    var attempted := Attempts(ch, |cmds|);
    Run(FirstFailure(ch, |cmds|) == |cmds|, attempted, SendAll(ch, cmds[..attempted]))
  }

  /** Without a port user a run writes nothing and fails at its first step,
      unless it has no steps at all. */
  lemma NoPortUserRun(ch: Channel, cmds: seq<string>)
    requires !ch.link.connected
    ensures var r := SendWhileOk(ch, cmds);
            r.ch.sent == ch.sent && (r.ok <==> cmds == []) &&
            r.attempted == (if cmds == [] then 0 else 1)
  {
  }

  /** The run succeeds exactly when every command was attempted and
      succeeded; every command before the last attempted one succeeded, and
      a failed run stops at its first failing command. */
  lemma SendWhileOkStatus(ch: Channel, cmds: seq<string>)
    ensures var r := SendWhileOk(ch, cmds);
            (forall k :: 0 <= k && k + 1 < r.attempted ==> Succeeds(ch, k)) &&
            (r.ok <==> r.attempted == |cmds| && forall k :: 0 <= k < |cmds| ==> Succeeds(ch, k)) &&
            (!r.ok ==> r.attempted >= 1 && !Succeeds(ch, r.attempted - 1))
  {
    FirstFailureFromSpec(ch, 0, |cmds|);
  }

  /** The first `n` commands of a short-circuit sequence, attempted one after
      the other: the i-th command is attempted exactly when every command
      before it succeeded. */
  lemma AttemptsSpec(ch: Channel, n: nat, i: nat)
    requires i < n
    ensures i < Attempts(ch, n) <==> forall k :: 0 <= k < i ==> Succeeds(ch, k)
  {
    FirstFailureFromSpec(ch, 0, n);
  }

  /** Every command written, in order; the status is that of the last one
      only, whatever happened to the others. */
  function SendLast(ch: Channel, cmds: seq<string>): (x: Exchange)
    requires |cmds| > 0
    ensures x.ch.replies == ch.replies && x.ch.link.connected == ch.link.connected
    ensures x.ch.sent == ch.sent + Emitted(ch, cmds)
    ensures x.ok == Succeeds(ch, |cmds| - 1)
    ensures ch.link.connected ==> x.response == Pending(ch, |cmds| - 1).response
  {
    var init := cmds[..|cmds| - 1];
    var c := SendAll(ch, init);
    SucceedsShift(ch, c, |init|, 0);
    assert init + [cmds[|cmds| - 1]] == cmds;
    WriteRead(c, cmds[|cmds| - 1])
  }

  // ---- Well-formed replies ------------------------------------------------

  /** Characters that cannot end or split a reply. */
  predicate PlainChar(c: char) {
    c != NUL && c != ERROR_TRAILER && c != '\r'
  }

  predicate PlainText(s: string) {
    forall i :: 0 <= i < |s| ==> PlainChar(s[i])
  }

  /** The raw bytes of a normal reply carrying payload `p`. */
  function Frame(p: string): string {
    "*" + p + TRAILER
  }

  /** A well-formed normal reply is classified a success with its payload. */
  lemma ClassifyFrame(p: string)
    requires PlainText(p)
    ensures Classify(Frame(p)) == Outcome(true, p)
  {
    ClassifyNormalFrame(p, "");
    assert "*" + p + TRAILER + "" == Frame(p);
  }
}
