/** The two direct methods the module serves, "print" and "status", each
    working on the printer's device file. A device call that throws ends
    the `try` block; the callback then answers 500 with the exception's
    message, and 200 otherwise. */
module ModuleBackgroundService {
  import opened Wrappers
  import opened Tup900Commands
  import opened Ascii
  import opened AsbStatus
  import opened PrintJob
  import opened Device

  /** The "print" request after JSON deserialisation: it names someone,
      carries no (or a null) name, which prints as the empty name, or could
      not be read at all (bad JSON, or a null request object). */
  datatype PrintRequest = Named(name: string) | Unnamed | Unreadable(message: string)

  datatype PrintResponse = PrintResponse(deviceId: string, status: string)

  datatype StatusResponse = StatusResponse(deviceId: string, status: string, paperCollected: bool, rollMissing: bool)

  const PrintedStatus: string := "Message deserialized and printed."
  const StatusReadStatus: string := "Status method called and status read."

  function PrintFailedStatus(message: string): string {
    "Failed to print message (" + message + ")"
  }

  function StatusFailedStatus(message: string): string {
    "Failed to read status (" + message + ")"
  }

  /** The name to greet, or the message of the exception deserialising raised. */
  function RequestName(request: PrintRequest): (r: Result<string>)
    ensures r.Err? <==> request.Unreadable?
    ensures request.Named? ==> r == Ok(request.name)
    ensures request.Unnamed? ==> r == Ok("")
  {
    match request
    case Named(name) => Ok(name)
    case Unnamed => Ok("")
    case Unreadable(message) => Err(message)
  }

  // ---------------------------------------------------------------- print

  /** The calls of a print of `text` that can throw: the open and the
      writes, in order. */
  function PrintCalls(text: seq<Byte>): seq<Event> {
    [Opened] + Writes(PrintWrites(text))
  }

  /** What the device sees during a print of `text`: the calls up to the
      first exception, and the close when the open succeeded. */
  function PrintEvents(text: seq<Byte>, failsAfter: nat, message: string): seq<Event> {
    Attempt(PrintCalls(text), failsAfter, message)
      + (if Succeeds(failsAfter, 1) then [Closed] else [])
  }

  /** The bytes a print of `text` delivers when the device lets
      `failsAfter` calls complete: the chunks written before the first
      exception. */
  function Delivered(text: seq<Byte>, failsAfter: nat): seq<Byte> {
    var chunks := PrintWrites(text);
    Flatten(chunks[..if Succeeds(failsAfter, |PrintCalls(text)|) then |chunks| else Spend(failsAfter, 1)])
  }

  /** The response and code of a print request on a device. */
  function PrintResult(deviceId: string, request: PrintRequest, failsAfter: nat, message: string)
    : (PrintResponse, int)
  {
    match RequestName(request)
    case Err(m) => (PrintResponse(deviceId, PrintFailedStatus(m)), 500)
    case Ok(name) =>
      if Succeeds(failsAfter, |PrintCalls(GreetingBytes(name))|) then (PrintResponse(deviceId, PrintedStatus), 200)
      else (PrintResponse(deviceId, PrintFailedStatus(message)), 500)
  }

  /** The "print" method: greet the requested name on the printer. */
  method PrintMethodCallBack(dev: Channel, deviceId: string, request: PrintRequest)
    returns (response: PrintResponse, code: int)
    modifies dev
    ensures (response, code) == PrintResult(deviceId, request, old(dev.failsAfter), dev.faultMessage)
    ensures match RequestName(request)
      case Err(_) => dev.trace == old(dev.trace) && dev.written == old(dev.written)
      case Ok(name) =>
        && dev.trace == old(dev.trace) + PrintEvents(GreetingBytes(name), old(dev.failsAfter), dev.faultMessage)
        && dev.written == old(dev.written) + Delivered(GreetingBytes(name), old(dev.failsAfter))
    ensures code == 200 ==>
      RequestName(request).Ok? && dev.written == old(dev.written) + Job(GreetingBytes(RequestName(request).value))
    ensures dev.failsAfter == if RequestName(request).Ok? then Spend(old(dev.failsAfter), 24) else old(dev.failsAfter)
    ensures dev.reply == old(dev.reply)
  {
    if RequestName(request).Ok? {
      DeliveredIsPrefix(GreetingBytes(RequestName(request).value), dev.failsAfter);
    }
    response := PrintResponse(deviceId, PrintedStatus);
    code := 200;
    var outcome := PrintToDevice(dev, request);
    if outcome.Fault? {
      code := 500;
      response := response.(status := PrintFailedStatus(outcome.message));
    }
  }

  /** The `try` block of the print method. */
  method PrintToDevice(dev: Channel, request: PrintRequest) returns (outcome: Outcome)
    modifies dev
    ensures RequestName(request).Err? ==>
      outcome == Fault(RequestName(request).message) && dev.trace == old(dev.trace) && dev.written == old(dev.written)
    ensures RequestName(request).Ok? ==>
      var text := GreetingBytes(RequestName(request).value);
      && outcome == Conclude(old(dev.failsAfter), |PrintCalls(text)|, dev.faultMessage)
      && dev.trace == old(dev.trace) + PrintEvents(text, old(dev.failsAfter), dev.faultMessage)
      && dev.written == old(dev.written) + Delivered(text, old(dev.failsAfter))
    ensures dev.failsAfter == if RequestName(request).Ok? then Spend(old(dev.failsAfter), 24) else old(dev.failsAfter)
    ensures dev.reply == old(dev.reply)
  {
    var name :- RequestName(request);
    var text := GetBytes(Greeting(name));
    ghost var s := dev.State(true);
    PrintSession(s, text, dev.faultMessage);
    :- dev.Open();
    outcome := WriteJob(dev, text);
    assert dev.State(outcome.Done?) == Issue(s, PrintCalls(text), dev.faultMessage);
    dev.Close();
  }

  /** A print on a session that has not failed: the open, then the job's
      writes; the events, bytes and outcome it leaves, the close included. */
  lemma PrintSession(s: Session, text: seq<Byte>, message: string)
    requires s.ok
    ensures Issue(s, PrintCalls(text), message) == Issue(Call(s, Opened, message), Writes(PrintWrites(text)), message)
    ensures var r := Issue(s, PrintCalls(text), message);
      && r.trace + (if Succeeds(s.failsAfter, 1) then [Closed] else [])
         == s.trace + PrintEvents(text, s.failsAfter, message)
      && r.written == s.written + Delivered(text, s.failsAfter)
      && (if r.ok then Done else Fault(message)) == Conclude(s.failsAfter, |PrintCalls(text)|, message)
      && r.failsAfter == Spend(s.failsAfter, 24)
  {
    IssueAppend(s, [Opened], Writes(PrintWrites(text)), message);
    assert Issue(s, [Opened], message) == Call(s, Opened, message) by {
      assert [Opened][1..] == [];
    }
    IssueAttempt(s, PrintCalls(text), message);
    if s.failsAfter > 0 {
      IssueWrites(Call(s, Opened, message), PrintWrites(text), message);
    } else {
      assert PrintWrites(text)[..0] == [];
    }
  }

  /** Issuing the job's writes is issuing each line's writes in turn. */
  lemma JobCalls(s: Session, text: seq<Byte>, message: string)
    ensures Issue(s, Writes(PrintWrites(text)), message)
      == Issue(Issue(Issue(Issue(Issue(s,
           Writes(PlainWrites(text)), message),
           Writes(EmphasizedWrites(text)), message),
           Writes(UnderlinedWrites(text)), message),
           Writes(InverseWrites(text)), message),
           Writes(TrailerWrites), message)
  {
    var a, b, c, d, e := PlainWrites(text), EmphasizedWrites(text), UnderlinedWrites(text), InverseWrites(text), TrailerWrites;
    WritesAppend(a + b + c + d, e);
    WritesAppend(a + b + c, d);
    WritesAppend(a + b, c);
    WritesAppend(a, b);
    IssueAppend(s, Writes(a + b + c + d), Writes(e), message);
    IssueAppend(s, Writes(a + b + c), Writes(d), message);
    IssueAppend(s, Writes(a + b), Writes(c), message);
    IssueAppend(s, Writes(a), Writes(b), message);
  }

  /** The `using` block of the print method: the job's writes, line by
      line, stopping at the first exception. */
  method WriteJob(dev: Channel, text: seq<Byte>) returns (outcome: Outcome)
    modifies dev
    ensures dev.State(outcome.Done?) == Issue(old(dev.State(true)), Writes(PrintWrites(text)), dev.faultMessage)
    ensures outcome.Fault? ==> outcome.message == dev.faultMessage
    ensures dev.reply == old(dev.reply)
  {
    JobCalls(dev.State(true), text, dev.faultMessage);
    :- WritePlainLine(dev, text);
    :- WriteEmphasizedLine(dev, text);
    :- WriteUnderlinedLine(dev, text);
    :- WriteInverseLine(dev, text);
    outcome := WriteTrailer(dev);
  }

  /** The greeting at 12-dot pitch. */
  method WritePlainLine(dev: Channel, text: seq<Byte>) returns (outcome: Outcome)
    modifies dev
    ensures dev.State(outcome.Done?) == Issue(old(dev.State(true)), Writes(PlainWrites(text)), dev.faultMessage)
    ensures outcome.Fault? ==> outcome.message == dev.faultMessage
    ensures dev.reply == old(dev.reply)
  {
    Issue3(dev.State(true), Writes(PlainWrites(text)), dev.faultMessage);
    :- dev.Write(Dot12PitchCommand);
    :- dev.Write(text);
    outcome := dev.Write(LfCommand);
  }

  /** The greeting emphasised, at 15-dot pitch. */
  method WriteEmphasizedLine(dev: Channel, text: seq<Byte>) returns (outcome: Outcome)
    modifies dev
    ensures dev.State(outcome.Done?) == Issue(old(dev.State(true)), Writes(EmphasizedWrites(text)), dev.faultMessage)
    ensures outcome.Fault? ==> outcome.message == dev.faultMessage
    ensures dev.reply == old(dev.reply)
  {
    Issue5(dev.State(true), Writes(EmphasizedWrites(text)), dev.faultMessage);
    :- dev.Write(StartEmphasizedCommand);
    :- dev.Write(Dot15PitchCommand);
    :- dev.Write(text);
    :- dev.Write(CancelEmphasizedCommand);
    outcome := dev.Write(LfCommand);
  }

  /** The greeting underlined, at 16-dot pitch. */
  method WriteUnderlinedLine(dev: Channel, text: seq<Byte>) returns (outcome: Outcome)
    modifies dev
    ensures dev.State(outcome.Done?) == Issue(old(dev.State(true)), Writes(UnderlinedWrites(text)), dev.faultMessage)
    ensures outcome.Fault? ==> outcome.message == dev.faultMessage
    ensures dev.reply == old(dev.reply)
  {
    Issue5(dev.State(true), Writes(UnderlinedWrites(text)), dev.faultMessage);
    :- dev.Write(StartUnderlineCommand);
    :- dev.Write(Dot16PitchCommand);
    :- dev.Write(text);
    :- dev.Write(CancelUnderlineCommand);
    outcome := dev.Write(LfCommand);
  }

  /** The greeting in inverse video. */
  method WriteInverseLine(dev: Channel, text: seq<Byte>) returns (outcome: Outcome)
    modifies dev
    ensures dev.State(outcome.Done?) == Issue(old(dev.State(true)), Writes(InverseWrites(text)), dev.faultMessage)
    ensures outcome.Fault? ==> outcome.message == dev.faultMessage
    ensures dev.reply == old(dev.reply)
  {
    Issue4(dev.State(true), Writes(InverseWrites(text)), dev.faultMessage);
    :- dev.Write(StartInverseCommand);
    :- dev.Write(text);
    :- dev.Write(CancelInverseCommand);
    outcome := dev.Write(LfCommand);
  }

  /** Logo, barcode, cut and the recovery timer. */
  method WriteTrailer(dev: Channel) returns (outcome: Outcome)
    modifies dev
    ensures dev.State(outcome.Done?) == Issue(old(dev.State(true)), Writes(TrailerWrites), dev.faultMessage)
    ensures outcome.Fault? ==> outcome.message == dev.faultMessage
    ensures dev.reply == old(dev.reply)
  {
    Issue6(dev.State(true), Writes(TrailerWrites), dev.faultMessage);
    :- dev.Write(PrintLogoCommand);
    :- dev.Write(LfCommand);
    :- dev.Write(PrintCode128Command);
    :- dev.Write(LfCommand);
    :- dev.Write(CutCommand);
    outcome := dev.Write(SetRecoveryTimespanCommand);
  }

  /** A print answers 200 exactly when the request could be read and the
      open and all 23 writes completed; otherwise 500 with the message of
      the exception that ended the `try` block. */
  lemma PrintCode(deviceId: string, request: PrintRequest, failsAfter: nat, message: string)
    ensures var (response, code) := PrintResult(deviceId, request, failsAfter, message);
      && response.deviceId == deviceId
      && (code == 200 <==> RequestName(request).Ok? && Succeeds(failsAfter, 24))
      && (code == 200 || code == 500)
      && (code == 200 ==> response.status == PrintedStatus)
      && (RequestName(request).Err? ==> response.status == PrintFailedStatus(RequestName(request).message))
      && (RequestName(request).Ok? && code == 500 ==> response.status == PrintFailedStatus(message))
  {
    if RequestName(request).Ok? {
      assert |PrintCalls(GreetingBytes(RequestName(request).value))| == 24;
    }
  }

  /** Whatever the device does, a print leaves a prefix of the job on it,
      and the whole job exactly when every call completed. */
  lemma DeliveredIsPrefix(text: seq<Byte>, failsAfter: nat)
    ensures Delivered(text, failsAfter) <= Job(text)
    ensures Delivered(text, failsAfter) == Job(text) <==> Succeeds(failsAfter, 24)
  {
    var chunks := PrintWrites(text);
    assert |chunks| == 23 && chunks[22] == SetRecoveryTimespanCommand;
    var k := if Succeeds(failsAfter, 24) then 23 else Spend(failsAfter, 1);
    assert chunks[..23] == chunks;
    FlattenPrefix(chunks, k);
    PrintWritesDeliverJob(text);
  }

  /** A print that completes, for any name including the empty one, leaves
      the whole job on the device, and its last seven bytes are the cut
      followed by the recovery timer. */
  lemma CompletedPrintEndsWithCut(name: string, failsAfter: nat)
    requires Succeeds(failsAfter, 24)
    ensures var job := Delivered(GreetingBytes(name), failsAfter);
      && job == Job(GreetingBytes(name))
      && |job| >= 7
      && job[|job| - 7..] == CutCommand + SetRecoveryTimespanCommand
  {
    var text := GreetingBytes(name);
    DeliveredIsPrefix(text, failsAfter);
    JobEnding(text);
  }

  /** The device calls of a completed print: open, the 23 writes in
      source order, close. */
  lemma CompletedPrintEvents(text: seq<Byte>, failsAfter: nat, message: string)
    requires Succeeds(failsAfter, 24)
    ensures PrintEvents(text, failsAfter, message) == [Opened] + Writes(PrintWrites(text)) + [Closed]
    ensures PrintWrites(text)[21..] == [CutCommand, SetRecoveryTimespanCommand]
  {
  }

  /** No write call of a print is the recovery-execution command. */
  lemma ExecuteRecoveryNeverPrinted(name: string)
    ensures Wrote(ExecuteRecoveryCommand) !in PrintCalls(GreetingBytes(name))
  {
    GreetingBytesSplit(name);
    var c := PrintCalls(GreetingBytes(name));
    forall i | 0 <= i < |c|
      ensures c[i] != Wrote(ExecuteRecoveryCommand)
    {
      if i > 0 {
        assert c[i] == Wrote(PrintWrites(GreetingBytes(name))[i - 1]);
      }
    }
  }

  /** The recovery-execution command can still reach the printer inside a
      print: a name made of its four bytes is sent unchanged in the first
      greeting line. */
  lemma ExecuteRecoveryThroughName()
    ensures var name := [27 as char, 22 as char, 48 as char, 0 as char];
      Job(GreetingBytes(name))[8..12] == ExecuteRecoveryCommand
  {
    var name := [27 as char, 22 as char, 48 as char, 0 as char];
    NameInJob(name);
    assert GetBytes(name) == [EncodeChar(name[0]), EncodeChar(name[1]), EncodeChar(name[2]), EncodeChar(name[3])];
  }

  /** Nor does a status query. */
  lemma ExecuteRecoveryNeverQueried(reply: seq<Byte>, failsAfter: nat, message: string)
    ensures Wrote(ExecuteRecoveryCommand) !in StatusEvents(reply, failsAfter, message)
  {
    EnableAsbOnceBeforeRead(reply, failsAfter, message);
  }

  // --------------------------------------------------------------- status

  /** How many status bytes a read takes from a device holding `reply`. */
  function ReadCount(reply: seq<Byte>): nat {
    Min(AsbLength, |reply|)
  }

  /** The calls of a status query that can throw, in order. */
  function StatusCalls(reply: seq<Byte>): seq<Event> {
    [Opened, Wrote(EnableAsbStatusCommand), Flushed, ReadBack(reply[..ReadCount(reply)])]
  }

  /** What the device sees during a status query. */
  function StatusEvents(reply: seq<Byte>, failsAfter: nat, message: string): seq<Event> {
    Attempt(StatusCalls(reply), failsAfter, message)
      + (if Succeeds(failsAfter, 1) then [Closed] else [])
  }

  /** The zero-initialised ten-byte buffer after a completed read: the
      bytes the device had ready, then the zeros the read did not reach. */
  function AsbBuffer(reply: seq<Byte>): (b: seq<Byte>)
    ensures |b| == AsbLength
    ensures b[..ReadCount(reply)] == reply[..ReadCount(reply)]
    ensures forall i :: ReadCount(reply) <= i < AsbLength ==> b[i] == 0
  {
    reply[..ReadCount(reply)] + seq(AsbLength - ReadCount(reply), _ => 0)
  }

  /** The response and code of a status request on a device holding
      `reply`: the flags keep their default (false) unless a read returned
      at least one byte. */
  function StatusResult(deviceId: string, reply: seq<Byte>, failsAfter: nat, message: string)
    : (StatusResponse, int)
  {
    if !Succeeds(failsAfter, |StatusCalls(reply)|) then
      (StatusResponse(deviceId, StatusFailedStatus(message), false, false), 500)
    else if |reply| == 0 then
      (StatusResponse(deviceId, StatusReadStatus, false, false), 200)
    else
      var flags := Decode(AsbBuffer(reply));
      (StatusResponse(deviceId, StatusReadStatus, flags.paperCollected, flags.rollMissing), 200)
  }

  /** The "status" method: query the printer's status block. */
  method StatusMethodCallBack(dev: Channel, deviceId: string) returns (response: StatusResponse, code: int)
    modifies dev
    ensures (response, code) == StatusResult(deviceId, old(dev.reply), old(dev.failsAfter), dev.faultMessage)
    ensures dev.trace == old(dev.trace) + StatusEvents(old(dev.reply), old(dev.failsAfter), dev.faultMessage)
    ensures dev.written == old(dev.written) + if Succeeds(old(dev.failsAfter), 2) then EnableAsbStatusCommand else []
    ensures dev.reply == if Succeeds(old(dev.failsAfter), 4) then old(dev.reply)[ReadCount(old(dev.reply))..] else old(dev.reply)
    ensures dev.failsAfter == Spend(old(dev.failsAfter), 4)
  {
    response := StatusResponse(deviceId, StatusReadStatus, false, false);
    code := 200;
    var outcome, flags := QueryStatus(dev);
    if flags.Some? {
      response := response.(paperCollected := flags.value.paperCollected);
      response := response.(rollMissing := flags.value.rollMissing);
    }
    if outcome.Fault? {
      code := 500;
      response := response.(status := StatusFailedStatus(outcome.message));
    }
  }

  /** The `try` block of the status method. */
  method QueryStatus(dev: Channel) returns (outcome: Outcome, flags: Option<AsbFlags>)
    modifies dev
    ensures outcome == Conclude(old(dev.failsAfter), |StatusCalls(old(dev.reply))|, dev.faultMessage)
    ensures flags == if outcome.Done? && |old(dev.reply)| > 0 then Some(Decode(AsbBuffer(old(dev.reply)))) else None
    ensures dev.trace == old(dev.trace) + StatusEvents(old(dev.reply), old(dev.failsAfter), dev.faultMessage)
    ensures dev.written == old(dev.written) + if Succeeds(old(dev.failsAfter), 2) then EnableAsbStatusCommand else []
    ensures dev.reply == if outcome.Done? then old(dev.reply)[ReadCount(old(dev.reply))..] else old(dev.reply)
    ensures dev.failsAfter == Spend(old(dev.failsAfter), 4)
  {
    flags := None;
    ghost var s := dev.State(true);
    StatusSession(s, dev.reply, dev.faultMessage);
    :- dev.Open();
    outcome, flags := ReadAsb(dev);
    assert dev.State(outcome.Done?) == Issue(s, StatusCalls(old(dev.reply)), dev.faultMessage);
    dev.Close();
  }

  /** A status query on a session that has not failed: the events, bytes
      and outcome it leaves. */
  lemma StatusSession(s: Session, reply: seq<Byte>, message: string)
    requires s.ok
    ensures Issue(s, StatusCalls(reply), message)
      == Issue(Call(s, Opened, message), StatusCalls(reply)[1..], message)
    ensures Issue(s, StatusCalls(reply), message).trace == s.trace + Attempt(StatusCalls(reply), s.failsAfter, message)
    ensures Issue(s, StatusCalls(reply), message).ok == Succeeds(s.failsAfter, |StatusCalls(reply)|)
    ensures Issue(s, StatusCalls(reply), message).failsAfter == Spend(s.failsAfter, 4)
    ensures Issue(s, StatusCalls(reply), message).written
      == s.written + if Succeeds(s.failsAfter, 2) then EnableAsbStatusCommand else []
  {
    Issue4(s, StatusCalls(reply), message);
    IssueAttempt(s, StatusCalls(reply), message);
  }

  /** The `using` block of the status method: enable automatic status,
      read up to ten bytes into a zeroed buffer, and decode the buffer
      when any byte arrived. */
  method ReadAsb(dev: Channel) returns (outcome: Outcome, flags: Option<AsbFlags>)
    modifies dev
    ensures dev.State(outcome.Done?) == Issue(old(dev.State(true)), StatusCalls(old(dev.reply))[1..], dev.faultMessage)
    ensures outcome.Fault? ==> outcome.message == dev.faultMessage
    ensures flags == if outcome.Done? && |old(dev.reply)| > 0 then Some(Decode(AsbBuffer(old(dev.reply)))) else None
    ensures dev.reply == if outcome.Done? then old(dev.reply)[ReadCount(old(dev.reply))..] else old(dev.reply)
  {
    flags := None;
    Issue3(dev.State(true), StatusCalls(dev.reply)[1..], dev.faultMessage);
    :- dev.Write(EnableAsbStatusCommand);
    :- dev.Flush();
    var asbBuffer := new Byte[AsbLength](_ => 0);
    var bytesRead :- dev.Read(asbBuffer);
    if bytesRead > 0 {
      assert asbBuffer[..] == asbBuffer[..bytesRead] + asbBuffer[bytesRead..];
      flags := Some(Decode(asbBuffer[..]));
    }
    outcome := Done;
  }

  /** A status query answers 200 exactly when the open, the write, the
      flush and the read completed; the flags of a failed query keep their
      default. */
  lemma StatusCode(deviceId: string, reply: seq<Byte>, failsAfter: nat, message: string)
    ensures var (response, code) := StatusResult(deviceId, reply, failsAfter, message);
      && response.deviceId == deviceId
      && (code == 200 <==> Succeeds(failsAfter, 4))
      && (code == 200 || code == 500)
      && (code == 200 ==> response.status == StatusReadStatus)
      && (code == 500 ==> response.status == StatusFailedStatus(message)
                          && !response.paperCollected && !response.rollMissing)
  {
  }

  /** The status query writes the enable-ASB command once, and only it,
      as its second call; its one read comes after that write. */
  lemma EnableAsbOnceBeforeRead(reply: seq<Byte>, failsAfter: nat, message: string)
    ensures var e := StatusEvents(reply, failsAfter, message);
      && (forall i | 0 <= i < |e| && e[i].Wrote? :: i == 1 && e[i].data == EnableAsbStatusCommand)
      && (forall i | 0 <= i < |e| && e[i].ReadBack? ::
            i == 3 && e[1] == Wrote(EnableAsbStatusCommand) && |e[i].data| <= AsbLength)
      && (Succeeds(failsAfter, 4) ==> e[1] == Wrote(EnableAsbStatusCommand) && e[3].ReadBack?)
  {
    var c := StatusCalls(reply);
    var e := StatusEvents(reply, failsAfter, message);
    if !Succeeds(failsAfter, 4) {
      assert forall i | 0 <= i < failsAfter :: e[i] == c[i];
      assert |e| <= failsAfter + 2;
    }
  }

  /** When the printer sends nothing back, the flags keep their default. */
  lemma NoReplyKeepsDefaults(deviceId: string, failsAfter: nat, message: string)
    requires Succeeds(failsAfter, 4)
    ensures StatusResult(deviceId, [], failsAfter, message)
      == (StatusResponse(deviceId, StatusReadStatus, false, false), 200)
  {
  }

  /** A reply of at least nine bytes is decoded from its own bytes: the
      paper was collected exactly when bits 1 and 2 of the ninth byte are
      clear, and the roll is missing exactly when bit 2 of the sixth is
      set. */
  lemma FullReplyDecodes(deviceId: string, reply: seq<Byte>, failsAfter: nat, message: string)
    requires Succeeds(failsAfter, 4) && |reply| >= 9
    ensures var (response, _) := StatusResult(deviceId, reply, failsAfter, message);
      && (response.paperCollected <==> !BitOf(reply[8], 1) && !BitOf(reply[8], 2))
      && (response.rollMissing <==> BitOf(reply[5], 2))
  {
    var b := AsbBuffer(reply);
    assert b[8] == reply[8] && b[5] == reply[5];
    PaperCollectedIff(b);
    RollMissingIff(b);
  }

  /** A short reply is decoded together with the buffer's zero padding:
      with fewer than nine bytes the paper reads as collected, with fewer
      than six the roll reads as present. */
  lemma ShortReplyPadding(deviceId: string, reply: seq<Byte>, failsAfter: nat, message: string)
    requires Succeeds(failsAfter, 4) && 0 < |reply|
    ensures var (response, _) := StatusResult(deviceId, reply, failsAfter, message);
      && (|reply| <= 8 ==> response.paperCollected)
      && (|reply| <= 5 ==> !response.rollMissing)
  {
    var b := AsbBuffer(reply);
    if |reply| <= 8 {
      assert b[8] == 0;
    }
    if |reply| <= 5 {
      assert b[5] == 0;
    }
  }
}
