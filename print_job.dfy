/** The print job: the greeting for a name, ASCII-encoded, printed four
    times in four styles, then the logo, the "MVP" barcode, a cut and the
    arming of the presenter's paper recovery. */
module PrintJob {
  import opened Wrappers
  import opened Tup900Commands
  import opened Ascii

  const GreetingPrefix: string := "Hello "
  const GreetingSuffix: string := ", welcome to this Azure IoT Edge C# module running on Ubuntu!"

  /** The greeting: "Hello ", the name, and the fixed welcome text. */
  function Greeting(name: string): (g: string)
    ensures |g| == |name| + 67
    ensures g[..|GreetingPrefix|] == GreetingPrefix && g[|g| - |GreetingSuffix|..] == GreetingSuffix
    ensures g[|GreetingPrefix| .. |GreetingPrefix| + |name|] == name
  {
    GreetingPrefix + name + GreetingSuffix
  }

  /** The greeting as it goes to the printer. */
  function GreetingBytes(name: string): (r: seq<Byte>)
    ensures |r| == |name| + 67
    ensures AllAsciiBytes(r)
  {
    GetBytes(Greeting(name))
  }

  /** The device writes of one print job, line by line, in the order
      they are issued. */
  function PlainWrites(text: seq<Byte>): seq<seq<Byte>> {
    [Dot12PitchCommand, text, LfCommand]
  }

  function EmphasizedWrites(text: seq<Byte>): seq<seq<Byte>> {
    [StartEmphasizedCommand, Dot15PitchCommand, text, CancelEmphasizedCommand, LfCommand]
  }

  function UnderlinedWrites(text: seq<Byte>): seq<seq<Byte>> {
    [StartUnderlineCommand, Dot16PitchCommand, text, CancelUnderlineCommand, LfCommand]
  }

  function InverseWrites(text: seq<Byte>): seq<seq<Byte>> {
    [StartInverseCommand, text, CancelInverseCommand, LfCommand]
  }

  const TrailerWrites: seq<seq<Byte>> :=
    [PrintLogoCommand, LfCommand, PrintCode128Command, LfCommand, CutCommand, SetRecoveryTimespanCommand]

  function PrintWrites(text: seq<Byte>): (w: seq<seq<Byte>>)
    ensures |w| == 23
    ensures w[1] == text && w[5] == text && w[10] == text && w[14] == text
    ensures w[0] == Dot12PitchCommand && w[21..] == [CutCommand, SetRecoveryTimespanCommand]
  {
    PlainWrites(text) + EmphasizedWrites(text) + UnderlinedWrites(text) + InverseWrites(text) + TrailerWrites
  }

  /** The four styled banner lines. */
  function PlainLine(text: seq<Byte>): seq<Byte> {
    Dot12PitchCommand + text + LfCommand
  }

  function EmphasizedLine(text: seq<Byte>): seq<Byte> {
    StartEmphasizedCommand + Dot15PitchCommand + text + CancelEmphasizedCommand + LfCommand
  }

  function UnderlinedLine(text: seq<Byte>): seq<Byte> {
    StartUnderlineCommand + Dot16PitchCommand + text + CancelUnderlineCommand + LfCommand
  }

  function InverseLine(text: seq<Byte>): seq<Byte> {
    StartInverseCommand + text + CancelInverseCommand + LfCommand
  }

  /** Logo, barcode, cut and recovery: the part that does not depend on
      the text. */
  const Trailer: seq<Byte> :=
    PrintLogoCommand + LfCommand + PrintCode128Command + LfCommand + CutCommand + SetRecoveryTimespanCommand

  /** A run of chunks flattens to the first chunk followed by the rest. */
  lemma FlattenCons(a: seq<Byte>, rest: seq<seq<Byte>>)
    ensures Flatten([a] + rest) == a + Flatten(rest)
  {
    assert ([a] + rest)[1..] == rest;
  }

  /** Each line's writes deliver exactly that line's bytes. */
  lemma PlainWritesLine(text: seq<Byte>)
    ensures Flatten(PlainWrites(text)) == PlainLine(text)
  {
    FlattenCons(LfCommand, []);
    FlattenCons(text, [LfCommand]);
    FlattenCons(Dot12PitchCommand, [text, LfCommand]);
  }

  lemma EmphasizedWritesLine(text: seq<Byte>)
    ensures Flatten(EmphasizedWrites(text)) == EmphasizedLine(text)
  {
    FlattenCons(LfCommand, []);
    FlattenCons(CancelEmphasizedCommand, [LfCommand]);
    FlattenCons(text, [CancelEmphasizedCommand, LfCommand]);
    FlattenCons(Dot15PitchCommand, [text, CancelEmphasizedCommand, LfCommand]);
    FlattenCons(StartEmphasizedCommand, [Dot15PitchCommand, text, CancelEmphasizedCommand, LfCommand]);
  }

  lemma UnderlinedWritesLine(text: seq<Byte>)
    ensures Flatten(UnderlinedWrites(text)) == UnderlinedLine(text)
  {
    FlattenCons(LfCommand, []);
    FlattenCons(CancelUnderlineCommand, [LfCommand]);
    FlattenCons(text, [CancelUnderlineCommand, LfCommand]);
    FlattenCons(Dot16PitchCommand, [text, CancelUnderlineCommand, LfCommand]);
    FlattenCons(StartUnderlineCommand, [Dot16PitchCommand, text, CancelUnderlineCommand, LfCommand]);
  }

  lemma InverseWritesLine(text: seq<Byte>)
    ensures Flatten(InverseWrites(text)) == InverseLine(text)
  {
    FlattenCons(LfCommand, []);
    FlattenCons(CancelInverseCommand, [LfCommand]);
    FlattenCons(text, [CancelInverseCommand, LfCommand]);
    FlattenCons(StartInverseCommand, [text, CancelInverseCommand, LfCommand]);
  }

  lemma TrailerWritesTrailer()
    ensures Flatten(TrailerWrites) == Trailer
  {
    FlattenCons(SetRecoveryTimespanCommand, []);
    FlattenCons(CutCommand, [SetRecoveryTimespanCommand]);
    FlattenCons(LfCommand, [CutCommand, SetRecoveryTimespanCommand]);
    FlattenCons(PrintCode128Command, [LfCommand, CutCommand, SetRecoveryTimespanCommand]);
    FlattenCons(LfCommand, [PrintCode128Command, LfCommand, CutCommand, SetRecoveryTimespanCommand]);
    FlattenCons(PrintLogoCommand, [LfCommand, PrintCode128Command, LfCommand, CutCommand, SetRecoveryTimespanCommand]);
  }

  /** The job's writes, issued in order, deliver exactly the job. */
  lemma PrintWritesDeliverJob(text: seq<Byte>)
    ensures Flatten(PrintWrites(text)) == Job(text)
  {
    var a, b, c, d, e := PlainWrites(text), EmphasizedWrites(text), UnderlinedWrites(text), InverseWrites(text), TrailerWrites;
    PlainWritesLine(text);
    EmphasizedWritesLine(text);
    UnderlinedWritesLine(text);
    InverseWritesLine(text);
    TrailerWritesTrailer();
    FlattenAppend(a + b + c + d, e);
    FlattenAppend(a + b + c, d);
    FlattenAppend(a + b, c);
    FlattenAppend(a, b);
  }

  /** Every byte of one print job of `text`, in order. */
  function Job(text: seq<Byte>): (j: seq<Byte>)
    ensures |j| == 4 * |text| + CommandBytes
  {
    PlainLine(text) + EmphasizedLine(text) + UnderlinedLine(text) + InverseLine(text) + Trailer
  }

  /** Number of command bytes in a job besides the four copies of the text. */
  const CommandBytes: nat := 48

  /** Where the `k`-th copy of an `n`-byte text starts in a job. */
  function TextOffset(n: nat, k: nat): nat
    requires k < 4
  {
    [2, n + 7, 2 * n + 15, 3 * n + 21][k]
  }

  /** The job carries the text four times, at the offsets above, and the
      first copy comes right after the 12-dot pitch command. */
  lemma JobTextAt(text: seq<Byte>, k: nat)
    requires k < 4
    ensures |Job(text)| == 4 * |text| + CommandBytes
    ensures Job(text)[..2] == Dot12PitchCommand
    ensures Job(text)[TextOffset(|text|, k) .. TextOffset(|text|, k) + |text|] == text
  {
    if k == 0 {
      PlainCopy(text);
    } else if k == 1 {
      PlainCopy(text);
      EmphasizedCopy(text);
    } else if k == 2 {
      PlainCopy(text);
      UnderlinedCopy(text);
    } else {
      PlainCopy(text);
      InverseCopy(text);
    }
  }

  lemma PlainCopy(text: seq<Byte>)
    ensures Job(text)[..2] == Dot12PitchCommand
    ensures Job(text)[2 .. |text| + 2] == text
  {
    var n := |text|;
    var a, rest := PlainLine(text), EmphasizedLine(text) + UnderlinedLine(text) + InverseLine(text) + Trailer;
    assert |a| == n + 3;
    assert Job(text) == a + rest;
    InFirst(a, rest, 0, 2);
    InFirst(a, rest, 2, n + 2);
  }

  lemma EmphasizedCopy(text: seq<Byte>)
    ensures Job(text)[|text| + 7 .. 2 * |text| + 7] == text
  {
    var n := |text|;
    var a, b, rest := PlainLine(text), EmphasizedLine(text), UnderlinedLine(text) + InverseLine(text) + Trailer;
    assert |a| == n + 3 && |b| == n + 7;
    assert Job(text) == a + (b + rest);
    InSecond(a, b + rest, 4, n + 4);
    InFirst(b, rest, 4, n + 4);
  }

  lemma UnderlinedCopy(text: seq<Byte>)
    ensures Job(text)[2 * |text| + 15 .. 3 * |text| + 15] == text
  {
    var n := |text|;
    var ab, c, rest := PlainLine(text) + EmphasizedLine(text), UnderlinedLine(text), InverseLine(text) + Trailer;
    assert |ab| == 2 * n + 10 && |c| == n + 9;
    assert Job(text) == ab + (c + rest);
    InSecond(ab, c + rest, 5, n + 5);
    InFirst(c, rest, 5, n + 5);
  }

  lemma InverseCopy(text: seq<Byte>)
    ensures Job(text)[3 * |text| + 21 .. 4 * |text| + 21] == text
  {
    var n := |text|;
    var abc, d := PlainLine(text) + EmphasizedLine(text) + UnderlinedLine(text), InverseLine(text);
    assert |abc| == 3 * n + 19 && |d| == n + 5;
    assert Job(text) == abc + (d + Trailer);
    InSecond(abc, d + Trailer, 2, n + 2);
    InFirst(d, Trailer, 2, n + 2);
  }

  /** The job ends with the inverse-off command, a line feed and the
      trailer; its last seven bytes are the cut immediately followed by
      the recovery timer, with nothing after them. */
  lemma JobEnding(text: seq<Byte>)
    ensures Job(text)[4 * |text| + 21 ..] == CancelInverseCommand + LfCommand + Trailer
    ensures Job(text)[4 * |text| + 41 ..] == CutCommand + SetRecoveryTimespanCommand
  {
    var n := |text|;
    var a, b, c, d := PlainLine(text), EmphasizedLine(text), UnderlinedLine(text), InverseLine(text);
    var j := Job(text);
    assert |a| == n + 3 && |b| == n + 7 && |c| == n + 9 && |d| == n + 5 && |Trailer| == 24;
    assert j == (a + b + c) + (d + Trailer);
    InSecond(a + b + c, d + Trailer, n + 2, n + 29);
    InSecond(d, Trailer, 0, 24);
    InFirst(d, Trailer, n + 2, n + 5);
    assert Trailer[17..] == CutCommand + SetRecoveryTimespanCommand;
    assert j[4 * n + 41..] == (j[4 * n + 21..])[20..];
  }

  /** A slice inside the first part of a concatenation. */
  lemma InFirst(p: seq<Byte>, q: seq<Byte>, i: nat, k: nat)
    requires i <= k <= |p|
    ensures (p + q)[i..k] == p[i..k]
  {
  }

  /** A slice inside the second part of a concatenation. */
  lemma InSecond(p: seq<Byte>, q: seq<Byte>, i: nat, k: nat)
    requires i <= k <= |q|
    ensures (p + q)[|p| + i .. |p| + k] == q[i..k]
  {
  }

  /** Reads the text back out of a job: its length follows from the job's
      length, and its first copy starts right after the 12-dot pitch. */
  function JobText(job: seq<Byte>): Option<seq<Byte>> {
    if |job| >= CommandBytes && (|job| - CommandBytes) % 4 == 0
    then Some(job[2 .. 2 + (|job| - CommandBytes) / 4])
    else None
  }

  /** The job determines its text: reading it back gives the text. */
  lemma JobTextOfJob(text: seq<Byte>)
    ensures JobText(Job(text)) == Some(text)
  {
    JobTextAt(text, 0);
  }

  /** Reads the name back out of the greeting's bytes. */
  function GreetingName(greeting: seq<Byte>): Option<string> {
    if |greeting| >= |GreetingPrefix| + |GreetingSuffix|
    then Some(GetString(greeting[|GreetingPrefix| .. |greeting| - |GreetingSuffix|]))
    else None
  }

  /** The greeting's bytes carry the name's bytes right after the prefix's,
      and they are all 7-bit. */
  lemma GreetingBytesSplit(name: string)
    ensures |GreetingBytes(name)| == |name| + 67
    ensures GreetingBytes(name)[|GreetingPrefix| .. |GreetingPrefix| + |name|] == GetBytes(name)
    ensures AllAsciiBytes(GreetingBytes(name))
  {
    GetBytesMiddle(GreetingPrefix, name, GreetingSuffix);
  }

  /** Inside the greeting, each ASCII character of the name is sent as its
      own code and every other one as '?'. */
  lemma GreetingNameBytes(name: string)
    ensures forall i :: 0 <= i < |name| && IsAscii(name[i]) ==>
      GreetingBytes(name)[|GreetingPrefix| + i] as int == name[i] as int
    ensures forall i :: 0 <= i < |name| && !IsAscii(name[i]) ==>
      GreetingBytes(name)[|GreetingPrefix| + i] == Replacement
  {
    GreetingBytesSplit(name);
    var g := GreetingBytes(name);
    forall i | 0 <= i < |name|
      ensures g[|GreetingPrefix| + i] == GetBytes(name)[i]
    {
      assert g[|GreetingPrefix| .. |GreetingPrefix| + |name|][i] == g[|GreetingPrefix| + i];
    }
  }

  /** The name's encoding reaches the printer as it is, right after the
      12-dot pitch command and "Hello ": nothing escapes or filters its
      bytes, so control characters in a name are sent as control bytes. */
  lemma NameInJob(name: string)
    ensures |Job(GreetingBytes(name))| >= 8 + |name|
    ensures Job(GreetingBytes(name))[8 .. 8 + |name|] == GetBytes(name)
  {
    var g := GreetingBytes(name);
    GreetingBytesSplit(name);
    JobTextAt(g, 0);
    var j := Job(g);
    assert j[2 .. 2 + |g|][6 .. 6 + |name|] == j[8 .. 8 + |name|];
  }

  /** Reading the name back from the greeting gives the name with every
      non-ASCII character replaced by '?'; an ASCII name comes back intact. */
  lemma GreetingNameOfGreeting(name: string)
    ensures GreetingName(GreetingBytes(name)) == Some(Folded(name))
    ensures AllAscii(name) ==> GreetingName(GreetingBytes(name)) == Some(name)
  {
    GreetingBytesSplit(name);
    var g := GreetingBytes(name);
    assert |g| - |GreetingSuffix| == |GreetingPrefix| + |name|;
    GetStringGetBytes(name);
  }

  /** The name recovered from a complete print job. */
  function JobName(job: seq<Byte>): Option<string> {
    match JobText(job)
    case None => None
    case Some(text) => GreetingName(text)
  }

  /** Round trip of the whole encoder: the job printed for `name` names
      `name` again, up to the '?' that replaces non-ASCII characters. */
  lemma JobNameOfJob(name: string)
    ensures JobName(Job(GreetingBytes(name))) == Some(Folded(name))
    ensures AllAscii(name) ==> JobName(Job(GreetingBytes(name))) == Some(name)
  {
    JobTextOfJob(GreetingBytes(name));
    GreetingNameOfGreeting(name);
  }

  /** Two ASCII names give the same job only when they are the same name. */
  lemma JobInjective(name1: string, name2: string)
    requires AllAscii(name1) && AllAscii(name2)
    requires Job(GreetingBytes(name1)) == Job(GreetingBytes(name2))
    ensures name1 == name2
  {
    JobNameOfJob(name1);
    JobNameOfJob(name2);
  }
}
