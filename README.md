# Star TUP900 printer module — verified model

The StarTup900Module is an IoT Edge module that drives a Star TUP900
kiosk printer through its device file. It answers two direct methods:

* **print**: it greets a name. The text
  `"Hello " + name + ", welcome to this Azure IoT Edge C# module running on Ubuntu!"`
  is ASCII-encoded and sent four times, in four styles (12-dot pitch,
  emphasised 15-dot, underlined 16-dot, inverse). After that come the stored
  logo, a Code128 "MVP" barcode, a paper cut and the arming of the
  presenter's automatic paper recovery. The job is a fixed run of 23 writes
  of Star Line Mode commands.
* **status**: it enables the printer's automatic status block (ASB). It
  then reads at most ten bytes into a zeroed buffer. When at least one byte
  arrived, it decodes whether the paper in the presenter was collected
  (ninth byte, bits 0x04 and 0x02 both clear) and whether the paper roll is
  missing (sixth byte, bit 0x04 set).

Both methods answer 200 unless an exception ends their `try` block; then
they answer 500 with "Failed to print message (…)" or "Failed to read
status (…)" carrying the exception's message. For a status query that
exception comes from a device call. For a print it comes from a device call
or from deserialising the request.

The model is split into these modules:

* `Tup900Commands` (`tup900_commands.dfy`): the command table, byte for byte.
* `Ascii` (`ascii.dfy`): ASCII encoding with the '?' replacement for
  characters it cannot represent.
* `AsbStatus` (`asb_status.dfy`): the pure decode of the ten-byte status
  buffer.
* `PrintJob` (`print_job.dfy`): the print job as a pure function of the
  text. It comes with lemmas about its layout, its ending and the round
  trip back to the name.
* `Device` (`device.dfy`): the device file as a class `Channel`.
  * Its fields are the bytes written so far, the bytes it holds ready for
    reading, and the number of calls that still complete before every
    further call throws.
  * `Session`, `Call` and `Issue` describe, as values, a run of device calls
    that stops at the first exception.
* `ModuleBackgroundService` (`module_background_service.dfy`): the two
  callbacks.
  * They are imperative methods over a `Channel`. They mirror the source's
    straight-line writes, the `try`/`catch` (an `Outcome` failure returns
    early, as the exception does) and the in-place read into an array.
  * Each is proved against a specification function of the inputs and the
    device's old state (`PrintResult`, `PrintEvents`, `Delivered`,
    `StatusResult`, `StatusEvents`).
  * Lemmas about those functions state what the source promises.

The device's behaviour is a parameter of the model: the reply bytes and how
many calls complete. So an exception at any call, and any number of reply
bytes, is covered by some `Channel`. Three behaviours of a real device
file are not covered (see "## Left out"): a write that delivers part of
its bytes before throwing, a read that never returns, and the stream's
write buffer (a write counts as written at once, even when a later flush
throws).

Two consequences of the code are worth stating plainly:

* Deserialising the request happens inside the `try` block
  (ModuleBackgroundService.cs:143-147). A request that cannot be
  deserialised, or deserialises to null, is answered 500 with
  "Failed to print message (…)"; the exception does not leave the callback.
  * Model: `PrintRequest.Unreadable`.
  * A missing or null `name` prints as the empty name.
* A status reply of 1 to 9 bytes is decoded together with the buffer's
  zero padding.
  * With at most 8 bytes, `paperCollected` reads true.
  * With at most 5 bytes, `rollMissing` reads false.
  * A short read is not reported differently from a full one: it gets the
    same 200 and the same status text (`StatusCode`), and flags taken from
    the padding (`ShortReplyPadding`).

## Model

| member | source | states |
|---|---|---|
| Tup900Commands.CatalogWellFormed | modules/StarTup900Module/ModuleBackgroundService.cs:288-327 | The table has sixteen non-empty commands; every one but the line feed starts with ESC. |
| Ascii.EncodeChar | modules/StarTup900Module/ModuleBackgroundService.cs:154 | One character becomes one byte below 0x80: its own code when it is ASCII, '?' (0x3F) otherwise. |
| Ascii.GetBytes | modules/StarTup900Module/ModuleBackgroundService.cs:154 | The encoding has one byte per character and every byte is below 0x80. ASCII characters keep their code and every other character becomes '?'. |
| Ascii.GetBytesAppend | modules/StarTup900Module/ModuleBackgroundService.cs:153-154 | Encoding a concatenation encodes each part in place. |
| Ascii.GetStringGetBytes | modules/StarTup900Module/ModuleBackgroundService.cs:154 | Decoding the encoding gives the text with non-ASCII characters folded to '?'. An ASCII text round-trips exactly. |
| Ascii.GetBytesGetString | modules/StarTup900Module/ModuleBackgroundService.cs:154 | Every 7-bit byte string is the encoding of an ASCII text; this is the other direction of the round trip. |
| Ascii.GetBytesInjective | modules/StarTup900Module/ModuleBackgroundService.cs:154 | Two texts with the same encoding agree up to '?' folding, and are equal when both are ASCII. |
| AsbStatus.Mask04 | modules/StarTup900Module/ModuleBackgroundService.cs:92-97 | The 0x04 mask tests exactly bit 2 of the byte read as an integer. |
| AsbStatus.Mask02 | modules/StarTup900Module/ModuleBackgroundService.cs:92 | The 0x02 mask tests exactly bit 1 of the byte read as an integer. |
| AsbStatus.PaperCollected | modules/StarTup900Module/ModuleBackgroundService.cs:92 | Both presenter bits clear, stated with the two masks of the source. This is the same as the combined mask 0x06 being clear. |
| AsbStatus.RollMissing | modules/StarTup900Module/ModuleBackgroundService.cs:97 | The roll sensor mask 0x04 of the sixth byte is set. |
| AsbStatus.Decode | modules/StarTup900Module/ModuleBackgroundService.cs:91-99 | The two flags of a ten-byte buffer, each from its own mask test. |
| AsbStatus.PaperCollectedIff | modules/StarTup900Module/ModuleBackgroundService.cs:92 | paperCollected holds if and only if bits 1 and 2 of the ninth byte are both clear. |
| AsbStatus.RollMissingIff | modules/StarTup900Module/ModuleBackgroundService.cs:97 | rollMissing holds if and only if bit 2 of the sixth byte is set. |
| AsbStatus.DecodeReadsOnlyItsBits | modules/StarTup900Module/ModuleBackgroundService.cs:92-97 | Two buffers that agree on those three bits decode to the same flags. No other byte or bit matters. |
| AsbStatus.DecodeAllZero | modules/StarTup900Module/ModuleBackgroundService.cs:82-97 | The all-zero buffer decodes to paper collected and roll present. |
| PrintJob.PrintWritesDeliverJob | modules/StarTup900Module/ModuleBackgroundService.cs:158-193 | The 23 writes, concatenated in order, are exactly the four styled lines followed by logo, LF, barcode, LF, cut and recovery timer. |
| PrintJob.Greeting | modules/StarTup900Module/ModuleBackgroundService.cs:153 | The greeting is the name's length plus 67 characters long: "Hello ", then the name unchanged, then the fixed welcome text. |
| PrintJob.GreetingBytes | modules/StarTup900Module/ModuleBackgroundService.cs:154 | The bytes sent for the greeting: the name's length plus 67 of them, all below 0x80. |
| PrintJob.PrintWrites | modules/StarTup900Module/ModuleBackgroundService.cs:158-193 | The 23 write chunks in source order. The text is chunks 1, 5, 10 and 14, the first chunk is the 12-dot pitch, and the last two are the cut and the recovery timer. |
| PrintJob.Job | modules/StarTup900Module/ModuleBackgroundService.cs:158-193 | Every byte of a job, as one explicit concatenation: four copies of the text plus 48 command bytes. |
| PrintJob.JobTextAt | modules/StarTup900Module/ModuleBackgroundService.cs:158-178 | The job carries the text unchanged four times, at fixed offsets. The first copy comes right after the 12-dot pitch command. |
| PrintJob.JobEnding | modules/StarTup900Module/ModuleBackgroundService.cs:179-193 | For every text, including the greeting of the empty name, the job ends with inverse-off, LF and the trailer. Its last bytes are the cut immediately followed by the recovery timer. |
| PrintJob.JobTextOfJob | modules/StarTup900Module/ModuleBackgroundService.cs:158-193 | The text can be read back from the job it produced. |
| PrintJob.GreetingBytesSplit | modules/StarTup900Module/ModuleBackgroundService.cs:153-154 | The greeting's bytes are the name's length plus 67 long. They carry the name's encoding right after "Hello ", and all of them are below 0x80. |
| PrintJob.NameInJob | modules/StarTup900Module/ModuleBackgroundService.cs:153-159 | The name's encoding goes to the printer unchanged at offset 8 of the job: nothing escapes or filters it, so control characters in a name are sent as control bytes. |
| PrintJob.GreetingNameBytes | modules/StarTup900Module/ModuleBackgroundService.cs:153-154 | Each ASCII character of the name is sent as its own code, and each other character as '?'. |
| PrintJob.GreetingNameOfGreeting | modules/StarTup900Module/ModuleBackgroundService.cs:153-154 | The name can be read back from the greeting's bytes, up to '?' folding, and exactly when it is ASCII. |
| PrintJob.JobNameOfJob | modules/StarTup900Module/ModuleBackgroundService.cs:153-193 | Round trip of the whole encoder: the job printed for a name yields that name again. |
| PrintJob.JobInjective | modules/StarTup900Module/ModuleBackgroundService.cs:153-193 | Different ASCII names never produce the same job. |
| Device.Channel.Open | modules/StarTup900Module/ModuleBackgroundService.cs:156 | Opening the device file either completes or throws the device's exception, and consumes one call. |
| Device.Channel.Write | modules/StarTup900Module/ModuleBackgroundService.cs:158 | A write appends its bytes to what the device has received and records the call; a throwing write appends nothing. |
| Device.Channel.Flush | modules/StarTup900Module/ModuleBackgroundService.cs:77 | A flush writes nothing new; it completes or throws. |
| Device.Channel.Read | modules/StarTup900Module/ModuleBackgroundService.cs:83 | A read fills the front of the buffer with at most buffer-length ready bytes and returns their count. The rest of the buffer is untouched and the bytes read are consumed. |
| Device.Channel.Close | modules/StarTup900Module/ModuleBackgroundService.cs:194 | Leaving the `using` block closes the file and changes nothing else. |
| Device.IssueAppend | modules/StarTup900Module/ModuleBackgroundService.cs:158-193 | Issuing two runs of calls one after the other is issuing their concatenation. |
| Device.IssueAttempt | modules/StarTup900Module/ModuleBackgroundService.cs:143-201 | A run of calls records every call when all complete. Otherwise it records the calls before the first exception and the exception, and the run fails. |
| Device.IssueWrites | modules/StarTup900Module/ModuleBackgroundService.cs:156-194 | A run of writes delivers all chunks when all complete, and otherwise exactly the chunks before the first exception. |
| ModuleBackgroundService.RequestName | modules/StarTup900Module/ModuleBackgroundService.cs:145-153 | Deserialising gives the name. A request without a name greets the empty name, and only an unreadable request fails, with its exception's message. |
| ModuleBackgroundService.PrintResult | modules/StarTup900Module/ModuleBackgroundService.cs:132-201 | The specification of a print: 500 with the deserialisation message for an unreadable request; 200 with "Message deserialized and printed." when all 24 device calls complete; otherwise 500 with the device's exception message. |
| ModuleBackgroundService.Delivered | modules/StarTup900Module/ModuleBackgroundService.cs:156-194 | The specification of what a print leaves on the device: the job's chunks up to the first exception. |
| ModuleBackgroundService.PrintMethodCallBack | modules/StarTup900Module/ModuleBackgroundService.cs:132-201 | The response and the code are those of PrintResult. The device's new state is: the print's events appended to the trace, the delivered prefix of the job appended to the written bytes, 24 calls spent from the fault budget (none for an unreadable request), and the reply untouched. A 200 means the whole job, and nothing else, was appended to the device. |
| ModuleBackgroundService.PrintToDevice | modules/StarTup900Module/ModuleBackgroundService.cs:143-195 | An unreadable request fails with its message before the device is touched. Otherwise it opens, makes 23 writes stopping at the first exception, and closes when opened. The outcome, the trace, the written bytes and the fault budget (24 calls spent) are as specified. |
| ModuleBackgroundService.PrintSession | modules/StarTup900Module/ModuleBackgroundService.cs:156-194 | The events, delivered bytes, outcome and remaining fault budget of an open followed by the job's writes. |
| ModuleBackgroundService.JobCalls | modules/StarTup900Module/ModuleBackgroundService.cs:158-193 | The job's writes split into the four styled lines and the trailer, issued in that order. |
| ModuleBackgroundService.WriteJob | modules/StarTup900Module/ModuleBackgroundService.cs:158-193 | The 23 writes leave the device in the state of issuing the job's writes in order, stopping at the first exception. |
| ModuleBackgroundService.WritePlainLine | modules/StarTup900Module/ModuleBackgroundService.cs:158-161 | The 12-dot pitch, the text and LF, in that order. |
| ModuleBackgroundService.WriteEmphasizedLine | modules/StarTup900Module/ModuleBackgroundService.cs:163-168 | Emphasis on, 15-dot pitch, text, emphasis off, LF. |
| ModuleBackgroundService.WriteUnderlinedLine | modules/StarTup900Module/ModuleBackgroundService.cs:170-175 | Underline on, 16-dot pitch, text, underline off, LF. |
| ModuleBackgroundService.WriteInverseLine | modules/StarTup900Module/ModuleBackgroundService.cs:177-181 | Inverse on, text, inverse off, LF. |
| ModuleBackgroundService.WriteTrailer | modules/StarTup900Module/ModuleBackgroundService.cs:183-193 | Logo, LF, barcode, LF, cut, recovery timer. |
| ModuleBackgroundService.PrintCode | modules/StarTup900Module/ModuleBackgroundService.cs:141-200 | A print answers 200 if and only if the request was readable and the open and all 23 writes completed. Otherwise it answers 500 with "Failed to print message (" + the exception's message + ")". |
| ModuleBackgroundService.DeliveredIsPrefix | modules/StarTup900Module/ModuleBackgroundService.cs:156-201 | Whatever the device does, what it received is a prefix of the job. It is the whole job if and only if every call completed. |
| ModuleBackgroundService.CompletedPrintEndsWithCut | modules/StarTup900Module/ModuleBackgroundService.cs:191-193 | A completed print, for any name including the empty one, ends with the cut immediately followed by the recovery timer, and nothing after them. |
| ModuleBackgroundService.CompletedPrintEvents | modules/StarTup900Module/ModuleBackgroundService.cs:156-194 | A completed print is open, the 23 writes in source order ending with cut and recovery timer, then close. |
| ModuleBackgroundService.ExecuteRecoveryNeverPrinted | modules/StarTup900Module/ModuleBackgroundService.cs:323 | No write call of a print is the declared recovery-execution command. (Its bytes can still be sent inside the name: see ExecuteRecoveryThroughName.) |
| ModuleBackgroundService.ExecuteRecoveryThroughName | modules/StarTup900Module/ModuleBackgroundService.cs:153-159 | A name made of the four bytes of the recovery-execution command puts exactly that command on the printer, at bytes 8 to 11 of the job. |
| ModuleBackgroundService.ExecuteRecoveryNeverQueried | modules/StarTup900Module/ModuleBackgroundService.cs:323 | Nor is it written by a status query. |
| ModuleBackgroundService.AsbBuffer | modules/StarTup900Module/ModuleBackgroundService.cs:82-83 | The ten-byte buffer after a completed read: the first min(10, reply length) reply bytes, with zeros after them. |
| ModuleBackgroundService.StatusResult | modules/StarTup900Module/ModuleBackgroundService.cs:60-112 | The specification of a status query: 500 with "Failed to read status (…)" and both flags false unless all four calls complete; 200 with both flags false for an empty reply; otherwise 200 with the decoded zero-padded buffer. |
| ModuleBackgroundService.StatusMethodCallBack | modules/StarTup900Module/ModuleBackgroundService.cs:60-112 | The response and the code are those of StatusResult. The device's new state is: the query's events appended to the trace, the enable-ASB command appended to the written bytes once the write completes, at most ten reply bytes consumed by a completed read, and 4 calls spent from the fault budget. |
| ModuleBackgroundService.QueryStatus | modules/StarTup900Module/ModuleBackgroundService.cs:71-106 | The `try` block gives flags only when every call completed and at least one byte arrived; otherwise the flags keep their defaults. Its outcome and the device's new trace, written bytes, reply and fault budget are as specified. |
| ModuleBackgroundService.StatusSession | modules/StarTup900Module/ModuleBackgroundService.cs:73-83 | The events, written bytes, outcome and remaining fault budget of open, enable-ASB write, flush and read. |
| ModuleBackgroundService.ReadAsb | modules/StarTup900Module/ModuleBackgroundService.cs:73-104 | Write, flush, read into a fresh zeroed ten-byte array; decode that array only when the read returned bytes. |
| ModuleBackgroundService.StatusCode | modules/StarTup900Module/ModuleBackgroundService.cs:69-112 | A status query answers 200 if and only if open, write, flush and read completed. Otherwise it answers 500 with "Failed to read status (…)", and both flags stay false. |
| ModuleBackgroundService.EnableAsbOnceBeforeRead | modules/StarTup900Module/ModuleBackgroundService.cs:76-83 | The only write is the enable-ASB command, as the second call. The only read is the fourth call, after that write, and takes at most ten bytes. |
| ModuleBackgroundService.NoReplyKeepsDefaults | modules/StarTup900Module/ModuleBackgroundService.cs:85-104 | When the read returns no byte, the answer is 200, the status text is unchanged and both flags are false. |
| ModuleBackgroundService.FullReplyDecodes | modules/StarTup900Module/ModuleBackgroundService.cs:82-99 | With at least nine reply bytes, the flags are the mask tests of the reply's own ninth and sixth bytes, in both directions. |
| ModuleBackgroundService.ShortReplyPadding | modules/StarTup900Module/ModuleBackgroundService.cs:82-99 | A short reply decodes the zero padding. With at most eight bytes the paper reads as collected; with at most five the roll reads as present. |

## Left out

- The IoT Edge `ModuleClient` (MQTT transport, opening, the connection
  status handler, method registration, `SendEventAsync` of the responses):
  foreign SDK I/O. The callbacks return the response value and its code
  instead.
- JSON and UTF-8 handling of requests and responses. A request is the
  result of deserialisation: a name, no name, or an exception message.
- Timestamps, logging, the environment lookup of the device identity (the
  identity is a parameter) and the host bootstrap in Program.cs.
- The device path: it is fixed and never reassigned, so there is no
  configuration behaviour to model.
- The race between a print and a status query on the same device file: it
  is concurrency.
- Device.Channel.Read: always returns all ready bytes up to the buffer's
  length. A real `FileStream.Read` may return fewer; the short-reply lemmas
  cover the counts that can result.
  It also always returns: the source reads with no timeout
  (ModuleBackgroundService.cs:80-83), so a printer that never answers
  blocks the status query for ever, which the model does not capture.
- Device.Channel.Close: never throws. Exceptions raised by flushing
  buffered writes at dispose time surface in the model at the write
  instead.
- Device.Channel.Open: does not model the file access mode (write-only for
  print, read-write for status).
- Device.Channel.Flush: the stream is modelled unbuffered, so every
  completed write counts as written at once. In the source the `FileStream`
  buffers writes, and the flush before the status read
  (ModuleBackgroundService.cs:76-77) is what delivers the enable-ASB
  command. When that flush throws, the model still counts the command as
  written, although the printer may never have received it.
- Device.Channel.Write: a write appends its whole chunk or nothing. A
  real stream can deliver part of a chunk before throwing, for example when
  the buffered job is flushed partially at dispose. So `Delivered` always
  stops at a chunk boundary, while the real device may stop inside one.
- Ascii.GetBytes: characters are Unicode scalar values. A lone UTF-16
  surrogate has no counterpart, and a surrogate pair is one character that
  becomes one '?'.
