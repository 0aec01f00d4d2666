/** The printer's device file, opened once per operation: a byte stream
    the module writes commands to and reads the status block from. Which
    calls fail is part of the channel's state (`failsAfter`), so an
    exception at any call, and any number of reply bytes, is covered by
    some channel. Not covered: a write that hands over part of its bytes
    before throwing, a read that never returns, and the stream's write
    buffer (a write counts as written at once, whatever a later flush does). */
module Device {
  import opened Wrappers

  /** One call on the device, as the device saw it. */
  datatype Event =
    | Opened
    | Wrote(data: seq<Byte>)
    | Flushed
    | ReadBack(data: seq<Byte>)
    | Threw(message: string)
    | Closed

  /** The next `n` fallible calls all complete. */
  predicate Succeeds(failsAfter: nat, n: nat) {
    failsAfter >= n
  }

  /** What is left of the fault budget after `n` calls, stopping at the
      first one that throws. A device that threw keeps throwing. */
  function Spend(failsAfter: nat, n: nat): nat {
    if failsAfter >= n then failsAfter - n else 0
  }

  /** The events of issuing `calls` one after the other and stopping at
      the first one that throws. */
  function Attempt(calls: seq<Event>, failsAfter: nat, message: string): seq<Event> {
    if Succeeds(failsAfter, |calls|) then calls
    else calls[..failsAfter] + [Threw(message)]
  }

  /** The outcome of issuing `n` calls. */
  function Conclude(failsAfter: nat, n: nat, message: string): Outcome {
    if Succeeds(failsAfter, n) then Done else Fault(message)
  }

  /** One write event per chunk, in order. */
  function Writes(chunks: seq<seq<Byte>>): (r: seq<Event>)
    ensures |r| == |chunks|
  {
    seq(|chunks|, i requires 0 <= i < |chunks| => Wrote(chunks[i]))
  }

  lemma WritesAppend(a: seq<seq<Byte>>, b: seq<seq<Byte>>)
    ensures Writes(a + b) == Writes(a) + Writes(b)
  {
  }

  /** What the device has seen of a run of calls: the bytes it accepted,
      its events, the calls it still lets complete, and whether every call
      so far completed (`ok`). Once a call has thrown, the caller issues no
      further calls. */
  datatype Session = Session(written: seq<Byte>, trace: seq<Event>, failsAfter: nat, ok: bool)

  /** One fallible call `e` in a session: it completes when the budget
      allows, recording the event and, for a write, the bytes; otherwise it
      throws and the session stops. */
  function Call(s: Session, e: Event, message: string): (r: Session)
    ensures !s.ok ==> r == s
  {
    if !s.ok then s
    else if s.failsAfter >= 1 then
      Session(s.written + (if e.Wrote? then e.data else []), s.trace + [e], s.failsAfter - 1, true)
    else Session(s.written, s.trace + [Threw(message)], 0, false)
  }

  /** Issuing `calls` one after the other. */
  function Issue(s: Session, calls: seq<Event>, message: string): (r: Session)
    ensures !s.ok ==> r == s
    decreases |calls|
  {
    if calls == [] then s else Issue(Call(s, calls[0], message), calls[1..], message)
  }

  /** Issuing `a` and then `b` is issuing `a + b`. */
  lemma {:induction false} IssueAppend(s: Session, a: seq<Event>, b: seq<Event>, message: string)
    ensures Issue(s, a + b, message) == Issue(Issue(s, a, message), b, message)
    decreases |a|
  {
    if a == [] {
      assert a + b == b;
    } else {
      assert (a + b)[0] == a[0] && (a + b)[1..] == a[1..] + b;
      IssueAppend(Call(s, a[0], message), a[1..], b, message);
    }
  }

  /** The events and the outcome of a run of calls: exactly the calls when
      the budget covers them all, otherwise the calls before the budget ran
      out and one exception. */
  lemma {:induction false} IssueAttempt(s: Session, calls: seq<Event>, message: string)
    requires s.ok
    ensures Issue(s, calls, message).trace == s.trace + Attempt(calls, s.failsAfter, message)
    ensures Issue(s, calls, message).failsAfter == Spend(s.failsAfter, |calls|)
    ensures Issue(s, calls, message).ok == Succeeds(s.failsAfter, |calls|)
    decreases |calls|
  {
    if calls != [] {
      var s' := Call(s, calls[0], message);
      if s.failsAfter == 0 {
        assert calls[..0] == [];
      } else {
        IssueAttempt(s', calls[1..], message);
        var k := s.failsAfter;
        if !Succeeds(k, |calls|) {
          assert calls[..k] == [calls[0]] + calls[1..][..k - 1];
        }
        assert calls == [calls[0]] + calls[1..];
      }
    }
  }

  /** The bytes a run of writes delivers: all chunks when the budget covers
      them, otherwise the chunks written before the first exception. */
  lemma {:induction false} IssueWrites(s: Session, chunks: seq<seq<Byte>>, message: string)
    requires s.ok
    ensures Issue(s, Writes(chunks), message).written
      == s.written + Flatten(chunks[..if Succeeds(s.failsAfter, |chunks|) then |chunks| else s.failsAfter])
    decreases |chunks|
  {
    var k := if Succeeds(s.failsAfter, |chunks|) then |chunks| else s.failsAfter;
    if chunks == [] {
      assert chunks[..k] == [];
    } else if s.failsAfter == 0 {
      assert chunks[..k] == [];
    } else {
      var w := Writes(chunks);
      assert w[1..] == Writes(chunks[1..]);
      var s' := Call(s, w[0], message);
      IssueWrites(s', chunks[1..], message);
      assert chunks[..k] == [chunks[0]] + chunks[1..][..k - 1];
    }
  }

  /** Three, four, five and six calls issued one by one. */
  lemma Issue3(s: Session, c: seq<Event>, message: string)
    requires |c| == 3
    ensures Issue(s, c, message) == Call(Call(Call(s, c[0], message), c[1], message), c[2], message)
  {
    var s1 := Call(s, c[0], message);
    var s2 := Call(s1, c[1], message);
    assert Issue(s, c, message) == Issue(s1, c[1..], message);
    assert Issue(s1, c[1..], message) == Issue(s2, c[2..], message);
    assert c[2..][1..] == [];
  }

  lemma Issue4(s: Session, c: seq<Event>, message: string)
    requires |c| == 4
    ensures Issue(s, c, message)
      == Call(Call(Call(Call(s, c[0], message), c[1], message), c[2], message), c[3], message)
  {
    Issue3(Call(s, c[0], message), c[1..], message);
  }

  lemma Issue5(s: Session, c: seq<Event>, message: string)
    requires |c| == 5
    ensures Issue(s, c, message)
      == Call(Call(Call(Call(Call(s, c[0], message), c[1], message), c[2], message), c[3], message), c[4], message)
  {
    Issue4(Call(s, c[0], message), c[1..], message);
  }

  lemma Issue6(s: Session, c: seq<Event>, message: string)
    requires |c| == 6
    ensures Issue(s, c, message)
      == Call(Call(Call(Call(Call(Call(s, c[0], message), c[1], message), c[2], message), c[3], message), c[4], message), c[5], message)
  {
    Issue5(Call(s, c[0], message), c[1..], message);
  }

  class Channel {
    /** Every byte handed to the stream by a completed write, in order.
        The stream is unbuffered here: these bytes count as written even
        when a later flush throws. */
    var written: seq<Byte>
    /** The bytes the device holds ready for the next read. */
    var reply: seq<Byte>
    /** How many more fallible calls complete; every later one throws. A
        device that never fails is one whose budget exceeds the calls an
        operation makes. */
    var failsAfter: nat
    /** The message of the exception a failing call raises. */
    const faultMessage: string
    /** Every call made on the device, in order. */
    ghost var trace: seq<Event>

    constructor (reply: seq<Byte>, failsAfter: nat, faultMessage: string)
      ensures written == [] && trace == []
      ensures this.reply == reply && this.failsAfter == failsAfter && this.faultMessage == faultMessage
    {
      this.written := [];
      this.reply := reply;
      this.failsAfter := failsAfter;
      this.faultMessage := faultMessage;
      this.trace := [];
    }

    /** The channel seen as a session; `ok` says whether the last call
        completed. */
    ghost function State(ok: bool): Session
      reads this
    {
      Session(written, trace, failsAfter, ok)
    }

    /** Opens the device file; throws when the path cannot be opened. */
    method Open() returns (o: Outcome)
      modifies this
      ensures o == Conclude(old(failsAfter), 1, faultMessage)
      ensures State(o.Done?) == Call(old(State(true)), Opened, faultMessage)
      ensures reply == old(reply)
    {
      o := Conclude(failsAfter, 1, faultMessage);
      trace := trace + if o.Done? then [Opened] else [Threw(faultMessage)];
      failsAfter := Spend(failsAfter, 1);
    }

    /** Writes `data` to the device: all of it is accepted, or the call
        throws and none of it is. */
    method Write(data: seq<Byte>) returns (o: Outcome)
      modifies this
      ensures o == Conclude(old(failsAfter), 1, faultMessage)
      ensures State(o.Done?) == Call(old(State(true)), Wrote(data), faultMessage)
      ensures reply == old(reply)
    {
      o := Conclude(failsAfter, 1, faultMessage);
      trace := trace + if o.Done? then [Wrote(data)] else [Threw(faultMessage)];
      if o.Done? {
        written := written + data;
      }
      failsAfter := Spend(failsAfter, 1);
    }

    /** Pushes buffered bytes out to the device. With the unbuffered
        stream modelled here it adds no bytes; it completes or throws. */
    method Flush() returns (o: Outcome)
      modifies this
      ensures o == Conclude(old(failsAfter), 1, faultMessage)
      ensures State(o.Done?) == Call(old(State(true)), Flushed, faultMessage)
      ensures reply == old(reply)
    {
      o := Conclude(failsAfter, 1, faultMessage);
      trace := trace + if o.Done? then [Flushed] else [Threw(faultMessage)];
      failsAfter := Spend(failsAfter, 1);
    }

    /** Reads up to `buf.Length` bytes into the front of `buf` and returns
        how many it read: as many as the device has ready, at most the
        buffer's length. The rest of `buf` is left as it was. */
    method Read(buf: array<Byte>) returns (o: Outcome, n: nat)
      modifies this, buf
      ensures o == Conclude(old(failsAfter), 1, faultMessage)
      ensures n == if o.Done? then Min(buf.Length, |old(reply)|) else 0
      ensures buf[..n] == old(reply)[..n] && buf[n..] == old(buf[n..])
      ensures reply == old(reply)[n..]
      ensures State(o.Done?)
        == Call(old(State(true)), ReadBack(old(reply)[..Min(buf.Length, |old(reply)|)]), faultMessage)
    {
      o := Conclude(failsAfter, 1, faultMessage);
      n := if o.Done? then Min(buf.Length, |reply|) else 0;
      forall i | 0 <= i < n {
        buf[i] := reply[i];
      }
      trace := trace + if o.Done? then [ReadBack(reply[..n])] else [Threw(faultMessage)];
      reply := reply[n..];
      failsAfter := Spend(failsAfter, 1);
    }

    /** Releases the device file; this never fails. */
    method Close()
      modifies this
      ensures trace == old(trace) + [Closed]
      ensures written == old(written) && reply == old(reply) && failsAfter == old(failsAfter)
    {
      trace := trace + [Closed];
    }
  }

  function Min(a: nat, b: nat): nat {
    if a <= b then a else b
  }
}
