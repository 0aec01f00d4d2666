/** Small shared vocabulary: bytes, optional values and the outcome of a
    device call that may throw. */
module Wrappers {

  /** One octet on the wire to or from the printer. */
  type Byte = bv8

  datatype Option<T> = None | Some(value: T)

  /** What a device call reports: it completed, or it raised an exception
      carrying a message. Used with `:-`, a `Fault` leaves the enclosing
      method at once, as a thrown exception leaves a `try` block. */
  datatype Outcome = Done | Fault(message: string) {
    predicate IsFailure() {
      Fault?
    }

    function PropagateFailure(): Outcome
      requires Fault?
    {
      this
    }
  }

  /** A value, or the message of the exception raised while computing it. */
  datatype Result<T> = Ok(value: T) | Err(message: string) {
    predicate IsFailure() {
      Err?
    }

    function PropagateFailure(): Outcome
      requires Err?
    {
      Fault(message)
    }

    function Extract(): T
      requires Ok?
    {
      value
    }
  }

  /** The chunks laid end to end. */
  function Flatten(chunks: seq<seq<Byte>>): (r: seq<Byte>)
    ensures chunks == [] ==> r == []
  {
    if chunks == [] then [] else chunks[0] + Flatten(chunks[1..])
  }

  /** Flattening distributes over concatenation. */
  lemma {:induction false} FlattenAppend(a: seq<seq<Byte>>, b: seq<seq<Byte>>)
    ensures Flatten(a + b) == Flatten(a) + Flatten(b)
    decreases |a|
  {
    if a == [] {
      assert a + b == b;
    } else {
      assert (a + b)[0] == a[0] && (a + b)[1..] == a[1..] + b;
      FlattenAppend(a[1..], b);
    }
  }

  /** The chunks before position `k` flatten to a prefix of all of them;
      a strictly shorter one when a non-empty chunk is left out. */
  lemma FlattenPrefix(chunks: seq<seq<Byte>>, k: nat)
    requires k <= |chunks|
    ensures Flatten(chunks[..k]) <= Flatten(chunks)
    ensures k < |chunks| && chunks[|chunks| - 1] != [] ==> |Flatten(chunks[..k])| < |Flatten(chunks)|
  {
    assert chunks == chunks[..k] + chunks[k..];
    FlattenAppend(chunks[..k], chunks[k..]);
    if k < |chunks| {
      var n := |chunks| - 1;
      assert chunks[k..] == chunks[k..n] + [chunks[n]];
      FlattenAppend(chunks[k..n], [chunks[n]]);
      assert Flatten([chunks[n]]) == chunks[n] + Flatten([]) by {
        assert [chunks[n]][1..] == [];
      }
    }
  }
}
