/** The ASCII text encoding the module uses for the greeting: one byte per
    character, the character's own code when it is below 0x80 and the
    replacement byte '?' otherwise. Characters are Unicode scalar values. */
module Ascii {
  import opened Wrappers

  /** The byte that stands in for a character ASCII cannot represent. */
  const Replacement: Byte := 0x3F

  predicate IsAscii(c: char) {
    c as int < 0x80
  }

  predicate AllAscii(s: string) {
    forall i :: 0 <= i < |s| ==> IsAscii(s[i])
  }

  predicate AllAsciiBytes(b: seq<Byte>) {
    forall i :: 0 <= i < |b| ==> b[i] < 0x80
  }

  /** A 7-bit code fits a byte unchanged. */
  lemma SevenBitCode(x: int)
    requires 0 <= x < 0x80
    ensures (x as Byte) as int == x && x as Byte < 0x80
  {
  }

  /** One character's byte: its own code when ASCII, '?' otherwise. */
  function EncodeChar(c: char): (b: Byte)
    ensures b < 0x80
    ensures IsAscii(c) ==> b as int == c as int
    ensures !IsAscii(c) ==> b == Replacement
  {
    if IsAscii(c) then
      var code := c as int;
      SevenBitCode(code);
      code as Byte
    else Replacement
  }

  /** The bytes of `s`: same length, every byte 7-bit, ASCII characters
      kept as their code and every other character replaced by '?'. */
  function GetBytes(s: string): (r: seq<Byte>)
    ensures |r| == |s|
    ensures AllAsciiBytes(r)
    ensures forall i :: 0 <= i < |s| && IsAscii(s[i]) ==> r[i] as int == s[i] as int
    ensures forall i :: 0 <= i < |s| && !IsAscii(s[i]) ==> r[i] == Replacement
  {
    seq(|s|, i requires 0 <= i < |s| => EncodeChar(s[i]))
  }

  /** Reading bytes back as ASCII text, with '?' for a byte above 0x7F. */
  function GetString(b: seq<Byte>): (s: string)
    ensures |s| == |b|
  {
    seq(|b|, i requires 0 <= i < |b| => if b[i] < 0x80 then (b[i] as int) as char else '?')
  }

  /** `s` with every non-ASCII character replaced by '?': the text the
      printer actually receives. */
  function Folded(s: string): (f: string)
    ensures |f| == |s|
  {
    seq(|s|, i requires 0 <= i < |s| => if IsAscii(s[i]) then s[i] else '?')
  }

  /** Encoding a concatenation encodes each part in place. */
  lemma GetBytesAppend(a: string, b: string)
    ensures GetBytes(a + b) == GetBytes(a) + GetBytes(b)
  {
    var l, r := GetBytes(a + b), GetBytes(a) + GetBytes(b);
    forall i | 0 <= i < |l|
      ensures l[i] == r[i]
    {
      if i < |a| {
        assert (a + b)[i] == a[i];
      } else {
        assert (a + b)[i] == b[i - |a|];
      }
    }
  }

  /** The encoding of a text in the middle of a concatenation sits at the
      same place in the encoding of the concatenation. */
  lemma GetBytesMiddle(a: string, b: string, c: string)
    ensures GetBytes(a + b + c)[|a| .. |a| + |b|] == GetBytes(b)
  {
    GetBytesAppend(a + b, c);
    GetBytesAppend(a, b);
  }

  /** Decoding what was encoded gives back the text with its non-ASCII
      characters replaced by '?', so exactly the ASCII texts survive. */
  lemma GetStringGetBytes(s: string)
    ensures GetString(GetBytes(s)) == Folded(s)
    ensures AllAscii(s) ==> GetString(GetBytes(s)) == s
  {
    var l := GetString(GetBytes(s));
    forall i | 0 <= i < |s| ensures l[i] == Folded(s)[i] {
      if IsAscii(s[i]) {
        assert GetBytes(s)[i] as int == s[i] as int;
      }
    }
    assert l == Folded(s);
  }

  /** Every 7-bit byte string is the encoding of some text. */
  lemma GetBytesGetString(b: seq<Byte>)
    requires AllAsciiBytes(b)
    ensures AllAscii(GetString(b))
    ensures GetBytes(GetString(b)) == b
  {
    var s := GetString(b);
    forall i | 0 <= i < |b| ensures IsAscii(s[i]) && GetBytes(s)[i] == b[i] {
      assert s[i] as int == b[i] as int;
    }
  }

  /** The encoding is injective on ASCII texts and identifies each
      non-ASCII character with '?'. */
  lemma GetBytesInjective(s: string, t: string)
    requires GetBytes(s) == GetBytes(t)
    ensures Folded(s) == Folded(t)
    ensures AllAscii(s) && AllAscii(t) ==> s == t
  {
    GetStringGetBytes(s);
    GetStringGetBytes(t);
  }
}
