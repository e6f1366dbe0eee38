/** Strict UTF-8 decoding of bytes, as `bytes.decode("utf-8")` performs it:
    shortest forms only, no surrogates, nothing above U+10FFFF, and a
    truncated sequence is an error. */
module Utf8 {
  import opened Wrappers

  newtype byte = x: int | 0 <= x < 256

  predicate IsContinuation(b: byte) {
    0x80 <= b <= 0xBF
  }

  /** The first character of `bs` and the number of bytes it takes, or
      None when `bs` does not start with a well-formed sequence. */
  function DecodeFirst(bs: seq<byte>): (r: Option<(char, nat)>)
    requires bs != []
    ensures r.Some? ==> 1 <= r.value.1 <= |bs|
  {
    var b0 := bs[0] as int;
    if b0 < 0x80 then Some((b0 as char, 1))
    else if 0xC2 <= b0 <= 0xDF then
      if |bs| < 2 || !IsContinuation(bs[1]) then None
      else Some((((b0 - 0xC0) * 64 + (bs[1] as int - 0x80)) as char, 2))
    else if 0xE0 <= b0 <= 0xEF then
      if |bs| < 3 || !IsContinuation(bs[2]) then None
      else
        var lo := if b0 == 0xE0 then 0xA0 else 0x80;
        var hi := if b0 == 0xED then 0x9F else 0xBF;
        if !(lo <= bs[1] as int <= hi) then None
        else Some((((b0 - 0xE0) * 4096 + (bs[1] as int - 0x80) * 64 + (bs[2] as int - 0x80)) as char, 3))
    else if 0xF0 <= b0 <= 0xF4 then
      if |bs| < 4 || !IsContinuation(bs[2]) || !IsContinuation(bs[3]) then None
      else
        var lo := if b0 == 0xF0 then 0x90 else 0x80;
        var hi := if b0 == 0xF4 then 0x8F else 0xBF;
        if !(lo <= bs[1] as int <= hi) then None
        else Some((((b0 - 0xF0) * 0x40000 + (bs[1] as int - 0x80) * 0x1000
                    + (bs[2] as int - 0x80) * 64 + (bs[3] as int - 0x80)) as char, 4))
    else None
  }

  /** The text `bs` encodes, or None when it is not well-formed UTF-8. */
  function Decode(bs: seq<byte>): Option<string>
    decreases |bs|
  {
    if bs == [] then Some([])
    else
      match DecodeFirst(bs)
      case None => None
      case Some((c, width)) =>
        match Decode(bs[width..])
        case None => None
        case Some(rest) => Some([c] + rest)
  }

  predicate IsAscii(bs: seq<byte>) {
    forall i :: 0 <= i < |bs| ==> bs[i] < 0x80
  }

  /** The characters of ASCII bytes. */
  function AsciiText(bs: seq<byte>): (text: string)
    requires IsAscii(bs)
    ensures |text| == |bs|
  {
    seq(|bs|, i requires 0 <= i < |bs| => bs[i] as int as char)
  }

  /** `text` in front of a decoded text; a failure stays a failure. */
  function Prepend(text: string, r: Option<string>): Option<string> {
    match r
    case None => None
    case Some(t) => Some(text + t)
  }

  /** ASCII bytes in front of any bytes decode to themselves, and the rest
      decodes as it would alone. */
  lemma {:induction false} DecodeAsciiPrefix(a: seq<byte>, b: seq<byte>)
    requires IsAscii(a)
    ensures Decode(a + b) == Prepend(AsciiText(a), Decode(b))
    decreases |a|
  {
    if a != [] {
      var ab := a + b;
      assert ab[0] == a[0];
      assert DecodeFirst(ab) == Some((a[0] as int as char, 1));
      assert ab[1..] == a[1..] + b;
      DecodeAsciiPrefix(a[1..], b);
      var c := a[0] as int as char;
      assert AsciiText(a) == [c] + AsciiText(a[1..]);
      match Decode(b)
      case None =>
      case Some(t) =>
        assert Decode(ab[1..]) == Some(AsciiText(a[1..]) + t);
        assert Decode(ab) == Some([c] + (AsciiText(a[1..]) + t));
        assert [c] + (AsciiText(a[1..]) + t) == AsciiText(a) + t;
    } else {
      assert a + b == b;
      assert AsciiText(a) == [];
      match Decode(b)
      case None =>
      case Some(t) => assert [] + t == t;
    }
  }

  lemma DecodeAscii(a: seq<byte>)
    requires IsAscii(a)
    ensures Decode(a) == Some(AsciiText(a))
  {
    DecodeAsciiPrefix(a, []);
    assert a + [] == a;
    assert Decode([]) == Some([]);
    assert AsciiText(a) + [] == AsciiText(a);
  }

  /** A lead byte of a two-byte sequence with nothing after it is refused. */
  lemma TruncatedIsRefused()
    ensures Decode([0xC3]) == None
  {
    assert DecodeFirst([0xC3]) == None;
  }

  /** C3 A9 is the encoding of U+00E9. */
  lemma TwoByteSequence()
    ensures Decode([0xC3, 0xA9]) == Some(['é'])
  {
    var bs: seq<byte> := [0xC3, 0xA9];
    assert DecodeFirst(bs) == Some(('é', 2));
    assert bs[2..] == [];
    assert Decode(bs[2..]) == Some([]);
    assert ['é'] + [] == ['é'];
  }
}
