/** Strict conversion between UTF-8 bytes and text (section 3 of RFC 3629): the two directions are inverse, and
    they accept exactly what validation accepts. */
module Utf8Text {
  import opened Wrappers
  import opened Text
  import opened Seqs
  import opened Decoding
  import opened Utf8

  function EncodeChar(c: char): seq<Byte> {
    var n := c as int;
    var n1 := n / 0x40;
    var n2 := n1 / 0x40;
    if n < 0x80 then [n]
    else if n < 0x800 then [0xC0 + n1, 0x80 + n % 0x40]
    else if n < 0x1_0000 then [0xE0 + n2, 0x80 + n1 % 0x40, 0x80 + n % 0x40]
    else [0xF0 + n2 / 0x40, 0x80 + n2 % 0x40, 0x80 + n1 % 0x40, 0x80 + n % 0x40]
  }

  function Encode(s: string): seq<Byte> {
    if s == "" then [] else EncodeChar(s[0]) + Encode(s[1..])
  }

  /** The six low bits of a continuation byte, appended to the bits before it. */
  function Append6(bits: int, b: Byte): int { bits * 0x40 + (b as int - 0x80) }

  /** The scalar value that a sequence stands for. */
  function ScalarOf(s: seq<Byte>): (n: int)
    requires WellFormed(s)
    ensures 0 <= n < 0xD800 || 0xE000 <= n < 0x11_0000
  {
    var lead: int := s[0];
    if |s| == 1 then lead
    else
      assert FitsAt(s[0], 1, s[1]);
      if |s| == 2 then Append6(lead - 0xC0, s[1])
      else
        assert FitsAt(s[0], 2, s[2]);
        if |s| == 3 then Append6(Append6(lead - 0xE0, s[1]), s[2])
        else
          assert FitsAt(s[0], 3, s[3]);
          Append6(Append6(Append6(lead - 0xF0, s[1]), s[2]), s[3])
  }

  /** `std::str::from_utf8`. */
  function Decode(b: seq<Byte>): Option<string>
    decreases |b|
  {
    if b == [] then Some("")
    else if !NextUnit(b).Char? then None
    else
      var n := NextUnit(b).len;
      UnitKinds(b, 1);
      UnitKinds(b, n);
      match Decode(b[n..])
      case None => None
      case Some(rest) => Some([ScalarOf(b[..n]) as char] + rest)
  }

  lemma EncodedCharIsWellFormed(c: char)
    ensures |EncodeChar(c)| == CharLen(c)
    ensures WellFormed(EncodeChar(c))
  {
  }

  lemma DecodedCharacter(c: char)
    requires WellFormed(EncodeChar(c))
    ensures ScalarOf(EncodeChar(c)) == c as int
  {
  }

  lemma Append6Splits(bits: int, b: Byte)
    requires 0x80 <= b <= 0xBF
    ensures Append6(bits, b) / 0x40 == bits && 0x80 + Append6(bits, b) % 0x40 == b
  {
  }

  lemma EncodedScalar(s: seq<Byte>)
    requires WellFormed(s)
    ensures EncodeChar(ScalarOf(s) as char) == s
  {
    if |s| > 1 {
      assert FitsAt(s[0], 1, s[1]);
      var first := s[0] as int - (if |s| == 2 then 0xC0 else if |s| == 3 then 0xE0 else 0xF0);
      Append6Splits(first, s[1]);
      if |s| > 2 {
        assert FitsAt(s[0], 2, s[2]);
        Append6Splits(Append6(first, s[1]), s[2]);
        if |s| > 3 {
          assert FitsAt(s[0], 3, s[3]);
          Append6Splits(Append6(Append6(first, s[1]), s[2]), s[3]);
        }
      }
    }
  }

  lemma {:induction false} EncodedLength(s: string)
    ensures |Encode(s)| == ByteLen(s)
  {
    if s != "" {
      EncodedCharIsWellFormed(s[0]);
      EncodedLength(s[1..]);
    }
  }

  lemma {:induction false} DecodeInvertsEncode(s: string)
    ensures Decode(Encode(s)) == Some(s)
  {
    if s != "" {
      var head, rest := EncodeChar(s[0]), Encode(s[1..]);
      EncodedCharIsWellFormed(s[0]);
      assert head[..|head|] == head;
      UnitKinds(head, |head|);
      UnitsAreStable(head, rest);
      assert (head + rest)[..|head|] == head && (head + rest)[|head|..] == rest;
      DecodedCharacter(s[0]);
      DecodeInvertsEncode(s[1..]);
      assert s == [s[0]] + s[1..];
    }
  }

  lemma {:induction false} EncodeInvertsDecode(b: seq<Byte>)
    requires Decode(b).Some?
    ensures Encode(Decode(b).value) == b
    decreases |b|
  {
    if b != [] {
      var n := NextUnit(b).len;
      UnitKinds(b, 1);
      UnitKinds(b, n);
      EncodeInvertsDecode(b[n..]);
      EncodedScalar(b[..n]);
      SplitAt(b, n);
    }
  }

  lemma {:induction false} DecodeAcceptsText(b: seq<Byte>)
    ensures Decode(b).Some? <==> IsText(b)
    decreases |b|
  {
    Utf8IsDecoder();
    if b != [] && NextUnit(b).Char? {
      var n := NextUnit(b).len;
      UnitKinds(b, 1);
      DecodeAcceptsText(b[n..]);
    }
  }

  /** Text and well-formed bytes correspond one to one: `b` decodes to `s` exactly when `s` encodes to `b`. */
  lemma DecodesExactlyEncodings(b: seq<Byte>, s: string)
    ensures Decode(b) == Some(s) <==> Encode(s) == b
    ensures IsText(Encode(s)) && |Encode(s)| == ByteLen(s)
  {
    DecodeInvertsEncode(s);
    DecodeAcceptsText(Encode(s));
    EncodedLength(s);
    if Decode(b) == Some(s) { EncodeInvertsDecode(b); }
  }
}
