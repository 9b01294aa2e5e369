/** The hexadecimal text form of a token digest, under which a session's row is stored. */
module SessionTokenKey {
  import opened Wrappers
  import opened SessionModel

  /** ASCII codes of the lower-case hexadecimal digits. */
  function HexDigit(n: nat): (c: Byte)
    requires n < 16
    ensures IsLowerHex(c)
  {
    if n < 10 then 0x30 + n else 0x61 + n - 10
  }

  predicate IsLowerHex(c: Byte) {
    0x30 <= c <= 0x39 || 0x61 <= c <= 0x66
  }

  function DigitValue(c: Byte): (r: Option<nat>)
    ensures r.Some? ==> r.value < 16
    ensures IsLowerHex(c) ==> r.Some? && HexDigit(r.value) == c
    ensures forall n :: 0 <= n < 16 && c == HexDigit(n) ==> r == Some(n)
  {
    if 0x30 <= c <= 0x39 then Some(c - 0x30)
    else if 0x61 <= c <= 0x66 then Some(c - 0x61 + 10)
    else if 0x41 <= c <= 0x46 then Some(c - 0x41 + 10)
    else None
  }

  /** The digits in order, as they are printed and as they are read in either case. */
  lemma DigitsAreHexadecimal(n: nat)
    requires n < 16
    ensures HexDigit(n) == "0123456789abcdef"[n] as int
    ensures DigitValue("0123456789abcdef"[n] as int) == DigitValue("0123456789ABCDEF"[n] as int) == Some(n)
  {
    assert n < 8 ==> n == 0 || n == 1 || n == 2 || n == 3 || n == 4 || n == 5 || n == 6 || n == 7;
    assert n >= 8 ==> n == 8 || n == 9 || n == 10 || n == 11 || n == 12 || n == 13 || n == 14 || n == 15;
  }

  const PLUS: Byte := 0x2B

  /** `u8::from_str_radix` on a two-byte chunk: a leading plus sign counts as no digit. */
  function ParsePair(high: Byte, low: Byte): Option<Byte> {
    var l := DigitValue(low);
    if high == PLUS then (if l.Some? then Some(l.value) else None)
    else
      var h := DigitValue(high);
      if h.Some? && l.Some? then Some(16 * h.value + l.value) else None
  }

  function ToHex(digest: seq<Byte>): (text: seq<Byte>)
    ensures |text| == 2 * |digest|
    ensures forall i :: 0 <= i < |digest| ==>
              text[2 * i] == HexDigit(digest[i] / 16) && text[2 * i + 1] == HexDigit(digest[i] % 16)
  {
    if digest == [] then []
    else
      var last := digest[|digest| - 1];
      ToHex(digest[..|digest| - 1]) + [HexDigit(last / 16), HexDigit(last % 16)]
  }

  /** The byte that the `i`-th pair stands for. */
  function PairAt(text: seq<Byte>, i: nat): Option<Byte>
    requires 2 * i + 1 < |text|
  {
    ParsePair(text[2 * i], text[2 * i + 1])
  }

  /** The bytes that the first `n` pairs stand for, when each of them parses. */
  function DecodePairs(text: seq<Byte>, n: nat): (r: Option<seq<Byte>>)
    requires 2 * n <= |text|
    ensures r.Some? ==> |r.value| == n
    ensures r.Some? <==> forall i :: 0 <= i < n ==> PairAt(text, i).Some?
    ensures r.Some? ==> forall i :: 0 <= i < n ==> r.value[i] == PairAt(text, i).value
  {
    if n == 0 then Some([])
    else
      match (DecodePairs(text, n - 1), PairAt(text, n - 1))
      case (Some(bytes), Some(b)) => Some(bytes + [b])
      case _ => None
  }

  function Decode(text: seq<Byte>): Result<Digest, ServerError> {
    if |text| != 64 then Failure(Internal)
    else
      match DecodePairs(text, 32)
      case Some(bytes) => Success(bytes)
      case None => Failure(Internal)
  }

  /** `LfsSessionTokenKey::from_hex`: fills the digest chunk by chunk. */
  method FromHex(value: seq<Byte>) returns (r: Result<Digest, ServerError>)
    ensures r == Decode(value)
  {
    if |value| != 64 { return Failure(Internal); }
    var digest := new Byte[32];
    for index := 0 to 32
      invariant DecodePairs(value, index) == Some(digest[..index])
    {
      var encoded := PairAt(value, index);
      if encoded.None? { return Failure(Internal); }
      digest[index] := encoded.value;
      assert digest[..index + 1] == digest[..index] + [encoded.value];
    }
    assert digest[..32] == digest[..];
    return Success(digest[..]);
  }

  lemma PairRoundTrip(b: Byte)
    ensures ParsePair(HexDigit(b / 16), HexDigit(b % 16)) == Some(b)
  {
    assert 16 * (b / 16) + b % 16 == b;
  }

  /** Every digest survives its text form, so rows keyed by the text are rows keyed by the digest. */
  lemma HexRoundTrip(digest: Digest)
    ensures |ToHex(digest)| == 64 && Decode(ToHex(digest)) == Success(digest)
  {
    var text := ToHex(digest);
    forall i | 0 <= i < 32 ensures PairAt(text, i) == Some(digest[i]) {
      PairRoundTrip(digest[i]);
    }
    assert DecodePairs(text, 32).value == digest;
  }

  predicate AllLowerHex(text: seq<Byte>) {
    forall i :: 0 <= i < |text| ==> IsLowerHex(text[i])
  }

  lemma LowerPairReprints(high: Byte, low: Byte)
    requires IsLowerHex(high) && IsLowerHex(low)
    ensures ParsePair(high, low).Some?
    ensures HexDigit(ParsePair(high, low).value / 16) == high && HexDigit(ParsePair(high, low).value % 16) == low
  {
    var h, l := DigitValue(high).value, DigitValue(low).value;
    assert (16 * h + l) / 16 == h && (16 * h + l) % 16 == l;
  }

  /** The reader also takes upper case and a plus sign; the text comes back unchanged exactly when all
      of its 64 bytes are lower-case hexadecimal digits. */
  lemma AcceptedTextReprints(text: seq<Byte>)
    requires Decode(text).Success?
    ensures ToHex(Decode(text).value) == text <==> AllLowerHex(text)
  {
    var printed := ToHex(Decode(text).value);
    forall i | 0 <= i < 32
      ensures IsLowerHex(printed[2 * i]) && IsLowerHex(printed[2 * i + 1])
      ensures AllLowerHex(text) ==> printed[2 * i] == text[2 * i] && printed[2 * i + 1] == text[2 * i + 1]
    {
      if AllLowerHex(text) {
        LowerPairReprints(text[2 * i], text[2 * i + 1]);
      }
    }
    forall j | 0 <= j < 64
      ensures IsLowerHex(printed[j]) && (AllLowerHex(text) ==> printed[j] == text[j])
    {
      var i := j / 2;
      assert j == 2 * i || j == 2 * i + 1;
    }
  }

  /** Two accepted texts can name one digest: a last pair "+f" reads as "0f". */
  lemma PlusSignIsAccepted(rest: seq<Byte>)
    requires |rest| == 62 && AllLowerHex(rest)
    ensures Decode(rest + [PLUS, 0x66]).Success?
    ensures Decode(rest + [PLUS, 0x66]) == Decode(rest + [0x30, 0x66])
  {
    var plus, zero := rest + [PLUS, 0x66], rest + [0x30, 0x66];
    forall i | 0 <= i < 32
      ensures PairAt(plus, i).Some? && PairAt(plus, i) == PairAt(zero, i)
    {
      if i < 31 {
        LowerPairReprints(rest[2 * i], rest[2 * i + 1]);
      }
    }
    assert DecodePairs(plus, 32).value == DecodePairs(zero, 32).value;
  }
}
