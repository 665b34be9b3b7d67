/** Base16 as in section 8 of RFC 4648, read as encoding/hex reads it: either case, an even
    number of digits, nothing else. */
module Hex {
  import opened Text

  function Digit(n: nat, upper: bool): (c: Byte)
    requires n < 16
    ensures Value(c) == Some(n)
    ensures '0' <= c <= '9' || (if upper then 'A' <= c <= 'F' else 'a' <= c <= 'f')
  {
    if n < 10 then ('0' as int + n) as char
    else ((if upper then 'A' else 'a') as int + n - 10) as char
  }

  function Value(c: char): (v: Option<nat>)
    ensures v.Some? ==> v.value < 16
  {
    if '0' <= c <= '9' then Some(c as int - '0' as int)
    else if 'a' <= c <= 'f' then Some(c as int - 'a' as int + 10)
    else if 'A' <= c <= 'F' then Some(c as int - 'A' as int + 10)
    else None
  }

  /** The two digits of one byte. */
  function Pair(b: Byte, upper: bool): (p: Bytes)
    ensures |p| == 2
  {
    [Digit(b as int / 16, upper), Digit(b as int % 16, upper)]
  }

  function Encode(bytes: Bytes, upper: bool): Bytes {
    if bytes == [] then [] else Pair(bytes[0], upper) + Encode(bytes[1..], upper)
  }

  /** hex.Decode: None for an odd count or a byte that is no digit. */
  function Decode(text: string): Option<Bytes> {
    if text == [] then Some([])
    else if |text| == 1 then None
    else match (Value(text[0]), Value(text[1]), Decode(text[2..]))
      case (Some(high), Some(low), Some(rest)) => Some([(16 * high + low) as char] + rest)
      case _ => None
  }

  lemma {:induction false} DecodeEncode(bytes: Bytes, upper: bool)
    ensures Decode(Encode(bytes, upper)) == Some(bytes)
    ensures |Encode(bytes, upper)| == 2 * |bytes|
    ensures forall c :: c in Encode(bytes, upper) ==> Value(c).Some?
  {
    if bytes != [] {
      DecodeEncode(bytes[1..], upper);
      var pair, rest := Pair(bytes[0], upper), Encode(bytes[1..], upper);
      assert (pair + rest)[2..] == rest;
      assert bytes == [bytes[0]] + bytes[1..];
    }
  }

  predicate IsDigit(c: char) {
    '0' <= c <= '9' || 'a' <= c <= 'f' || 'A' <= c <= 'F'
  }

  lemma DigitHasValue(c: char)
    ensures Value(c).Some? <==> IsDigit(c)
    ensures Value(c).Some? ==> Writes(c, Value(c).value)
  {
    if Value(c).Some? { assert c == Digit(Value(c).value, 'A' <= c <= 'F'); }
  }

  /** Exactly the digit strings of even length are accepted. */
  lemma {:induction false} DecodeAccepts(text: string)
    ensures Decode(text).Some? <==> |text| % 2 == 0 && forall c :: c in text ==> IsDigit(c)
  {
    hide Value, IsDigit;
    if |text| >= 2 {
      DecodeAccepts(text[2..]);
      DigitHasValue(text[0]);
      DigitHasValue(text[1]);
      assert text == [text[0], text[1]] + text[2..];
    } else if |text| == 1 {
      assert text == [text[0]];
    }
  }

  /** The digit writes this number, in one case or the other. */
  ghost predicate Writes(c: char, n: nat) {
    exists upper :: n < 16 && c == Digit(n, upper)
  }

  ghost predicate PairReads(first: char, second: char, byte: char) {
    exists high: nat, low: nat :: Writes(first, high) && Writes(second, low) && byte as int == 16 * high + low
  }

  lemma {:induction false} DecodeLength(text: string)
    requires Decode(text).Some?
    ensures |text| == 2 * |Decode(text).value|
  {
    if text != [] { DecodeLength(text[2..]); }
  }

  /** Each decoded byte is that of its two digits, whatever the case of each. */
  lemma {:induction false} DecodeIs(text: string, i: nat)
    requires Decode(text).Some? && i < |Decode(text).value|
    ensures |text| == 2 * |Decode(text).value| && PairReads(text[2 * i], text[2 * i + 1], Decode(text).value[i])
  {
    hide Value, Writes;
    DecodeLength(text);
    if i == 0 {
      DigitHasValue(text[0]);
      DigitHasValue(text[1]);
    } else {
      DecodeIs(text[2..], i - 1);
      assert text[2..][2 * (i - 1)] == text[2 * i] && text[2..][2 * (i - 1) + 1] == text[2 * i + 1];
    }
  }
}
