/** Reading a secret out of `security -g` output
    (credstore/osbackend_keychain_stable_read.go). */
module Keychain {
  import opened Text
  import Hex

  const PREFIX: Bytes := "password: "

  datatype Result = Ok(data: Bytes) | BadFormat

  /** The part of `s` before the first byte that is one of `stops`. */
  function Before(s: Bytes, stops: string): (r: Bytes)
    ensures r <= s && (forall c :: c in r ==> c !in stops)
    ensures |r| < |s| ==> s[|r|] in stops
  {
    if s == [] || s[0] in stops then [] else [s[0]] + Before(s[1..], stops)
  }

  /** What follows the prefix: hex, nothing, or quoted text. */
  function ParseValue(value: Bytes): Result {
    if "0x" <= value then
      var encoded := Before(value[2..], " \n");
      if encoded == [] then BadFormat
      else match Hex.Decode(encoded) case Some(data) => Ok(data) case None => BadFormat
    else
      var line := Before(value, "\n");
      if line == [] then Ok([])
      else if |line| < 2 || line[0] != '"' || line[|line| - 1] != '"' then BadFormat
      else Ok(line[1..|line| - 1])
  }

  /** The prefix stands at byte `i`, and `i` starts a line. */
  ghost predicate StartsLine(output: Bytes, i: int) {
    Occurs(output, PREFIX, i) && (i == 0 || output[i - 1] == '\n')
  }

  ghost predicate FirstStart(output: Bytes, i: int) {
    StartsLine(output, i) && forall k :: 0 <= k < i ==> !StartsLine(output, k)
  }

  lemma PrefixAfterNewline(output: Bytes, i: int)
    ensures Occurs(output, "\n" + PREFIX, i) <==>
      0 <= i < |output| && output[i] == '\n' && Occurs(output, PREFIX, i + 1)
  {}

  /** The scan of the program: the first prefix anywhere if a line starts there, else the first
      prefix after a newline. Either way it is the first at a line start. */
  lemma ScanFindsFirst(output: Bytes, anywhere: int, marked: int)
    requires anywhere == IndexFrom(output, PREFIX, 0)
    requires marked == IndexFrom(output, "\n" + PREFIX, 0)
    ensures anywhere == -1 ==> forall i :: !StartsLine(output, i)
    ensures anywhere >= 0 && (anywhere == 0 || output[anywhere - 1] == '\n') ==> FirstStart(output, anywhere)
    ensures anywhere > 0 && output[anywhere - 1] != '\n' && marked >= 0 ==> FirstStart(output, marked + 1)
    ensures anywhere > 0 && output[anywhere - 1] != '\n' && marked == -1 ==> forall i :: !StartsLine(output, i)
  {
    PrefixAfterNewline(output, marked);
    forall i | StartsLine(output, i) && i > 0
      ensures Occurs(output, "\n" + PREFIX, i - 1)
    {
      PrefixAfterNewline(output, i - 1);
    }
  }

  lemma FirstStartUnique(output: Bytes, start: int)
    requires FirstStart(output, start)
    ensures forall i :: FirstStart(output, i) ==> i == start
  {}

  method ParseKeychainPassword(output: Bytes) returns (r: Result)
    ensures (forall i :: !StartsLine(output, i)) ==> r == BadFormat
    ensures forall i :: FirstStart(output, i) ==> r == ParseValue(output[i + |PREFIX|..])
  {
    hide ParseValue, StartsLine;
    var start := IndexFrom(output, PREFIX, 0);
    ScanFindsFirst(output, start, IndexFrom(output, "\n" + PREFIX, 0));
    if start < 0 {
      return BadFormat;
    }
    if start > 0 && output[start - 1] != '\n' {
      start := IndexFrom(output, "\n" + PREFIX, 0);
      if start < 0 {
        return BadFormat;
      }
      start := start + 1;
    }
    FirstStartUnique(output, start);
    var value := output[start + |PREFIX|..];
    r := ParseValue(value);
  }

  // ---------- the three shapes ----------

  /** How `security -g` prints a secret. Hex display text is lossy, hence arbitrary here. */
  datatype Shape = Quoted | HexShown(display: Bytes) | HexBare | Nothing

  predicate Printable(secret: Bytes) {
    forall c :: c in secret ==> ' ' <= c <= '~' && c != '\\'
  }

  predicate Fits(shape: Shape, secret: Bytes) {
    match shape
    case Quoted => secret != [] && Printable(secret)
    case Nothing => secret == []
    case _ => secret != []
  }

  function Print(shape: Shape, secret: Bytes): Bytes {
    match shape
    case Quoted => ['"'] + secret + ['"']
    case HexShown(display) => ['0', 'x'] + Hex.Encode(secret, true) + [' ', ' ', '"'] + display + ['"']
    case HexBare => ['0', 'x'] + Hex.Encode(secret, true)
    case Nothing => []
  }

  /** Complete lines, none of which starts with the prefix. */
  ghost predicate HarmlessLines(before: Bytes) {
    && (before == [] || before[|before| - 1] == '\n')
    && forall i :: !StartsLine(before, i)
  }

  /** After the printed value: the end of the output, a newline and anything, or, when bare hex
      was printed, a space and anything. */
  predicate Terminated(shape: Shape, after: Bytes) {
    after == [] || after[0] == '\n' || (shape.HexBare? && after[0] == ' ')
  }

  lemma {:induction false} BeforeStops(head: Bytes, tail: Bytes, stops: string)
    requires forall c :: c in head ==> c !in stops
    requires tail == [] || tail[0] in stops
    ensures Before(head + tail, stops) == head
  {
    if head != [] {
      assert (head + tail)[0] == head[0] && (head + tail)[1..] == head[1..] + tail;
      BeforeStops(head[1..], tail, stops);
      assert head == [head[0]] + head[1..];
    }
  }

  lemma DigitsDoNotStop(secret: Bytes)
    ensures forall c :: c in Hex.Encode(secret, true) ==> c !in " \n"
  {}

  lemma ParseHex(secret: Bytes, tail: Bytes)
    requires secret != [] && (tail == [] || tail[0] in " \n")
    ensures ParseValue(['0', 'x'] + Hex.Encode(secret, true) + tail) == Ok(secret)
  {
    hide Hex.Encode, Hex.Decode, Hex.Value, Before;
    var digits := Hex.Encode(secret, true);
    Hex.DecodeEncode(secret, true);
    DigitsDoNotStop(secret);
    BeforeStops(digits, tail, " \n");
    var value := ['0', 'x'] + digits + tail;
    assert value[2..] == digits + tail;
  }

  lemma ParseQuoted(secret: Bytes, tail: Bytes)
    requires Printable(secret) && (tail == [] || tail[0] == '\n')
    ensures ParseValue(['"'] + secret + ['"'] + tail) == Ok(secret)
  {
    hide Hex.Decode, Before;
    var line := ['"'] + secret + ['"'];
    BeforeStops(line, tail, "\n");
    assert (line + tail)[0] == '"';
    assert line[1..|line| - 1] == secret;
  }

  lemma ParsePrinted(shape: Shape, secret: Bytes, after: Bytes)
    requires Fits(shape, secret) && Terminated(shape, after)
    ensures ParseValue(Print(shape, secret) + after) == Ok(secret)
  {
    hide Hex.Encode, Before, ParseValue;
    match shape
    case Quoted => ParseQuoted(secret, after);
    case HexShown(display) =>
      var tail := [' ', ' ', '"'] + display + ['"'] + after;
      assert Print(shape, secret) + after == ['0', 'x'] + Hex.Encode(secret, true) + tail;
      ParseHex(secret, tail);
    case HexBare => ParseHex(secret, after);
    case Nothing =>
      assert Print(shape, secret) + after == after;
      ParseNothing(after);
  }

  lemma ParseNothing(after: Bytes)
    requires after == [] || after[0] == '\n'
    ensures ParseValue(after) == Ok([])
  {}

  /** The real line is the first one, whatever its display text repeats after it. */
  lemma RealLineIsFirst(before: Bytes, rest: Bytes)
    requires HarmlessLines(before)
    ensures FirstStart(before + PREFIX + rest, |before|)
  {
    assert '\n' !in PREFIX;
    hide PREFIX, Occurs;
    var output, tail := before + PREFIX + rest, PREFIX + rest;
    assert output == before + tail;
    assert Occurs(output, PREFIX, |before|) by { OccursBetween(before, PREFIX, rest); }
    forall k | 0 <= k < |before| ensures !StartsLine(output, k) {
      if k + |PREFIX| > |before| {
        NotAcross(before, tail, PREFIX, k);
      } else if Occurs(output, PREFIX, k) {
        OccursInConcat(before, tail, PREFIX, k);
        assert StartsLine(output, k) ==> StartsLine(before, k);
      }
    }
  }

  lemma OccursBetween(before: Bytes, t: Bytes, after: Bytes)
    ensures Occurs(before + t + after, t, |before|)
  {
    assert (before + t + after)[|before|..|before| + |t|] == t;
  }

  /** What holds no newline occurs nowhere across the end of a complete line. */
  lemma NotAcross(line: Bytes, tail: Bytes, t: Bytes, k: nat)
    requires k < |line| < k + |t| && line[|line| - 1] == '\n' && '\n' !in t
    ensures !Occurs(line + tail, t, k)
  {
    if k + |t| <= |line + tail| {
      var window := (line + tail)[k..k + |t|];
      assert window[|line| - 1 - k] == '\n';
    }
  }

  /** Every secret comes back, byte for byte, from each shape it can be printed in. */
  method ParseUndoesPrint(output: Bytes, before: Bytes, shape: Shape, secret: Bytes, after: Bytes) returns (r: Result)
    requires HarmlessLines(before) && Fits(shape, secret) && Terminated(shape, after)
    requires output == before + "password: " + Print(shape, secret) + after
    ensures r == Ok(secret)
  {
    var rest := Print(shape, secret) + after;
    assert output == before + "password: " + rest;
    r := ParseKeychainPassword(output);
    RealLineIsFirst(before, rest);
    ParsePrinted(shape, secret, after);
    assert output[|before| + |PREFIX|..] == rest;
  }

  /** A line starts with the prefix exactly if the text is split there by it. */
  lemma StartsLineText(output: Bytes, i: int)
    ensures StartsLine(output, i) <==>
      && 0 <= i <= |output| && (i == 0 || output[i - 1] == '\n')
      && exists rest :: output == output[..i] + "password: " + rest
  {
    if StartsLine(output, i) { assert output == output[..i] + "password: " + output[i + 10..]; }
    if 0 <= i <= |output| {
      forall rest | output == output[..i] + "password: " + rest ensures Occurs(output, PREFIX, i) {
        assert (output[..i] + "password: " + rest)[i..i + 10] == "password: ";
      }
    }
  }

  /** Exactly which values are accepted, and as what. */
  lemma ParseAccepts(value: Bytes, data: Bytes)
    ensures ParseValue(value) == Ok(data) <==>
      if "0x" <= value then
        var digits := Before(value[2..], " \n");
        && digits != [] && |digits| % 2 == 0 && (forall c :: c in digits ==> Hex.IsDigit(c))
        && Hex.Decode(digits) == Some(data)
      else
        var line := Before(value, "\n");
        (line == [] && data == []) || line == ['"'] + data + ['"']
  {
    hide Before, Hex.Decode, Hex.Value;
    if "0x" <= value {
      Hex.DecodeAccepts(Before(value[2..], " \n"));
    } else {
      QuotedLine(Before(value, "\n"), data);
    }
  }

  lemma QuotedLine(line: Bytes, data: Bytes)
    ensures line == ['"'] + data + ['"'] <==>
      |line| >= 2 && line[0] == '"' && line[|line| - 1] == '"' && line[1..|line| - 1] == data
  {}
}
