/** Credential refs `<service>/<profile>` and the escape of arbitrary bytes into a ref segment
    (credstore/ref.go). */
module Ref {
  import opened Text
  import Hex

  datatype RefErrorKind = Empty | SegmentCount | InvalidChar

  datatype RefError = RefError(kind: RefErrorKind, segment: string, input: string)

  datatype Result<+T> = Ok(value: T) | Err(error: RefError)

  predicate IsSegmentByte(b: char) {
    'A' <= b <= 'Z' || 'a' <= b <= 'z' || '0' <= b <= '9' || b == '_' || b == '-'
  }

  predicate ValidSegment(s: string) {
    s != "" && forall i :: 0 <= i < |s| ==> IsSegmentByte(s[i])
  }

  /** A segment, by its bytes. */
  lemma SegmentText(s: string)
    ensures ValidSegment(s) <==>
      s != "" && forall c :: c in s ==> 'A' <= c <= 'Z' || 'a' <= c <= 'z' || '0' <= c <= '9' || c == '_' || c == '-'
  {
    if forall c :: c in s ==> IsSegmentByte(c) {
      assert forall i :: 0 <= i < |s| ==> s[i] in s;
    }
  }

  method ScanSegment(s: string) returns (valid: bool)
    ensures valid <==> ValidSegment(s)
  {
    if s == "" {
      return false;
    }
    for i := 0 to |s|
      invariant forall k :: 0 <= k < i ==> IsSegmentByte(s[k])
    {
      if !IsSegmentByte(s[i]) {
        return false;
      }
    }
    return true;
  }

  // ---------- parse and format ----------

  function CountSlashes(s: string): nat {
    if s == "" then 0 else (if s[0] == '/' then 1 else 0) + CountSlashes(s[1..])
  }

  /** strings.Cut at the first '/'; the second part is empty when there is none. */
  function CutSlash(s: string): (parts: (string, string, bool)) {
    if s == "" then ("", "", false)
    else if s[0] == '/' then ("", s[1..], true)
    else var (before, after, found) := CutSlash(s[1..]); ([s[0]] + before, after, found)
  }

  function ParseRef(ref: string): Result<(string, string)> {
    if ref == "" then Err(RefError(Empty, "", ref))
    else if CountSlashes(ref) != 1 then Err(RefError(SegmentCount, "", ref))
    else
      var (service, profile, _) := CutSlash(ref);
      if service == "" then Err(RefError(Empty, "service", ref))
      else if profile == "" then Err(RefError(Empty, "profile", ref))
      else if !ValidSegment(service) then Err(RefError(InvalidChar, "service", ref))
      else if !ValidSegment(profile) then Err(RefError(InvalidChar, "profile", ref))
      else Ok((service, profile))
  }

  function FormatRef(service: string, profile: string): Result<string> {
    if service == "" then Err(RefError(Empty, "service", ""))
    else if !ValidSegment(service) then Err(RefError(InvalidChar, "service", service))
    else if profile == "" then Err(RefError(Empty, "profile", ""))
    else if !ValidSegment(profile) then Err(RefError(InvalidChar, "profile", profile))
    else Ok(service + "/" + profile)
  }

  lemma CountWithoutSlash(s: string)
    requires '/' !in s
    ensures CountSlashes(s) == 0
  {}

  /** Cutting what was joined gives the parts back, whatever follows the first slash. */
  lemma {:induction false} CutJoined(before: string, after: string)
    requires '/' !in before
    ensures CutSlash(before + "/" + after) == (before, after, true)
    ensures CountSlashes(before + "/" + after) == 1 + CountSlashes(after)
  {
    var whole := before + "/" + after;
    if before == "" {
      assert whole[1..] == after;
    } else {
      assert before == [before[0]] + before[1..];
      assert whole[1..] == before[1..] + "/" + after;
      CutJoined(before[1..], after);
    }
  }

  /** Joining what was cut gives the whole back. */
  lemma {:induction false} JoinCut(s: string)
    ensures var (before, after, found) := CutSlash(s);
      && '/' !in before
      && (if found then s == before + "/" + after else s == before && after == "" && '/' !in s)
  {
    if s != "" && s[0] != '/' {
      JoinCut(s[1..]);
      assert s == [s[0]] + s[1..];
    } else if s != "" {
      assert s == "/" + s[1..];
    }
  }

  lemma SegmentHasNoSlash(s: string)
    requires ValidSegment(s)
    ensures '/' !in s
  {}

  /** Parsing and formatting are mutual inverses: each accepts exactly what the other yields. */
  lemma ParseIffFormat(ref: string, service: string, profile: string)
    ensures ParseRef(ref) == Ok((service, profile)) <==> FormatRef(service, profile) == Ok(ref)
  {
    if FormatRef(service, profile) == Ok(ref) {
      SegmentHasNoSlash(service);
      SegmentHasNoSlash(profile);
      CutJoined(service, profile);
      CountWithoutSlash(profile);
    }
    if ParseRef(ref) == Ok((service, profile)) {
      JoinCut(ref);
    }
  }

  lemma {:induction false} CountIsMultiset(s: string)
    ensures CountSlashes(s) == multiset(s)['/']
  {
    if s != "" {
      assert s == [s[0]] + s[1..];
      CountIsMultiset(s[1..]);
    }
  }

  /** A ref as text: two segments around its one slash; and which error any other text gives. */
  lemma ParseRefText(ref: string, service: string, profile: string)
    ensures ParseRef(ref) == Ok((service, profile)) <==>
      ValidSegment(service) && ValidSegment(profile) && ref == service + "/" + profile
    ensures ref == "" ==> ParseRef(ref) == Err(RefError(Empty, "", ""))
    ensures ref != "" && multiset(ref)['/'] != 1 ==> ParseRef(ref) == Err(RefError(SegmentCount, "", ref))
    ensures ref == service + "/" + profile && '/' !in service && '/' !in profile ==>
      && (service == "" ==> ParseRef(ref) == Err(RefError(Empty, "service", ref)))
      && (service != "" && profile == "" ==> ParseRef(ref) == Err(RefError(Empty, "profile", ref)))
      && (service != "" && profile != "" && !ValidSegment(service) ==>
            ParseRef(ref) == Err(RefError(InvalidChar, "service", ref)))
      && (ValidSegment(service) && profile != "" && !ValidSegment(profile) ==>
            ParseRef(ref) == Err(RefError(InvalidChar, "profile", ref)))
  {
    CountIsMultiset(ref);
    ParseIffFormat(ref, service, profile);
    if ref == service + "/" + profile && '/' !in service && '/' !in profile {
      CutJoined(service, profile);
      CountWithoutSlash(profile);
    }
  }

  /** Formatting refuses the first of the two that is no segment, and names it. */
  lemma FormatRefText(service: string, profile: string)
    ensures ValidSegment(service) && ValidSegment(profile) <==>
      FormatRef(service, profile) == Ok(service + "/" + profile)
    ensures !ValidSegment(service) ==>
      FormatRef(service, profile) == Err(RefError(if service == "" then Empty else InvalidChar, "service", service))
    ensures ValidSegment(service) && !ValidSegment(profile) ==>
      FormatRef(service, profile) == Err(RefError(if profile == "" then Empty else InvalidChar, "profile", profile))
  {}

  // ---------- escape ----------

  predicate PassesThrough(c: char) {
    IsSegmentByte(c) && c != '_'
  }

  /** What one byte becomes. */
  function EscapeByte(c: Byte): (r: Bytes)
    ensures ValidSegment(r) && 1 <= |r| <= 4
  {
    if PassesThrough(c) then [c]
    else if c == '_' then "__"
    else ['_', 'x'] + Hex.Pair(c, false)
  }

  function Escape(raw: Bytes): Bytes {
    if raw == [] then [] else EscapeByte(raw[0]) + Escape(raw[1..])
  }

  lemma {:induction false} EscapeSnoc(raw: Bytes, c: Byte)
    ensures Escape(raw + [c]) == Escape(raw) + EscapeByte(c)
  {
    EscapeConcat(raw, [c]);
    assert Escape([c]) == EscapeByte(c) + Escape([]);
  }

  lemma EscapeByteCases(c: Byte)
    ensures PassesThrough(c) <==> 'A' <= c <= 'Z' || 'a' <= c <= 'z' || '0' <= c <= '9' || c == '-'
    ensures PassesThrough(c) ==> EscapeByte(c) == [c]
    ensures c == '_' ==> EscapeByte(c) == ['_', '_']
    ensures !PassesThrough(c) && c != '_' ==>
      EscapeByte(c) == ['_', 'x', Hex.Digit(c as int / 16, false), Hex.Digit(c as int % 16, false)]
  {}

  method EscapeRefSegment(raw: Bytes) returns (out: Bytes)
    ensures out == Escape(raw)
  {
    out := [];
    assert Escape(raw[..0]) == [];
    hide Escape, EscapeByte, PassesThrough, Hex.Digit;
    for i := 0 to |raw|
      invariant out == Escape(raw[..i])
    {
      var c := raw[i];
      EscapeByteCases(c);
      EscapeSnoc(raw[..i], c);
      assert raw[..i + 1] == raw[..i] + [c];
      if 'A' <= c <= 'Z' || 'a' <= c <= 'z' || '0' <= c <= '9' || c == '-' {
        out := out + [c];
      } else if c == '_' {
        out := out + ['_', '_'];
      } else {
        out := out + ['_', 'x', Hex.Digit(c as int / 16, false), Hex.Digit(c as int % 16, false)];
      }
    }
    assert raw[..|raw|] == raw;
  }

  /** A strict decoder, which the program does not ship: it accepts a hex escape only in lower
      case and only for a byte that needed it. */
  function Unescape(t: string): Option<Bytes> {
    if t == "" then Some([])
    else if PassesThrough(t[0]) then
      match Unescape(t[1..]) case Some(rest) => Some([t[0]] + rest) case None => None
    else if t[0] != '_' || |t| < 2 then None
    else if t[1] == '_' then
      match Unescape(t[2..]) case Some(rest) => Some(['_'] + rest) case None => None
    else if t[1] != 'x' || |t| < 4 then None
    else match (UnescapeDigits(t[2], t[3]), Unescape(t[4..]))
      case (Some(c), Some(rest)) => Some([c] + rest)
      case _ => None
  }

  function UnescapeDigits(high: char, low: char): (r: Option<Byte>)
    ensures forall c: Byte :: r == Some(c) <==>
      !IsSegmentByte(c) && [high, low] == Hex.Pair(c, false)
  {
    match (Hex.Value(high), Hex.Value(low))
    case (Some(h), Some(l)) =>
      var c := (16 * h + l) as char;
      if [high, low] == Hex.Pair(c, false) && !IsSegmentByte(c) then Some(c) else None
    case _ => None
  }

  lemma {:induction false} UnescapeEscape(raw: Bytes)
    ensures Unescape(Escape(raw)) == Some(raw)
  {
    if raw != [] {
      UnescapeEscape(raw[1..]);
      var head, rest := EscapeByte(raw[0]), Escape(raw[1..]);
      assert (head + rest)[|head|..] == rest;
      assert forall i :: 0 <= i < |head| ==> (head + rest)[i] == head[i];
      assert raw == [raw[0]] + raw[1..];
      if !PassesThrough(raw[0]) && raw[0] != '_' {
        assert UnescapeDigits(head[2], head[3]) == Some(raw[0]);
      }
    }
  }

  /** What the decoder took is the escape of the first byte it gave. */
  ghost predicate HeadDecoded(t: string, raw: Bytes) {
    raw != [] &&
    var width := |EscapeByte(raw[0])|;
    width <= |t| && t[..width] == EscapeByte(raw[0]) && Unescape(t[width..]) == Some(raw[1..])
  }

  lemma PlainHead(t: string)
    requires t != "" && PassesThrough(t[0]) && Unescape(t).Some?
    ensures HeadDecoded(t, Unescape(t).value)
  {
    hide UnescapeDigits, EscapeByte;
    EscapeByteCases(t[0]);
    var rest := Unescape(t[1..]).value;
    assert Unescape(t).value == [t[0]] + rest;
  }

  lemma UnderscoreHead(t: string)
    requires |t| > 1 && t[0] == '_' && t[1] == '_' && Unescape(t).Some?
    ensures HeadDecoded(t, Unescape(t).value)
  {
    hide UnescapeDigits, EscapeByte;
    EscapeByteCases('_');
    var rest := Unescape(t[2..]).value;
    assert Unescape(t).value == ['_'] + rest;
    assert t[..2] == ['_', '_'];
  }

  lemma HexHead(t: string)
    requires |t| >= 4 && t[0] == '_' && t[1] == 'x' && Unescape(t).Some?
    ensures HeadDecoded(t, Unescape(t).value)
  {
    hide Unescape;
    HexStep(t);
    var raw := Unescape(t).value;
    assert t[..4] == ['_', 'x'] + [t[2], t[3]];
  }

  lemma HexStep(t: string)
    requires |t| >= 4 && t[0] == '_' && t[1] == 'x' && Unescape(t).Some?
    ensures var raw := Unescape(t).value;
      raw != [] && UnescapeDigits(t[2], t[3]) == Some(raw[0]) && Unescape(t[4..]) == Some(raw[1..])
  {
    hide UnescapeDigits, Hex.Pair;
    var c, rest := UnescapeDigits(t[2], t[3]).value, Unescape(t[4..]).value;
    assert Unescape(t).value == [c] + rest;
  }

  /** The decoder accepts nothing but escapes, so every decoded text re-encodes to itself. */
  lemma {:induction false} EscapeUnescape(t: string)
    ensures Unescape(t).Some? ==> Escape(Unescape(t).value) == t
  {
    if Unescape(t).Some? && t != "" {
      var raw := Unescape(t).value;
      assert HeadDecoded(t, raw) by {
        if PassesThrough(t[0]) {
          PlainHead(t);
        } else if t[1] == '_' {
          UnderscoreHead(t);
        } else {
          HexHead(t);
        }
      }
      hide Unescape, EscapeByte;
      var width := |EscapeByte(raw[0])|;
      EscapeUnescape(t[width..]);
      assert raw == [raw[0]] + raw[1..] && t == t[..width] + t[width..];
    }
  }

  /** The escape is reversible: the decoder undoes it, and nothing else decodes. */
  lemma EscapeReversible(raw: Bytes, t: string)
    ensures Unescape(t) == Some(raw) <==> t == Escape(raw)
  {
    UnescapeEscape(raw);
    EscapeUnescape(t);
  }

  lemma EscapeInjective(a: Bytes, b: Bytes)
    requires Escape(a) == Escape(b)
    ensures a == b
  {
    UnescapeEscape(a);
    UnescapeEscape(b);
  }

  lemma {:induction false} EscapeConcat(a: Bytes, b: Bytes)
    ensures Escape(a + b) == Escape(a) + Escape(b)
  {
    if a == [] {
      assert a + b == b;
    } else {
      calc {
        Escape(a + b);
        { assert (a + b)[0] == a[0] && (a + b)[1..] == a[1..] + b; }
        EscapeByte(a[0]) + Escape(a[1..] + b);
        { EscapeConcat(a[1..], b); }
        EscapeByte(a[0]) + (Escape(a[1..]) + Escape(b));
        Escape(a) + Escape(b);
      }
    }
  }

  lemma {:induction false} EscapeShape(raw: Bytes)
    ensures |raw| <= |Escape(raw)| <= 4 * |raw|
    ensures raw != [] ==> ValidSegment(Escape(raw))
  {
    if raw != [] {
      EscapeShape(raw[1..]);
    }
  }

  /** Any non-empty identifier survives the trip through a ref under any valid service. */
  lemma RefRoundTrip(service: string, raw: Bytes)
    requires ValidSegment(service) && raw != []
    ensures FormatRef(service, Escape(raw)).Ok?
    ensures ParseRef(FormatRef(service, Escape(raw)).value) == Ok((service, Escape(raw)))
    ensures Unescape(Escape(raw)) == Some(raw)
  {
    EscapeShape(raw);
    ParseIffFormat(FormatRef(service, Escape(raw)).value, service, Escape(raw));
    UnescapeEscape(raw);
  }
}
