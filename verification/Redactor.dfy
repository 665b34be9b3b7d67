/** The redactor as the program runs it: the scan and sweep of `redactWith`, the growing secret
    list, header scrubbing and the leak assertion (credstore/redaction.go). */
module Redactor {
  import opened Text
  import opened Redaction

  // ---------- redactWith ----------

  /** The spans of the occurrences of one secret that start before byte `to`. */
  ghost predicate HitBefore(s: string, secret: string, span: Span, to: int) {
    span.start < to && Occurs(s, secret, span.start) && span.end == span.start + |secret|
  }

  method CollectSpans(s: string, secrets: seq<string>) returns (spans: seq<Span>)
    ensures forall span :: span in spans <==> Hit(s, secrets, span)
  {
    spans := [];
    for k := 0 to |secrets|
      invariant forall span :: span in spans <==> Hit(s, secrets[..k], span)
    {
      var found := OccurrencesOf(s, secrets[k]);
      HitSnoc(s, secrets[..k], secrets[k]);
      assert secrets[..k + 1] == secrets[..k] + [secrets[k]];
      spans := spans + found;
    }
    assert secrets[..|secrets|] == secrets;
  }

  lemma HitSnoc(s: string, secrets: seq<string>, secret: string)
    ensures forall span :: Hit(s, secrets + [secret], span) <==>
      Hit(s, secrets, span) || HitBefore(s, secret, span, |s| + 1)
  {}

  /** Every occurrence of one secret, overlapping ones included: the scan resumes one byte after
      the start of a match. */
  method OccurrencesOf(s: string, secret: string) returns (spans: seq<Span>)
    ensures forall span :: span in spans <==> HitBefore(s, secret, span, |s| + 1)
  {
    spans := [];
    var i := 0;
    while i <= |s| - |secret|
      invariant 0 <= i <= |s| + 1
      invariant forall span :: span in spans <==> HitBefore(s, secret, span, i)
      decreases |s| - i
    {
      var start := IndexFrom(s, secret, i);
      if start < 0 {
        assert forall span :: HitBefore(s, secret, span, i) <==> HitBefore(s, secret, span, |s| + 1);
        return;
      }
      spans := spans + [Span(start, start + |secret|)];
      i := start + 1;
    }
  }

  ghost predicate SortedByStart(spans: seq<Span>) {
    forall i, j :: 0 <= i < j < |spans| ==> spans[i].start <= spans[j].start
  }

  lemma InsertKeepsSorted(sorted: seq<Span>, at: nat, span: Span)
    requires SortedByStart(sorted) && at <= |sorted|
    requires forall i :: 0 <= i < at ==> sorted[i].start <= span.start
    requires at < |sorted| ==> span.start <= sorted[at].start
    ensures var r := sorted[..at] + [span] + sorted[at..];
      SortedByStart(r) && multiset(r) == multiset(sorted) + multiset{span}
  {
    assert sorted == sorted[..at] + sorted[at..];
  }

  lemma SameMembers(a: seq<Span>, b: seq<Span>)
    requires multiset(a) == multiset(b)
    ensures forall span :: span in a <==> span in b
  {
    assert forall span :: (span in a <==> span in multiset(a)) && (span in b <==> span in multiset(b));
  }

  /** sort.Slice by start. It is not stable: nothing is promised about spans that start together. */
  method SortByStart(spans: seq<Span>) returns (sorted: seq<Span>)
    ensures SortedByStart(sorted) && multiset(sorted) == multiset(spans)
    ensures forall span :: span in sorted <==> span in spans
  {
    hide SortedByStart;
    sorted := [];
    assert SortedByStart([]) by { NothingToSort(); }
    for k := 0 to |spans|
      invariant SortedByStart(sorted) && multiset(sorted) == multiset(spans[..k])
    {
      var at := 0;
      while at < |sorted| && sorted[at].start < spans[k].start
        invariant 0 <= at <= |sorted|
        invariant forall i :: 0 <= i < at ==> sorted[i].start < spans[k].start
      {
        at := at + 1;
      }
      InsertKeepsSorted(sorted, at, spans[k]);
      assert spans[..k + 1] == spans[..k] + [spans[k]];
      sorted := sorted[..at] + [spans[k]] + sorted[at..];
    }
    assert spans[..|spans|] == spans;
    SameMembers(sorted, spans);
  }

  lemma NothingToSort()
    ensures SortedByStart([])
  {}

  /** The sweep is in the middle of run cur, the output up to byte prev is final, and the first
      k spans have been seen. */
  ghost predicate Sweeping(s: string, secrets: seq<string>, spans: seq<Span>, k: int, prev: nat, cur: Span) {
    && 0 < k <= |spans|
    && prev <= cur.start < cur.end <= |s|
    && Covered(s, secrets, cur.start)
    && (forall i :: cur.start <= i < cur.end - 1 ==> Joined(s, secrets, i))
    && (forall j :: 0 <= j < k ==> spans[j].end <= prev || cur.start <= spans[j].start < spans[j].end <= cur.end)
    && (forall j :: k <= j < |spans| ==> cur.start <= spans[j].start)
  }

  lemma SpanCovers(s: string, secrets: seq<string>, span: Span)
    requires Hit(s, secrets, span)
    ensures span.end <= |s|
    ensures forall i :: span.start <= i < span.end ==> Covered(s, secrets, i)
    ensures forall i :: span.start <= i < span.end - 1 ==> Joined(s, secrets, i)
  {}

  /** The run cur is complete when the next span, if any, starts at its end or later. */
  lemma RunComplete(s: string, secrets: seq<string>, spans: seq<Span>, k: int, prev: nat, cur: Span)
    requires Sweeping(s, secrets, spans, k, prev, cur)
    requires forall span :: span in spans <==> Hit(s, secrets, span)
    requires forall j :: k <= j < |spans| ==> cur.end <= spans[j].start
    ensures forall i :: prev <= i < cur.start ==> !Covered(s, secrets, i)
    ensures !Joined(s, secrets, cur.end - 1)
    ensures Render(s, secrets, prev)
         == s[prev..cur.start] + SafeReplacement(cur.end - cur.start, secrets) + Render(s, secrets, cur.end)
  {
    forall i | prev <= i < cur.start ensures !Covered(s, secrets, i) {
      forall span | Hit(s, secrets, span) ensures !(span.start <= i < span.end) {
        assert span in spans;
      }
    }
    forall span | Hit(s, secrets, span) ensures !(span.start <= cur.end - 1 && cur.end < span.end) {
      assert span in spans;
    }
    RenderStep(s, secrets, prev, cur);
  }

  lemma SweepStarts(s: string, secrets: seq<string>, spans: seq<Span>)
    requires NonEmptyAll(secrets) && spans != [] && SortedByStart(spans)
    requires forall span :: span in spans <==> Hit(s, secrets, span)
    ensures Sweeping(s, secrets, spans, 1, 0, spans[0])
  {
    SpanNotEmpty(s, secrets, spans[0]);
    SpanCovers(s, secrets, spans[0]);
  }

  /** A span that starts inside the current run extends it, or lies in it. */
  lemma SweepAbsorbs(s: string, secrets: seq<string>, spans: seq<Span>, k: int, prev: nat, cur: Span)
    requires Sweeping(s, secrets, spans, k, prev, cur) && k < |spans|
    requires NonEmptyAll(secrets) && SortedByStart(spans)
    requires forall span :: span in spans <==> Hit(s, secrets, span)
    requires spans[k].start < cur.end
    ensures Sweeping(s, secrets, spans, k + 1, prev,
              if spans[k].end > cur.end then Span(cur.start, spans[k].end) else cur)
  {
    SpanNotEmpty(s, secrets, spans[k]);
    SpanCovers(s, secrets, spans[k]);
    hide Covered, Joined, Hit;
  }

  lemma SweepMovesOn(s: string, secrets: seq<string>, spans: seq<Span>, k: int, prev: nat, cur: Span)
    requires Sweeping(s, secrets, spans, k, prev, cur) && k < |spans|
    requires NonEmptyAll(secrets) && SortedByStart(spans)
    requires forall span :: span in spans <==> Hit(s, secrets, span)
    requires cur.end <= spans[k].start
    ensures Sweeping(s, secrets, spans, k + 1, cur.end, spans[k])
    ensures forall j :: k <= j < |spans| ==> cur.end <= spans[j].start
  {
    SpanNotEmpty(s, secrets, spans[k]);
    SpanCovers(s, secrets, spans[k]);
    hide Covered, Joined, Hit;
  }

  /** The sweep over the sorted spans computes the rendering, whatever the order of ties. */
  method Sweep(s: string, secrets: seq<string>, spans: seq<Span>) returns (out: string)
    requires NonEmptyAll(secrets)
    requires spans != [] && SortedByStart(spans)
    requires forall span :: span in spans <==> Hit(s, secrets, span)
    ensures out == Render(s, secrets, 0)
  {
    hide Render, SafeReplacement, Hit, Covered, Joined, SortedByStart;
    var prev: nat := 0;
    var cur := spans[0];
    out := "";
    SweepStarts(s, secrets, spans);
    for k := 1 to |spans|
      invariant Sweeping(s, secrets, spans, k, prev, cur)
      invariant out + Render(s, secrets, prev) == Render(s, secrets, 0)
    {
      var span := spans[k];
      if span.start < cur.end {
        SweepAbsorbs(s, secrets, spans, k, prev, cur);
        if span.end > cur.end {
          cur := Span(cur.start, span.end);
        }
        continue;
      }
      SweepMovesOn(s, secrets, spans, k, prev, cur);
      RunComplete(s, secrets, spans, k, prev, cur);
      out := Flush(s, secrets, out, prev, cur);
      prev := cur.end;
      cur := span;
    }
    RunComplete(s, secrets, spans, |spans|, prev, cur);
    out := Flush(s, secrets, out, prev, cur);
    assert forall j :: 0 <= j < |spans| ==> spans[j].end <= cur.end;
    prev := cur.end;
    NothingAfter(s, secrets, spans, prev);
    out := out + s[prev..];
  }

  lemma SpanNotEmpty(s: string, secrets: seq<string>, span: Span)
    requires NonEmptyAll(secrets) && Hit(s, secrets, span)
    ensures span.start < span.end
  {}

  /** Text and replacement of one finished run. */
  method Flush(s: string, secrets: seq<string>, before: string, prev: nat, cur: Span) returns (out: string)
    requires prev <= cur.start < cur.end <= |s|
    requires before + Render(s, secrets, prev) == Render(s, secrets, 0)
    requires Render(s, secrets, prev)
          == s[prev..cur.start] + SafeReplacement(cur.end - cur.start, secrets) + Render(s, secrets, cur.end)
    ensures out + Render(s, secrets, cur.end) == Render(s, secrets, 0)
  {
    hide Render, SafeReplacement;
    var gap, mark := s[prev..cur.start], SafeReplacement(cur.end - cur.start, secrets);
    out := before + gap;
    out := out + mark;
    assert before + gap + mark + Render(s, secrets, cur.end)
        == before + (gap + mark + Render(s, secrets, cur.end));
  }

  lemma NothingAfter(s: string, secrets: seq<string>, spans: seq<Span>, prev: nat)
    requires prev <= |s|
    requires forall span :: Hit(s, secrets, span) ==> span in spans
    requires forall span :: span in spans ==> span.end <= prev
    ensures Render(s, secrets, prev) == s[prev..]
  {
    RenderGap(s, secrets, prev, |s|);
    assert s[prev..|s|] + Render(s, secrets, |s|) == s[prev..];
  }

  method RedactWith(s: string, secrets: seq<string>) returns (r: string)
    requires NonEmptyAll(secrets)
    ensures r == Redacted(s, secrets)
  {
    if s == "" || |secrets| == 0 {
      assert !ContainsAny(s, secrets);
      CleanUnchanged(s, secrets);
      return s;
    }
    var spans := CollectSpans(s, secrets);
    if |spans| == 0 {
      assert forall secret, i :: secret in secrets && Occurs(s, secret, i) ==> Hit(s, secrets, Span(i, i + |secret|));
      assert !ContainsAny(s, secrets);
      CleanUnchanged(s, secrets);
      return s;
    }
    var sorted := SortByStart(spans);
    assert spans[0] in sorted;
    var out := Sweep(s, secrets, sorted);
    if ContainsAny(out, secrets) {
      return "";
    }
    return out;
  }

  // ---------- the growing list of secrets ----------

  /** The list after loading one more secret: empty and known secrets are ignored. */
  function WithSecret(secrets: seq<string>, secret: string): seq<string> {
    if secret == "" || secret in secrets then secrets else secrets + [secret]
  }

  ghost predicate WellLoaded(secrets: seq<string>) {
    NonEmptyAll(secrets) && NoDuplicates(secrets)
  }

  function LowerAscii(s: string): string {
    if s == "" then ""
    else (if 'A' <= s[0] <= 'Z' then [s[0] - 'A' + 'a'] else [s[0]]) + LowerAscii(s[1..])
  }

  const ALWAYS_REDACT := {"authorization", "cookie", "set-cookie"}

  predicate Forced(name: string) {
    LowerAscii(name) in ALWAYS_REDACT
  }

  predicate SameLetter(a: char, b: char) {
    a == b || ('A' <= a <= 'Z' && b == a - 'A' + 'a') || ('A' <= b <= 'Z' && a == b - 'A' + 'a')
  }

  /** Two header names that differ in the case of letters only. */
  predicate SameIgnoringCase(a: string, b: string) {
    |a| == |b| && forall i :: 0 <= i < |a| ==> SameLetter(a[i], b[i])
  }

  /** Lowering identifies exactly the names that differ in case only. */
  lemma {:induction false} LowerIffSameIgnoringCase(a: string, b: string)
    ensures LowerAscii(a) == LowerAscii(b) <==> SameIgnoringCase(a, b)
  {
    LowerKeepsLength(a);
    LowerKeepsLength(b);
    if a != "" && b != "" {
      LowerIffSameIgnoringCase(a[1..], b[1..]);
      assert a == [a[0]] + a[1..] && b == [b[0]] + b[1..];
      assert LowerAscii(a)[1..] == LowerAscii(a[1..]) && LowerAscii(b)[1..] == LowerAscii(b[1..]);
    }
  }

  lemma LowerKeepsLength(s: string)
    ensures |LowerAscii(s)| == |s|
  {}

  /** A header is forced exactly when its name is one of the three, in whatever case. */
  lemma ForcedInAnyCase(name: string)
    ensures Forced(name) <==>
      || SameIgnoringCase(name, "authorization")
      || SameIgnoringCase(name, "cookie")
      || SameIgnoringCase(name, "set-cookie")
  {
    ForcedIffKnown(name);
    hide Forced, SameIgnoringCase;
    assert ALWAYS_REDACT == {"authorization", "cookie", "set-cookie"};
  }

  lemma ForcedIffKnown(name: string)
    ensures Forced(name) <==> exists known :: known in ALWAYS_REDACT && SameIgnoringCase(name, known)
  {
    hide LowerAscii, SameIgnoringCase, ALWAYS_REDACT;
    forall known | known in ALWAYS_REDACT
      ensures LowerAscii(name) == known <==> SameIgnoringCase(name, known)
    {
      KnownIsLower(known);
      LowerIffSameIgnoringCase(name, known);
    }
  }

  lemma KnownIsLower(known: string)
    requires known in ALWAYS_REDACT
    ensures LowerAscii(known) == known
  {
    hide LowerAscii;
    NoCapitals(known);
    hide ALWAYS_REDACT;
    LowerFixed(known);
  }

  lemma NoCapitals(known: string)
    requires known in ALWAYS_REDACT
    ensures forall i :: 0 <= i < |known| ==> !('A' <= known[i] <= 'Z')
  {
    assert known == "authorization" || known == "cookie" || known == "set-cookie";
  }

  lemma {:induction false} LowerFixed(s: string)
    requires forall i :: 0 <= i < |s| ==> !('A' <= s[i] <= 'Z')
    ensures LowerAscii(s) == s
  {
    if s != "" {
      LowerFixed(s[1..]);
      assert s == [s[0]] + s[1..];
    }
  }

  ghost function ScrubbedValue(name: string, value: string, secrets: seq<string>): string {
    if Forced(name) then SafeReplacement(|value|, secrets) else Redacted(value, secrets)
  }

  ghost predicate Scrubbed(name: string, before: seq<string>, after: seq<string>, secrets: seq<string>) {
    |after| == |before| && forall i :: 0 <= i < |before| ==> after[i] == ScrubbedValue(name, before[i], secrets)
  }

  /** The three headers, by name. */
  predicate AuthHeader(name: string) {
    SameIgnoringCase(name, "authorization") || SameIgnoringCase(name, "cookie") || SameIgnoringCase(name, "set-cookie")
  }

  /** What a header value becomes, by the header's name: of the three only the number of its bytes is
      told, and any other is redacted as text. */
  lemma ScrubbedByName(name: string, value: string, secrets: seq<string>)
    ensures AuthHeader(name) ==> Masks(ScrubbedValue(name, value, secrets), |value|, secrets)
    ensures !AuthHeader(name) ==> ScrubbedValue(name, value, secrets) == Redacted(value, secrets)
  {
    hide Masks, Forced, SameIgnoringCase;
    ForcedInAnyCase(name);
    ReplacementMasks(|value|, secrets);
  }

  /** A header value after scrubbing holds no loaded secret; a forced one depends on the value
      only through its length. */
  lemma ScrubbedIsClean(name: string, value: string, other: string, secrets: seq<string>)
    requires NonEmptyAll(secrets)
    ensures !ContainsAny(ScrubbedValue(name, value, secrets), secrets)
    ensures Forced(name) && |value| == |other| ==>
      ScrubbedValue(name, value, secrets) == ScrubbedValue(name, other, secrets)
  {}

  /** http.Header. */
  class Header {
    var entries: map<string, seq<string>>
  }

  class SecretRedactor {
    var secrets: seq<string>

    ghost predicate Valid()
      reads this
    {
      WellLoaded(secrets)
    }

    constructor (initial: seq<string>)
      ensures Valid()
      ensures forall x :: x in secrets <==> x in initial && x != ""
    {
      secrets := [];
      new;
      for i := 0 to |initial|
        invariant Valid()
        invariant forall x :: x in secrets <==> x in initial[..i] && x != ""
      {
        Add(initial[i]);
        assert initial[..i + 1] == initial[..i] + [initial[i]];
      }
      assert initial[..|initial|] == initial;
    }

    method Add(secret: string)
      requires Valid()
      modifies this
      ensures Valid() && secrets == WithSecret(old(secrets), secret)
    {
      if secret == "" {
        return;
      }
      for i := 0 to |secrets|
        invariant secrets == old(secrets) && secret !in secrets[..i]
      {
        if secrets[i] == secret {
          return;
        }
      }
      secrets := secrets + [secret];
    }

    method Snapshot() returns (copy: seq<string>)
      ensures copy == secrets
    {
      copy := secrets;
    }

    method Redact(s: string) returns (r: string)
      requires Valid()
      ensures r == Redacted(s, secrets)
    {
      var snapshot := Snapshot();
      r := RedactWith(s, snapshot);
    }

    /** Rewrites every value in place, under one snapshot, in any order of the names. Of a value under
        one of the three names only the number of its bytes is told. */
    method RedactHeaders(h: Header?)
      requires Valid()
      modifies h
      ensures h != null ==> h.entries.Keys == old(h.entries.Keys)
      ensures h != null ==>
        forall name :: name in h.entries ==> Scrubbed(name, old(h.entries[name]), h.entries[name], secrets)
      ensures h != null ==>
        forall name, i :: name in h.entries && AuthHeader(name) && 0 <= i < |h.entries[name]| ==>
          |h.entries[name]| == |old(h.entries[name])| && Masks(h.entries[name][i], |old(h.entries[name])[i]|, secrets)
      ensures h != null ==>
        forall name, i :: name in h.entries && !AuthHeader(name) && 0 <= i < |h.entries[name]| ==>
          && |h.entries[name]| == |old(h.entries[name])|
          && h.entries[name][i] == Redacted(old(h.entries[name])[i], secrets)
    {
      hide AuthHeader, Masks, ScrubbedValue, Redacted;
      if h == null {
        return;
      }
      var snapshot := Snapshot();
      var names := h.entries.Keys;
      while names != {}
        invariant names <= h.entries.Keys == old(h.entries.Keys)
        invariant forall name :: name in names ==> h.entries[name] == old(h.entries[name])
        invariant forall name :: name in h.entries && name !in names ==>
          Scrubbed(name, old(h.entries[name]), h.entries[name], snapshot)
        decreases names
      {
        var name :| name in names;
        names := names - {name};
        var values := ScrubValues(name, h.entries[name], snapshot);
        h.entries := h.entries[name := values];
      }
      forall name, i | name in h.entries && 0 <= i < |h.entries[name]|
        ensures h.entries[name][i] == ScrubbedValue(name, old(h.entries[name])[i], secrets)
        ensures AuthHeader(name) ==> Masks(h.entries[name][i], |old(h.entries[name])[i]|, secrets)
        ensures !AuthHeader(name) ==> h.entries[name][i] == Redacted(old(h.entries[name])[i], secrets)
      {
        ScrubbedByName(name, old(h.entries[name])[i], secrets);
      }
    }
  }

  method ScrubValues(name: string, before: seq<string>, secrets: seq<string>) returns (values: seq<string>)
    requires NonEmptyAll(secrets)
    ensures Scrubbed(name, before, values, secrets)
  {
    hide Redacted, SafeReplacement;
    values := before;
    for i := 0 to |before|
      invariant |values| == |before|
      invariant forall k :: 0 <= k < i ==> values[k] == ScrubbedValue(name, before[k], secrets)
      invariant forall k :: i <= k < |before| ==> values[k] == before[k]
    {
      if Forced(name) {
        values := values[i := SafeReplacement(|values[i]|, secrets)];
      } else {
        var redacted := RedactWith(values[i], secrets);
        values := values[i := redacted];
      }
    }
  }

  // ---------- any interleaving of loading and redacting ----------

  /** The loaded secrets and the snapshot each redaction call has taken. */
  datatype State = State(secrets: seq<string>, snapshots: map<nat, seq<string>>)

  datatype Event =
    | Added(secret: string)
    | SnapshotTaken(call: nat)
    | Emitted(call: nat, input: string, output: string)
    | EmittedForced(call: nat, length: nat, output: string)

  ghost predicate Step(a: State, event: Event, b: State) {
    match event
    case Added(secret) => b == a.(secrets := WithSecret(a.secrets, secret))
    case SnapshotTaken(call) => call !in a.snapshots && b == a.(snapshots := a.snapshots[call := a.secrets])
    case Emitted(call, input, output) =>
      call in a.snapshots && output == Redacted(input, a.snapshots[call]) && b == a
    case EmittedForced(call, length, output) =>
      call in a.snapshots && output == SafeReplacement(length, a.snapshots[call]) && b == a
  }

  ghost predicate Run(states: seq<State>, events: seq<Event>) {
    && |states| == |events| + 1
    && states[0] == State([], map[])
    && forall i :: 0 <= i < |events| ==> Step(states[i], events[i], states[i + 1])
  }

  ghost predicate Loaded(state: State) {
    && WellLoaded(state.secrets)
    && forall call :: call in state.snapshots ==> WellLoaded(state.snapshots[call])
  }

  lemma StepKeepsLoaded(a: State, event: Event, b: State)
    requires Loaded(a) && Step(a, event, b)
    ensures Loaded(b)
    ensures a.secrets <= b.secrets
    ensures forall call :: call in a.snapshots ==> call in b.snapshots && b.snapshots[call] == a.snapshots[call]
  {}

  /** The list only grows, stays free of empty and repeated secrets, and no snapshot changes. */
  lemma {:induction false} RunGrows(states: seq<State>, events: seq<Event>, i: nat, j: nat)
    requires Run(states, events) && i <= j < |states|
    ensures Loaded(states[j]) && states[i].secrets <= states[j].secrets
    ensures forall call :: call in states[i].snapshots ==>
      call in states[j].snapshots && states[j].snapshots[call] == states[i].snapshots[call]
    decreases j
  {
    hide Step;
    if j == 0 {
      assert states[0] == State([], map[]);
    } else if i < j {
      RunGrows(states, events, i, j - 1);
      StepKeepsLoaded(states[j - 1], events[j - 1], states[j]);
    } else {
      RunGrows(states, events, j - 1, j - 1);
      StepKeepsLoaded(states[j - 1], events[j - 1], states[j]);
    }
  }

  lemma PrefixMember(a: seq<string>, b: seq<string>, x: string)
    requires a <= b && x in a
    ensures x in b
  {}

  /** Whatever is loaded before a call takes its snapshot is absent from everything the call
      emits, however the calls and the loads interleave. */
  lemma LoadedSecretsNeverEmitted(states: seq<State>, events: seq<Event>,
      added: nat, taken: nat, emitted: nat, secret: string, output: string)
    requires Run(states, events) && added < taken < emitted < |events|
    requires events[added] == Added(secret) && secret != ""
    requires events[taken].SnapshotTaken?
    requires events[emitted].Emitted? || events[emitted].EmittedForced?
    requires events[emitted].call == events[taken].call && events[emitted].output == output
    ensures !Contains(output, secret)
  {
    hide Redacted, SafeReplacement, Contains;
    var call := events[taken].call;
    assert Step(states[added], events[added], states[added + 1]);
    assert Step(states[taken], events[taken], states[taken + 1]);
    assert Step(states[emitted], events[emitted], states[emitted + 1]);
    RunGrows(states, events, added + 1, taken);
    RunGrows(states, events, taken + 1, emitted);
    var snapshot := states[taken].secrets;
    assert secret in states[added + 1].secrets;
    PrefixMember(states[added + 1].secrets, snapshot, secret);
    EmissionIsClean(events[emitted], snapshot, secret);
  }

  lemma EmissionIsClean(event: Event, snapshot: seq<string>, secret: string)
    requires NonEmptyAll(snapshot) && secret in snapshot
    ensures event.Emitted? && event.output == Redacted(event.input, snapshot) ==> !Contains(event.output, secret)
    ensures event.EmittedForced? && event.output == SafeReplacement(event.length, snapshot) ==>
      !Contains(event.output, secret)
  {}

  // ---------- the leak assertion ----------

  const LEAK_HEADER := "credstore: secret material leaked into output: "
  const GENERIC := "credstore: a loaded value leaked into output (details withheld to avoid echoing it)"

  function LeakLine(ordinal: nat, length: nat): string {
    "secret #" + Decimal(ordinal) + " (len=" + Decimal(length) + ")"
  }

  /** One line per leaked secret among the first k, in argument order. */
  function LeakLines(output: string, secrets: seq<string>, k: nat): seq<string>
    requires k <= |secrets|
  {
    if k == 0 then []
    else
      LeakLines(output, secrets, k - 1)
      + (if secrets[k - 1] != "" && Contains(output, secrets[k - 1]) then [LeakLine(k, |secrets[k - 1]|)] else [])
  }

  function Join(parts: seq<string>): string {
    if parts == [] then "" else if |parts| == 1 then parts[0] else parts[0] + ", " + Join(parts[1..])
  }

  function NonEmptyOf(secrets: seq<string>): (r: seq<string>)
    ensures forall x :: x in r <==> x in secrets && x != ""
  {
    if secrets == [] then []
    else
      assert secrets == secrets[..|secrets| - 1] + [secrets[|secrets| - 1]];
      var last := secrets[|secrets| - 1];
      NonEmptyOf(secrets[..|secrets| - 1]) + (if last == "" then [] else [last])
  }

  /** The message, or a less detailed one, or nothing: whichever first holds no secret. */
  function SafeErrorText(message: string, secrets: seq<string>): (r: string)
    requires NonEmptyAll(secrets)
    ensures !ContainsAny(r, secrets)
  {
    if !ContainsAny(message, secrets) then message
    else if !ContainsAny(GENERIC, secrets) then GENERIC
    else
      assert forall secret :: secret in secrets ==> secret != "";
      ""
  }

  lemma {:induction false} LeakLinesReport(output: string, secrets: seq<string>, k: nat)
    requires k <= |secrets|
    ensures LeakLines(output, secrets, k) == [] <==>
      forall i :: 0 <= i < k ==> secrets[i] == "" || !Contains(output, secrets[i])
  {
    if k > 0 { LeakLinesReport(output, secrets, k - 1); }
  }

  /** Fails iff some non-empty secret occurs in the output; the failure text names each leaked
      secret by position and length only, and itself holds none of them. */
  method NoLeakAssertion(output: string, secrets: seq<string>) returns (err: Option<string>)
    ensures err.None? <==> !ContainsAny(output, NonEmptyOf(secrets))
    ensures err.Some? ==> !ContainsAny(err.value, NonEmptyOf(secrets))
    ensures var report := LEAK_HEADER + Join(LeakLines(output, secrets, |secrets|));
      NonEmptyAll(NonEmptyOf(secrets)) && (err.Some? ==> err.value == SafeErrorText(report, NonEmptyOf(secrets)))
  {
    hide Contains, LeakLine, Join, SafeErrorText;
    var leaked, nonEmpty := [], [];
    for i := 0 to |secrets|
      invariant leaked == LeakLines(output, secrets, i)
      invariant nonEmpty == NonEmptyOf(secrets[..i])
    {
      assert secrets[..i + 1][..i] == secrets[..i];
      if secrets[i] == "" {
        continue;
      }
      nonEmpty := nonEmpty + [secrets[i]];
      if Contains(output, secrets[i]) {
        leaked := leaked + [LeakLine(i + 1, |secrets[i]|)];
      }
    }
    assert secrets[..|secrets|] == secrets;
    LeakLinesReport(output, secrets, |secrets|);
    if |leaked| == 0 {
      return None;
    }
    var message := LEAK_HEADER + Join(leaked);
    return Some(SafeErrorText(message, nonEmpty));
  }

  /** Which text is chosen. */
  lemma SafeErrorTextIs(message: string, secrets: seq<string>)
    requires NonEmptyAll(secrets)
    ensures var generic := "credstore: a loaded value leaked into output (details withheld to avoid echoing it)";
      SafeErrorText(message, secrets) ==
        if forall secret :: secret in secrets ==> !Contains(message, secret) then message
        else if forall secret :: secret in secrets ==> !Contains(generic, secret) then generic
        else ""
  {
    hide Contains;
  }

  /** The report of a leak, as text: the fixed header, and then for each leaked secret, in argument
      order, its position counted from one and its length. */
  lemma LeakReportText(output: string, secrets: seq<string>)
    returns (leaked: seq<nat>, lines: seq<string>)
    ensures LeakedAmong(output, secrets, |secrets|, leaked, lines)
    ensures leaked != [] ==>
      LEAK_HEADER + Join(LeakLines(output, secrets, |secrets|))
      == Weave(["credstore: secret material leaked into output: "] + Commas(|lines| - 1) + [""], lines)
  {
    hide Contains, ReportsLeak, Join;
    leaked, lines := LeakedUpTo(output, secrets, |secrets|);
    if leaked != [] { JoinIsWeave("credstore: secret material leaked into output: ", lines); }
  }

  ghost function Commas(n: nat): seq<string> {
    seq(n, i => ", ")
  }

  ghost predicate ReportsLeak(line: string, n: nat, secrets: seq<string>) {
    n < |secrets| && exists ordinal, length ::
      && ReadsAs(ordinal, n + 1) && ReadsAs(length, |secrets[n]|)
      && line == "secret #" + ordinal + " (len=" + length + ")"
  }

  lemma LeakLineReports(n: nat, secrets: seq<string>)
    requires n < |secrets|
    ensures ReportsLeak(LeakLine(n + 1, |secrets[n]|), n, secrets)
  {
    DecimalReadsBack(n + 1);
    DecimalReadsBack(|secrets[n]|);
    var ordinal, length := Decimal(n + 1), Decimal(|secrets[n]|);
    assert ReadsAs(ordinal, n + 1) && ReadsAs(length, |secrets[n]|);
    assert LeakLine(n + 1, |secrets[n]|) == "secret #" + ordinal + " (len=" + length + ")";
  }

  /** The leaked ones among the first k secrets, and a line for each. */
  ghost predicate LeakedAmong(output: string, secrets: seq<string>, k: nat, leaked: seq<nat>, lines: seq<string>) {
    && k <= |secrets| && |lines| == |leaked|
    && (forall i, j :: 0 <= i < j < |leaked| ==> leaked[i] < leaked[j])
    && (forall n :: n in leaked <==> 0 <= n < k && secrets[n] != "" && Contains(output, secrets[n]))
    && (forall i :: 0 <= i < |leaked| ==> ReportsLeak(lines[i], leaked[i], secrets))
  }

  lemma LeakedMore(output: string, secrets: seq<string>, k: nat, leaked: seq<nat>, lines: seq<string>)
    requires LeakedAmong(output, secrets, k, leaked, lines) && k < |secrets|
    requires secrets[k] != "" && Contains(output, secrets[k])
    ensures LeakedAmong(output, secrets, k + 1, leaked + [k], lines + [LeakLine(k + 1, |secrets[k]|)])
  {
    hide Contains, LeakLine, ReportsLeak;
    LeakLineReports(k, secrets);
    forall i | 0 <= i < |leaked| ensures leaked[i] < k { assert leaked[i] in leaked; }
  }

  lemma LeakedNoMore(output: string, secrets: seq<string>, k: nat, leaked: seq<nat>, lines: seq<string>)
    requires LeakedAmong(output, secrets, k, leaked, lines) && k < |secrets|
    requires !(secrets[k] != "" && Contains(output, secrets[k]))
    ensures LeakedAmong(output, secrets, k + 1, leaked, lines)
  {
    hide Contains, ReportsLeak;
  }

  lemma {:induction false} LeakedUpTo(output: string, secrets: seq<string>, k: nat)
    returns (leaked: seq<nat>, lines: seq<string>)
    requires k <= |secrets|
    ensures lines == LeakLines(output, secrets, k) && LeakedAmong(output, secrets, k, leaked, lines)
  {
    if k == 0 {
      leaked, lines := [], [];
    } else {
      hide LeakedAmong, Contains, LeakLine;
      leaked, lines := LeakedUpTo(output, secrets, k - 1);
      if secrets[k - 1] != "" && Contains(output, secrets[k - 1]) {
        LeakedMore(output, secrets, k - 1, leaked, lines);
        leaked, lines := leaked + [k - 1], lines + [LeakLine(k, |secrets[k - 1]|)];
      } else {
        LeakedNoMore(output, secrets, k - 1, leaked, lines);
      }
    }
  }

  lemma {:induction false} JoinIsWeave(header: string, parts: seq<string>)
    requires parts != []
    ensures header + Join(parts) == Weave([header] + Commas(|parts| - 1) + [""], parts)
    decreases |parts|
  {
    var gaps := [header] + Commas(|parts| - 1) + [""];
    if |parts| == 1 {
      assert gaps[1..] == [""] && parts[1..] == [];
    } else {
      JoinIsWeave(", ", parts[1..]);
      assert gaps[1..] == [", "] + Commas(|parts| - 2) + [""];
      assert header + (parts[0] + ", " + Join(parts[1..])) == header + parts[0] + (", " + Join(parts[1..]));
    }
  }

  /** Redacted output passes the leak assertion made with the same secrets. */
  method RedactedOutputPasses(s: string, secrets: seq<string>) returns (err: Option<string>)
    requires NonEmptyAll(secrets)
    ensures err.None?
  {
    var output := RedactWith(s, secrets);
    RedactedIsClean(s, secrets);
    err := NoLeakAssertion(output, secrets);
  }
}
