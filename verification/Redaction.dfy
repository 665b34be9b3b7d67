/** What redaction means, independently of how it is computed (credstore/redaction.go).
    A redacted run is a maximal stretch of input bytes in which every two neighbours lie in one
    occurrence of some secret. */
module Redaction {
  import opened Text

  predicate ContainsAny(s: string, secrets: seq<string>) {
    exists secret | secret in secrets :: Contains(s, secret)
  }

  function Placeholder(n: nat): string {
    "<redacted, len=" + Decimal(n) + ">"
  }

  function SafeReplacement(n: nat, secrets: seq<string>): string {
    if ContainsAny(Placeholder(n), secrets) then "" else Placeholder(n)
  }

  // ---------- the text of a placeholder ----------

  /** The decimal numeral of n. */
  ghost predicate ReadsAs(digits: string, n: nat) {
    && digits != "" && (forall c :: c in digits ==> '0' <= c <= '9')
    && DigitsValue(digits) == n && (digits[0] == '0' ==> digits == "0")
  }

  /** A placeholder says how many bytes it stands for, and nothing else. */
  lemma PlaceholderText(n: nat) returns (digits: string)
    ensures ReadsAs(digits, n) && Placeholder(n) == "<redacted, len=" + digits + ">"
  {
    digits := Decimal(n);
    DecimalReadsBack(n);
  }

  /** What stands for n hidden bytes: the literal with their number, or nothing if a secret occurs in
      that literal. */
  ghost predicate Masks(text: string, n: nat, secrets: seq<string>) {
    exists digits :: ReadsAs(digits, n) && MasksWith(text, digits, secrets)
  }

  ghost predicate MasksWith(text: string, digits: string, secrets: seq<string>) {
    var literal := "<redacted, len=" + digits + ">";
    if exists secret :: secret in secrets && Contains(literal, secret) then text == "" else text == literal
  }

  lemma ReplacementMasks(n: nat, secrets: seq<string>)
    ensures Masks(SafeReplacement(n, secrets), n, secrets)
  {
    hide Contains;
    var digits := PlaceholderText(n);
    assert MasksWith(SafeReplacement(n, secrets), digits, secrets);
  }

  /** Bytes start..end of the input. */
  datatype Span = Span(start: nat, end: nat)

  /** The span of one occurrence of one secret. */
  ghost predicate Hit(s: string, secrets: seq<string>, span: Span) {
    exists secret :: secret in secrets && Occurs(s, secret, span.start) && span.end == span.start + |secret|
  }

  ghost predicate Covered(s: string, secrets: seq<string>, i: int) {
    exists span :: Hit(s, secrets, span) && span.start <= i < span.end
  }

  /** Bytes i and i + 1 lie in one occurrence. */
  ghost predicate Joined(s: string, secrets: seq<string>, i: int) {
    exists span :: Hit(s, secrets, span) && span.start <= i && i + 1 < span.end
  }

  /** The input is a secret with something around it. */
  ghost predicate Copy(s: string, secrets: seq<string>, before: string, secret: string, after: string) {
    secret in secrets && s == before + secret + after
  }

  lemma HitIsCopy(s: string, secrets: seq<string>, span: Span) returns (before: string, secret: string, after: string)
    requires Hit(s, secrets, span)
    ensures Copy(s, secrets, before, secret, after) && span == Span(|before|, |before| + |secret|)
  {
    secret :| secret in secrets && Occurs(s, secret, span.start) && span.end == span.start + |secret|;
    before, after := s[..span.start], s[span.end..];
    assert s == before + secret + after;
  }

  lemma CopyIsHit(s: string, secrets: seq<string>, before: string, secret: string, after: string)
    requires Copy(s, secrets, before, secret, after)
    ensures Hit(s, secrets, Span(|before|, |before| + |secret|))
  {
    assert s[|before|..|before| + |secret|] == secret;
  }

  /** A byte is covered exactly if it lies in a copy of a secret. */
  lemma CoveredText(s: string, secrets: seq<string>, i: nat)
    ensures Covered(s, secrets, i) <==>
      exists before, secret, after :: Copy(s, secrets, before, secret, after) && |before| <= i < |before| + |secret|
  {
    hide Hit, Copy;
    if span :| Hit(s, secrets, span) && span.start <= i < span.end {
      var before, secret, after := HitIsCopy(s, secrets, span);
    }
    if before, secret, after :| Copy(s, secrets, before, secret, after) && |before| <= i < |before| + |secret| {
      CopyIsHit(s, secrets, before, secret, after);
    }
  }

  /** Two neighbours are joined exactly if one copy of a secret holds both. */
  lemma JoinedText(s: string, secrets: seq<string>, i: nat)
    ensures Joined(s, secrets, i) <==>
      exists before, secret, after :: Copy(s, secrets, before, secret, after) && |before| <= i < |before| + |secret| - 1
  {
    hide Hit, Copy;
    if span :| Hit(s, secrets, span) && span.start <= i && i + 1 < span.end {
      var before, secret, after := HitIsCopy(s, secrets, span);
    }
    if before, secret, after :| Copy(s, secrets, before, secret, after) && |before| <= i < |before| + |secret| - 1 {
      CopyIsHit(s, secrets, before, secret, after);
      var span := Span(|before|, |before| + |secret|);
      assert Hit(s, secrets, span) && span.start <= i && i + 1 < span.end;
    }
  }

  /** The end of the run that contains byte i. */
  ghost function RunEnd(s: string, secrets: seq<string>, i: nat): (e: nat)
    requires i < |s|
    ensures i < e <= |s| && !Joined(s, secrets, e - 1)
    ensures forall k :: i <= k < e - 1 ==> Joined(s, secrets, k)
    decreases |s| - i
  {
    if Joined(s, secrets, i) then RunEnd(s, secrets, i + 1) else i + 1
  }

  /** The runs at or after byte `from`, in order. */
  ghost function Runs(s: string, secrets: seq<string>, from: nat): seq<Span>
    decreases |s| - from
  {
    if from >= |s| then []
    else if Covered(s, secrets, from) then
      var e := RunEnd(s, secrets, from);
      [Span(from, e)] + Runs(s, secrets, e)
    else Runs(s, secrets, from + 1)
  }

  /** Uncovered bytes verbatim, runs replaced. */
  ghost function Render(s: string, secrets: seq<string>, from: nat): string
    decreases |s| - from
  {
    if from >= |s| then ""
    else if Covered(s, secrets, from) then
      var e := RunEnd(s, secrets, from);
      SafeReplacement(e - from, secrets) + Render(s, secrets, e)
    else [s[from]] + Render(s, secrets, from + 1)
  }

  /** The whole redaction: the rendering, or nothing at all if it still holds a secret. */
  ghost function Redacted(s: string, secrets: seq<string>): string {
    var out := Render(s, secrets, 0);
    if ContainsAny(out, secrets) then "" else out
  }

  predicate NonEmptyAll(secrets: seq<string>) {
    "" !in secrets
  }

  // ---------- runs are the canonical merge ----------

  ghost predicate InRun(runs: seq<Span>, i: int) {
    exists k :: 0 <= k < |runs| && runs[k].start <= i < runs[k].end
  }

  ghost predicate InOneRun(runs: seq<Span>, i: int) {
    exists k :: 0 <= k < |runs| && runs[k].start <= i && i + 1 < runs[k].end
  }

  /** Non-empty spans between `from` and `to`, left to right, none overlapping. */
  ghost predicate Separate(from: int, runs: seq<Span>, to: int)
    decreases |runs|
  {
    if runs == [] then from <= to
    else from <= runs[0].start < runs[0].end && Separate(runs[0].end, runs[1..], to)
  }

  lemma {:induction false} SeparateBound(from: int, runs: seq<Span>, to: int)
    requires Separate(from, runs, to)
    ensures from <= to
    decreases |runs|
  {
    if runs != [] { SeparateBound(runs[0].end, runs[1..], to); }
  }

  lemma SeparateCons(from: int, first: Span, rest: seq<Span>, to: int)
    requires from <= first.start < first.end && Separate(first.end, rest, to)
    ensures Separate(from, [first] + rest, to)
  {}

  lemma JoinedCovers(s: string, secrets: seq<string>, i: nat)
    requires Joined(s, secrets, i)
    ensures Covered(s, secrets, i) && Covered(s, secrets, i + 1) && i + 1 < |s|
  {}

  /** A byte is redacted iff it lies in an occurrence, and neighbours share a run iff a single
      occurrence covers both. */
  lemma {:induction false} RunsCanonical(s: string, secrets: seq<string>, from: nat)
    requires from <= |s|
    requires from == 0 || !Joined(s, secrets, from - 1)
    ensures var runs := Runs(s, secrets, from);
      && Separate(from, runs, |s|)
      && (forall i :: from <= i < |s| ==> (InRun(runs, i) <==> Covered(s, secrets, i)))
      && (forall i :: from <= i < |s| ==> (InOneRun(runs, i) <==> Joined(s, secrets, i)))
    decreases |s| - from
  {
    var runs := Runs(s, secrets, from);
    if from < |s| {
      if Covered(s, secrets, from) {
        var e := RunEnd(s, secrets, from);
        RunsCanonical(s, secrets, e);
        var rest := Runs(s, secrets, e);
        assert runs == [Span(from, e)] + rest;
        RunsCons(Span(from, e), rest);
        SeparateCons(from, Span(from, e), rest, |s|);
        RunsFrom(rest, e, |s|);
        forall i | from <= i < e ensures Covered(s, secrets, i) {
          if i > from { JoinedCovers(s, secrets, i - 1); }
        }
      } else {
        if Joined(s, secrets, from) { JoinedCovers(s, secrets, from); }
        RunsCanonical(s, secrets, from + 1);
        RunsFrom(runs, from + 1, |s|);
      }
    }
  }

  /** Runs that start at `from` or later hold no earlier byte. */
  lemma {:induction false} RunsFrom(runs: seq<Span>, from: int, to: int)
    requires Separate(from, runs, to)
    ensures forall i :: i < from ==> !InRun(runs, i) && !InOneRun(runs, i)
    decreases |runs|
  {
    if runs != [] {
      RunsFrom(runs[1..], runs[0].end, to);
      assert runs == [runs[0]] + runs[1..];
      RunsCons(runs[0], runs[1..]);
    }
  }

  lemma RunsCons(first: Span, rest: seq<Span>)
    ensures forall i :: InRun([first] + rest, i) <==> first.start <= i < first.end || InRun(rest, i)
    ensures forall i :: InOneRun([first] + rest, i) <==> (first.start <= i && i + 1 < first.end) || InOneRun(rest, i)
  {
    hide Hit;
    var all := [first] + rest;
    assert all[0] == first && forall k :: 0 <= k < |rest| ==> all[k + 1] == rest[k];
  }

  /** Which bytes are in runs, and which neighbours share one, determines the runs: no other list
      of separate spans is the canonical merge. */
  lemma {:induction false} RunsDetermined(a: seq<Span>, b: seq<Span>, from: int, until: int)
    requires Separate(from, a, until) && Separate(from, b, until)
    requires forall i :: from <= i < until ==> (InRun(a, i) <==> InRun(b, i))
    requires forall i :: from <= i < until ==> (InOneRun(a, i) <==> InOneRun(b, i))
    ensures a == b
    decreases |a|
  {
    FirstRun(a, from, until);
    FirstRun(b, from, until);
    if a != [] && b != [] {
      FirstRunAgrees(a, b, from, until);
      RunsDetermined(a[1..], b[1..], a[0].end, until);
      assert a == [a[0]] + a[1..] && b == [b[0]] + b[1..];
    }
  }

  /** The first run starts at the first byte in a run, and no run holds its last byte and the
      next. */
  lemma FirstRun(runs: seq<Span>, from: int, to: int)
    requires Separate(from, runs, to)
    ensures runs == [] ==> forall i :: !InRun(runs, i)
    ensures runs != [] ==>
      && from <= runs[0].start < runs[0].end <= to
      && InRun(runs, runs[0].start)
      && (forall i :: i < runs[0].start ==> !InRun(runs, i))
      && (forall i :: runs[0].start <= i < runs[0].end - 1 ==> InOneRun(runs, i))
      && !InOneRun(runs, runs[0].end - 1)
      && (forall i :: i >= runs[0].end ==> (InRun(runs, i) <==> InRun(runs[1..], i)))
      && (forall i :: i >= runs[0].end ==> (InOneRun(runs, i) <==> InOneRun(runs[1..], i)))
  {
    if runs != [] {
      SeparateBound(runs[0].end, runs[1..], to);
      RunsFrom(runs[1..], runs[0].end, to);
      assert runs == [runs[0]] + runs[1..];
      RunsCons(runs[0], runs[1..]);
    }
  }

  lemma FirstRunAgrees(a: seq<Span>, b: seq<Span>, from: int, until: int)
    requires a != [] && b != [] && Separate(from, a, until) && Separate(from, b, until)
    requires forall i :: from <= i < until ==> (InRun(a, i) <==> InRun(b, i))
    requires forall i :: from <= i < until ==> (InOneRun(a, i) <==> InOneRun(b, i))
    ensures a[0] == b[0] && Separate(a[0].end, a[1..], until) && Separate(a[0].end, b[1..], until)
    ensures forall i :: a[0].end <= i < until ==> (InRun(a[1..], i) <==> InRun(b[1..], i))
    ensures forall i :: a[0].end <= i < until ==> (InOneRun(a[1..], i) <==> InOneRun(b[1..], i))
  {
    FirstRun(a, from, until);
    FirstRun(b, from, until);
    hide InRun, InOneRun;
    assert a[0].start == b[0].start;
    assert InOneRun(a, b[0].end - 1) <==> InOneRun(b, b[0].end - 1);
    assert InOneRun(a, a[0].end - 1) <==> InOneRun(b, a[0].end - 1);
  }

  // ---------- the rendering piece by piece ----------

  lemma {:induction false} RenderGap(s: string, secrets: seq<string>, from: nat, to: nat)
    requires from <= to <= |s|
    requires forall i :: from <= i < to ==> !Covered(s, secrets, i)
    ensures Render(s, secrets, from) == s[from..to] + Render(s, secrets, to)
    decreases |s| - from
  {
    hide Covered, Joined, SafeReplacement;
    if from < to {
      RenderGap(s, secrets, from + 1, to);
      var rest := Render(s, secrets, to);
      assert !Covered(s, secrets, from);
      assert Render(s, secrets, from) == [s[from]] + Render(s, secrets, from + 1);
      assert [s[from]] + (s[from + 1..to] + rest) == s[from..to] + rest;
    } else {
      assert s[from..to] + Render(s, secrets, to) == Render(s, secrets, to);
    }
  }

  lemma RunEndUnique(s: string, secrets: seq<string>, i: nat, e: nat)
    requires i < e <= |s| && !Joined(s, secrets, e - 1)
    requires forall k :: i <= k < e - 1 ==> Joined(s, secrets, k)
    ensures RunEnd(s, secrets, i) == e
  {}

  /** A gap and the run after it, as the sweep emits them. */
  lemma RenderStep(s: string, secrets: seq<string>, from: nat, run: Span)
    requires from <= run.start < run.end <= |s|
    requires forall i :: from <= i < run.start ==> !Covered(s, secrets, i)
    requires Covered(s, secrets, run.start)
    requires forall k :: run.start <= k < run.end - 1 ==> Joined(s, secrets, k)
    requires !Joined(s, secrets, run.end - 1)
    ensures Render(s, secrets, from)
         == s[from..run.start] + SafeReplacement(run.end - run.start, secrets) + Render(s, secrets, run.end)
  {
    hide Covered, Joined, SafeReplacement;
    RenderGap(s, secrets, from, run.start);
    RunEndUnique(s, secrets, run.start, run.end);
    assert s[from..run.start] + (SafeReplacement(run.end - run.start, secrets) + Render(s, secrets, run.end))
        == s[from..run.start] + SafeReplacement(run.end - run.start, secrets) + Render(s, secrets, run.end);
  }

  /** Text without an occurrence is returned as it is. */
  lemma CleanUnchanged(s: string, secrets: seq<string>)
    requires NonEmptyAll(secrets) && !ContainsAny(s, secrets)
    ensures Redacted(s, secrets) == s
  {
    assert forall secret, i :: secret in secrets && Occurs(s, secret, i) ==> Contains(s, secret);
    RenderGap(s, secrets, 0, |s|);
    assert s[0..|s|] + Render(s, secrets, |s|) == s;
  }

  // ---------- secrecy ----------

  /** No output of a redaction holds a secret. */
  lemma RedactedIsClean(s: string, secrets: seq<string>)
    requires NonEmptyAll(secrets)
    ensures !ContainsAny(Redacted(s, secrets), secrets)
  {}

  lemma RedactionIdempotent(s: string, secrets: seq<string>)
    requires NonEmptyAll(secrets)
    ensures Redacted(Redacted(s, secrets), secrets) == Redacted(s, secrets)
  {
    RedactedIsClean(s, secrets);
    CleanUnchanged(Redacted(s, secrets), secrets);
  }

  // ---------- only the set of secrets matters ----------

  ghost predicate SameSecrets(a: seq<string>, b: seq<string>) {
    forall secret :: secret in a <==> secret in b
  }

  lemma SameCover(s: string, a: seq<string>, b: seq<string>)
    requires SameSecrets(a, b)
    ensures forall i :: Covered(s, a, i) <==> Covered(s, b, i)
    ensures forall i :: Joined(s, a, i) <==> Joined(s, b, i)
  {}

  lemma SameReplacement(n: nat, a: seq<string>, b: seq<string>)
    requires SameSecrets(a, b)
    ensures SafeReplacement(n, a) == SafeReplacement(n, b)
  {}

  lemma {:induction false} RenderSameSecrets(s: string, a: seq<string>, b: seq<string>, from: nat)
    requires SameSecrets(a, b)
    ensures Render(s, a, from) == Render(s, b, from)
    decreases |s| - from
  {
    hide Covered, Joined, SafeReplacement;
    if from < |s| {
      SameCover(s, a, b);
      if Covered(s, a, from) {
        var e := RunEnd(s, a, from);
        RunEndUnique(s, b, from, e);
        SameReplacement(e - from, a, b);
        RenderSameSecrets(s, a, b, e);
      } else {
        RenderSameSecrets(s, a, b, from + 1);
      }
    }
  }

  /** Permuting or repeating the secrets changes no byte of the output. */
  lemma OrderAndDuplicatesIrrelevant(s: string, a: seq<string>, b: seq<string>)
    requires SameSecrets(a, b)
    ensures Redacted(s, a) == Redacted(s, b)
  {
    RenderSameSecrets(s, a, b, 0);
    var out := Render(s, a, 0);
    assert ContainsAny(out, a) <==> ContainsAny(out, b);
  }

  // ---------- when the guard stays silent ----------

  /** The placeholder of each run may be emitted. */
  ghost predicate Plain(runs: seq<Span>, secrets: seq<string>) {
    forall run :: run in runs ==> run.start <= run.end && !ContainsAny(Placeholder(run.end - run.start), secrets)
  }

  /** No secret holds an angle bracket, and none is part of a placeholder of one of the runs. */
  ghost predicate Ordinary(s: string, secrets: seq<string>) {
    && (forall secret :: secret in secrets ==> '<' !in secret && '>' !in secret)
    && Plain(Runs(s, secrets, 0), secrets)
  }

  lemma PlainCons(first: Span, rest: seq<Span>, secrets: seq<string>)
    requires Plain([first] + rest, secrets)
    ensures Plain(rest, secrets) && first.start <= first.end
    ensures SafeReplacement(first.end - first.start, secrets) == Placeholder(first.end - first.start)
    ensures forall secret :: secret in secrets ==> !Contains(Placeholder(first.end - first.start), secret)
  {}

  /** Gaps verbatim, one mark per run: the documented form of the output. */
  ghost function Interleave(s: string, from: nat, runs: seq<Span>, mark: nat -> string): string
    requires Separate(from, runs, |s|)
    decreases |runs|
  {
    SeparateBound(from, runs, |s|);
    if runs == [] then s[from..]
    else
      SeparateBound(runs[0].end, runs[1..], |s|);
      s[from..runs[0].start] + mark(runs[0].end - runs[0].start)
      + Interleave(s, runs[0].end, runs[1..], mark)
  }

  /** The mark of a run: its placeholder, or what stands in for it. */
  ghost function Marker(secrets: seq<string>): nat -> string {
    (n: nat) => SafeReplacement(n, secrets)
  }

  lemma MarkerIs(secrets: seq<string>)
    ensures forall n: nat :: Marker(secrets)(n) == SafeReplacement(n, secrets)
  {}

  lemma InterleaveNothing(s: string, mark: nat -> string)
    ensures Separate(|s|, [], |s|) && Interleave(s, |s|, [], mark) == ""
  {}

  /** No mark at all: what is left are the gaps. */
  function Blank(n: nat): string {
    ""
  }

  lemma {:induction false} InterleaveSame(s: string, from: nat, runs: seq<Span>, mark: nat -> string,
      mark': nat -> string)
    requires Separate(from, runs, |s|)
    requires forall run :: run in runs && run.start <= run.end ==>
      mark(run.end - run.start) == mark'(run.end - run.start)
    ensures Interleave(s, from, runs, mark) == Interleave(s, from, runs, mark')
    decreases |runs|
  {
    if runs != [] {
      SeparateBound(from, runs, |s|);
      InterleaveSame(s, runs[0].end, runs[1..], mark, mark');
    }
  }

  /** An occurrence of a bracket-free secret cannot straddle a placeholder. */
  lemma BracketsSeparate(left: string, n: nat, right: string, secret: string)
    requires '<' !in secret && '>' !in secret && secret != ""
    requires !Contains(left, secret) && !Contains(Placeholder(n), secret) && !Contains(right, secret)
    ensures !Contains(left + Placeholder(n) + right, secret)
  {
    var whole := left + Placeholder(n) + right;
    forall i | 0 <= i <= |whole| ensures !Occurs(whole, secret, i) {
      if Occurs(whole, secret, i) {
        OccurrenceKeepsAside(left, n, right, secret, i);
      }
    }
  }

  lemma OccurrenceKeepsAside(left: string, n: nat, right: string, secret: string, i: int)
    requires '<' !in secret && '>' !in secret && secret != ""
    requires Occurs(left + Placeholder(n) + right, secret, i)
    ensures Contains(left, secret) || Contains(Placeholder(n), secret) || Contains(right, secret)
  {
    var mark := Placeholder(n);
    var whole := left + mark + right;
    var open, close := |left|, |left| + |mark| - 1;
    assert forall k :: 0 <= k < |secret| ==> whole[i + k] == secret[k] && secret[k] in secret;
    assert whole[open] == '<' && whole[i + (open - i)] == '<';
    assert whole[close] == '>' && whole[i + (close - i)] == '>';
    OccursInConcat(left + mark, right, secret, i);
    if i + |secret| <= |left + mark| {
      OccursInConcat(left, mark, secret, i);
    }
  }

  lemma OccurrenceCovers(s: string, secrets: seq<string>, secret: string, i: nat)
    requires secret in secrets && secret != "" && Occurs(s, secret, i)
    ensures Covered(s, secrets, i)
  {
    var hit := Span(i, i + |secret|);
    assert Hit(s, secrets, hit) && hit.start <= i < hit.end;
  }

  /** Bytes of a gap hold no whole secret, or they would be covered. */
  lemma GapIsClean(s: string, secrets: seq<string>, from: nat, to: nat, secret: string)
    requires from <= to <= |s| && secret in secrets && secret != ""
    requires forall i :: from <= i < to ==> !Covered(s, secrets, i)
    ensures !Contains(s[from..to], secret)
  {
    if Contains(s[from..to], secret) {
      var i :| 0 <= i <= |s[from..to]| && Occurs(s[from..to], secret, i);
      OccursInSlice(s, secret, from, to, i);
      OccurrenceCovers(s, secrets, secret, from + i);
    }
  }

  lemma RenderRun(s: string, secrets: seq<string>, from: nat)
    requires from < |s| && Covered(s, secrets, from)
    requires Plain(Runs(s, secrets, from), secrets)
    ensures var e := RunEnd(s, secrets, from);
      && Plain(Runs(s, secrets, e), secrets)
      && Runs(s, secrets, from) == [Span(from, e)] + Runs(s, secrets, e)
      && Render(s, secrets, from) == Placeholder(e - from) + Render(s, secrets, e)
      && forall secret :: secret in secrets ==> !Contains(Placeholder(e - from), secret)
  {
    hide Covered, Joined, Contains, Placeholder, SafeReplacement, Plain;
    var e := RunEnd(s, secrets, from);
    PlainCons(Span(from, e), Runs(s, secrets, e), secrets);
  }

  lemma NoSecretAcross(left: string, n: nat, empty: string, right: string, secret: string)
    requires '<' !in secret && '>' !in secret && secret != "" && empty == ""
    requires !Contains(left, secret) && !Contains(Placeholder(n), secret) && !Contains(empty + right, secret)
    ensures !Contains(left + (Placeholder(n) + right), secret)
  {
    assert empty + right == right;
    BracketsSeparate(left, n, right, secret);
    assert left + (Placeholder(n) + right) == left + Placeholder(n) + right;
  }

  /** The text of the gap so far and the rendering after it. */
  ghost predicate CleanFrom(s: string, secrets: seq<string>, gap: nat, from: nat, secret: string)
    requires gap <= from <= |s|
  {
    !Contains(s[gap..from] + Render(s, secrets, from), secret)
  }

  lemma NoSecretAtRun(s: string, secrets: seq<string>, gap: nat, from: nat, secret: string)
    requires gap <= from < |s| && secret in secrets && secret != ""
    requires '<' !in secret && '>' !in secret
    requires forall i :: gap <= i < from ==> !Covered(s, secrets, i)
    requires Covered(s, secrets, from) && Plain(Runs(s, secrets, from), secrets)
    requires var e := RunEnd(s, secrets, from); CleanFrom(s, secrets, e, e, secret)
    ensures CleanFrom(s, secrets, gap, from, secret)
  {
    hide Covered, Joined, Contains, Placeholder;
    RenderRun(s, secrets, from);
    var e := RunEnd(s, secrets, from);
    GapIsClean(s, secrets, gap, from, secret);
    NoSecretAcross(s[gap..from], e - from, s[e..e], Render(s, secrets, e), secret);
  }

  lemma NoSecretAtByte(s: string, secrets: seq<string>, gap: nat, from: nat, secret: string)
    requires gap <= from < |s| && !Covered(s, secrets, from)
    requires CleanFrom(s, secrets, gap, from + 1, secret)
    ensures CleanFrom(s, secrets, gap, from, secret)
  {
    hide Covered, Joined, SafeReplacement;
    var right := Render(s, secrets, from + 1);
    assert s[gap..from] + ([s[from]] + right) == s[gap..from + 1] + right;
  }

  lemma {:induction false} NoSecretFrom(s: string, secrets: seq<string>, gap: nat, from: nat, secret: string)
    requires gap <= from <= |s| && secret in secrets && secret != ""
    requires '<' !in secret && '>' !in secret
    requires forall i :: gap <= i < from ==> !Covered(s, secrets, i)
    requires Plain(Runs(s, secrets, from), secrets)
    ensures CleanFrom(s, secrets, gap, from, secret)
    decreases |s| - from
  {
    hide Covered, Joined, Contains, Placeholder, SafeReplacement;
    if from == |s| {
      assert s[gap..from] + Render(s, secrets, from) == s[gap..from];
      GapIsClean(s, secrets, gap, from, secret);
    } else if Covered(s, secrets, from) {
      RenderRun(s, secrets, from);
      var e := RunEnd(s, secrets, from);
      NoSecretFrom(s, secrets, e, e, secret);
      NoSecretAtRun(s, secrets, gap, from, secret);
    } else {
      NoSecretFrom(s, secrets, gap, from + 1, secret);
      NoSecretAtByte(s, secrets, gap, from, secret);
    }
  }

  /** Extending the gap before the first run by one byte. */
  lemma InterleaveGap(s: string, from: nat, runs: seq<Span>, mark: nat -> string)
    requires from < |s|
    requires Separate(from + 1, runs, |s|)
    ensures Interleave(s, from, runs, mark) == [s[from]] + Interleave(s, from + 1, runs, mark)
  {
    if runs == [] {
      assert s[from..] == [s[from]] + s[from + 1..];
    } else {
      SeparateBound(runs[0].end, runs[1..], |s|);
      var m := mark(runs[0].end - runs[0].start);
      var rest := Interleave(s, runs[0].end, runs[1..], mark);
      var gap := s[from + 1..runs[0].start];
      assert s[from..runs[0].start] == [s[from]] + gap;
      assert [s[from]] + gap + m + rest == [s[from]] + (gap + m + rest);
    }
  }

  lemma InterleaveRun(s: string, from: nat, first: Span, rest: seq<Span>, mark: nat -> string)
    requires first.start == from < first.end && Separate(first.end, rest, |s|)
    ensures Separate(from, [first] + rest, |s|)
    ensures Interleave(s, from, [first] + rest, mark) == mark(first.end - from) + Interleave(s, first.end, rest, mark)
  {
    SeparateCons(from, first, rest, |s|);
    SeparateBound(first.end, rest, |s|);
    var runs := [first] + rest;
    assert runs[0] == first && runs[1..] == rest;
    var m := mark(first.end - from);
    assert s[from..from] + m == m;
  }

  /** The rendering is the gaps and one mark per canonical run, for any secrets. */
  lemma {:induction false} RenderInterleaves(s: string, secrets: seq<string>, from: nat)
    requires from <= |s|
    ensures Separate(from, Runs(s, secrets, from), |s|)
    ensures Render(s, secrets, from) == Interleave(s, from, Runs(s, secrets, from), Marker(secrets))
    decreases |s| - from
  {
    hide Covered, Joined, SafeReplacement, Marker, Interleave;
    MarkerIs(secrets);
    InterleaveNothing(s, Marker(secrets));
    if from < |s| {
      if Covered(s, secrets, from) {
        var e := RunEnd(s, secrets, from);
        RenderInterleaves(s, secrets, e);
        InterleaveRun(s, from, Span(from, e), Runs(s, secrets, e), Marker(secrets));
      } else {
        RenderInterleaves(s, secrets, from + 1);
        InterleaveGap(s, from, Runs(s, secrets, from), Marker(secrets));
      }
    }
  }

  /** For ordinary secrets neither fallback fires: the output is exactly the gaps and one
      placeholder per run. */
  lemma OrdinarySecretsKeepContext(s: string, secrets: seq<string>)
    requires NonEmptyAll(secrets) && Ordinary(s, secrets)
    ensures Separate(0, Runs(s, secrets, 0), |s|)
    ensures Redacted(s, secrets) == Interleave(s, 0, Runs(s, secrets, 0), Placeholder)
  {
    RenderInterleaves(s, secrets, 0);
    PlainMarks(Runs(s, secrets, 0), secrets);
    InterleaveSame(s, 0, Runs(s, secrets, 0), Marker(secrets), Placeholder);
    forall secret | secret in secrets ensures !Contains(Render(s, secrets, 0), secret) {
      NoSecretFrom(s, secrets, 0, 0, secret);
      assert s[0..0] + Render(s, secrets, 0) == Render(s, secrets, 0);
    }
  }

  lemma PlainMarks(runs: seq<Span>, secrets: seq<string>)
    requires Plain(runs, secrets)
    ensures forall run :: run in runs && run.start <= run.end ==>
      Marker(secrets)(run.end - run.start) == Placeholder(run.end - run.start)
  {}

  // ---------- conservation ----------

  ghost function KeptBytes(s: string, secrets: seq<string>, from: nat): string
    decreases |s| - from
  {
    if from >= |s| then ""
    else (if Covered(s, secrets, from) then "" else [s[from]]) + KeptBytes(s, secrets, from + 1)
  }

  ghost function TotalLength(runs: seq<Span>): int {
    if runs == [] then 0 else runs[0].end - runs[0].start + TotalLength(runs[1..])
  }

  lemma {:induction false} KeptSkipsRun(s: string, secrets: seq<string>, from: nat, to: nat)
    requires from <= to <= |s|
    requires forall i :: from <= i < to ==> Covered(s, secrets, i)
    ensures KeptBytes(s, secrets, from) == KeptBytes(s, secrets, to)
    decreases |s| - from
  {
    if from < to { KeptSkipsRun(s, secrets, from + 1, to); }
  }

  /** Every input byte is either kept or counted in the N of exactly one run. */
  lemma {:induction false} BytesCounted(s: string, secrets: seq<string>, from: nat)
    requires from <= |s|
    ensures |KeptBytes(s, secrets, from)| + TotalLength(Runs(s, secrets, from)) == |s| - from
    decreases |s| - from
  {
    if from < |s| {
      if Covered(s, secrets, from) {
        var e := RunEnd(s, secrets, from);
        RunIsCovered(s, secrets, from);
        KeptSkipsRun(s, secrets, from, e);
        BytesCounted(s, secrets, e);
        assert Runs(s, secrets, from)[1..] == Runs(s, secrets, e);
      } else {
        BytesCounted(s, secrets, from + 1);
      }
    }
  }

  lemma RunIsCovered(s: string, secrets: seq<string>, from: nat)
    requires from < |s| && Covered(s, secrets, from)
    ensures forall i :: from <= i < RunEnd(s, secrets, from) ==> Covered(s, secrets, i)
  {
    forall i | from <= i < RunEnd(s, secrets, from) ensures Covered(s, secrets, i) {
      if i > from { JoinedCovers(s, secrets, i - 1); }
    }
  }

  /** The gaps around the runs are exactly the bytes in no occurrence. */
  lemma {:induction false} GapsAreKept(s: string, secrets: seq<string>, from: nat)
    requires from <= |s|
    ensures Separate(from, Runs(s, secrets, from), |s|)
    ensures Interleave(s, from, Runs(s, secrets, from), Blank) == KeptBytes(s, secrets, from)
    decreases |s| - from
  {
    hide Covered, Joined;
    if from < |s| {
      if Covered(s, secrets, from) {
        var e := RunEnd(s, secrets, from);
        GapsAreKept(s, secrets, e);
        InterleaveRun(s, from, Span(from, e), Runs(s, secrets, e), Blank);
        RunIsCovered(s, secrets, from);
        KeptSkipsRun(s, secrets, from, e);
      } else {
        GapsAreKept(s, secrets, from + 1);
        InterleaveGap(s, from, Runs(s, secrets, from), Blank);
      }
    }
  }

  /** Conservation, for any secrets: the rendering is gaps and one mark per canonical run; without
      its marks it is exactly the bytes in no occurrence, in order; and those bytes and the lengths
      in the marks add up to the length of the input. */
  lemma BytesConserved(s: string, secrets: seq<string>)
    ensures var runs := Runs(s, secrets, 0);
      && Separate(0, runs, |s|)
      && Render(s, secrets, 0) == Interleave(s, 0, runs, Marker(secrets))
      && KeptBytes(s, secrets, 0) == Interleave(s, 0, runs, Blank)
      && |KeptBytes(s, secrets, 0)| + TotalLength(runs) == |s|
  {
    RenderInterleaves(s, secrets, 0);
    GapsAreKept(s, secrets, 0);
    BytesCounted(s, secrets, 0);
  }

  // ---------- the text of the output ----------

  /** Gaps and what fills the places between them, alternating. */
  ghost function Weave(gaps: seq<string>, fillers: seq<string>): string
    requires |gaps| == |fillers| + 1
  {
    if fillers == [] then gaps[0] else gaps[0] + fillers[0] + Weave(gaps[1..], fillers[1..])
  }

  ghost function Lengths(parts: seq<string>): nat {
    if parts == [] then 0 else |parts[0]| + Lengths(parts[1..])
  }

  ghost function Numbers(numerals: seq<string>): int {
    if numerals == [] then 0 else DigitsValue(numerals[0]) + Numbers(numerals[1..])
  }

  ghost function MarksOf(hidden: seq<string>, mark: nat -> string): seq<string> {
    seq(|hidden|, i requires 0 <= i < |hidden| => mark(|hidden[i]|))
  }

  ghost predicate IsSlice(s: string, span: Span, t: string) {
    span.start <= span.end <= |s| && t == s[span.start..span.end]
  }

  /** The same gaps hold the input together around what is hidden, and the output around the marks. */
  lemma {:induction false} WeaveOf(s: string, from: nat, runs: seq<Span>, mark: nat -> string)
    returns (gaps: seq<string>, hidden: seq<string>)
    requires Separate(from, runs, |s|)
    ensures |gaps| == |hidden| + 1 && |hidden| == |runs|
    ensures from <= |s| && s[from..] == Weave(gaps, hidden)
    ensures Interleave(s, from, runs, mark) == Weave(gaps, MarksOf(hidden, mark))
    ensures forall i :: 0 <= i < |runs| ==> IsSlice(s, runs[i], hidden[i])
    decreases |runs|
  {
    SeparateBound(from, runs, |s|);
    if runs == [] {
      gaps, hidden := [s[from..]], [];
    } else {
      var first, rest := runs[0], runs[1..];
      SeparateBound(first.end, rest, |s|);
      var laterGaps, laterHidden := WeaveOf(s, first.end, rest, mark);
      gaps, hidden := [s[from..first.start]] + laterGaps, [s[first.start..first.end]] + laterHidden;
      assert gaps[1..] == laterGaps && hidden[1..] == laterHidden;
      assert MarksOf(hidden, mark)[1..] == MarksOf(laterHidden, mark);
      assert s[from..] == s[from..first.start] + s[first.start..first.end] + s[first.end..];
    }
  }

  lemma {:induction false} WeaveLength(gaps: seq<string>, fillers: seq<string>)
    requires |gaps| == |fillers| + 1
    ensures |Weave(gaps, fillers)| == Lengths(gaps) + Lengths(fillers)
  {
    if fillers == [] {
      assert gaps[1..] == [];
    } else {
      WeaveLength(gaps[1..], fillers[1..]);
    }
  }

  /** The output as text, for any secrets: the input and the rendering have the same gaps, what is
      hidden in the input are the canonical runs, and each is masked; a rendering that still holds a
      secret is dropped altogether. */
  lemma OutputText(s: string, secrets: seq<string>) returns (gaps: seq<string>, hidden: seq<string>, marks: seq<string>)
    ensures |gaps| == |hidden| + 1 == |marks| + 1 && s == Weave(gaps, hidden)
    ensures var runs := Runs(s, secrets, 0);
      |hidden| == |runs| && forall i :: 0 <= i < |runs| ==> IsSlice(s, runs[i], hidden[i])
    ensures forall i :: 0 <= i < |hidden| ==> Masks(marks[i], |hidden[i]|, secrets)
    ensures var out := Weave(gaps, marks);
      Redacted(s, secrets) == if exists secret :: secret in secrets && Contains(out, secret) then "" else out
  {
    hide Contains, Masks, SafeReplacement, Covered, Joined;
    RenderInterleaves(s, secrets, 0);
    gaps, hidden := WeaveOf(s, 0, Runs(s, secrets, 0), Marker(secrets));
    marks := MarksOf(hidden, Marker(secrets));
    assert s[0..] == s;
    forall i | 0 <= i < |hidden| ensures Masks(marks[i], |hidden[i]|, secrets) {
      ReplacementMasks(|hidden[i]|, secrets);
    }
  }

  /** The literal placeholders with the given numerals. */
  ghost function Literals(numerals: seq<string>): seq<string> {
    seq(|numerals|, i requires 0 <= i < |numerals| => "<redacted, len=" + numerals[i] + ">")
  }

  /** For ordinary secrets the output is the gaps around one literal for each run, the numeral in it
      is the length of the run, and the lengths of the gaps and the numbers read back out of the
      output add up to the length of the input. */
  lemma OutputReadsBack(s: string, secrets: seq<string>)
    returns (gaps: seq<string>, hidden: seq<string>, numerals: seq<string>)
    requires NonEmptyAll(secrets) && Ordinary(s, secrets)
    ensures |gaps| == |hidden| + 1 == |numerals| + 1 && s == Weave(gaps, hidden)
    ensures var runs := Runs(s, secrets, 0);
      |hidden| == |runs| && forall i :: 0 <= i < |runs| ==> IsSlice(s, runs[i], hidden[i])
    ensures Redacted(s, secrets) == Weave(gaps, Literals(numerals))
    ensures forall i :: 0 <= i < |hidden| ==> ReadsAs(numerals[i], |hidden[i]|)
    ensures Lengths(gaps) + Numbers(numerals) == |s|
  {
    hide Contains, Ordinary, Placeholder, Covered, Joined, ReadsAs, Render, Interleave, RunEnd;
    OrdinarySecretsKeepContext(s, secrets);
    gaps, hidden := WeaveOf(s, 0, Runs(s, secrets, 0), Placeholder);
    assert s[0..] == s;
    numerals := [];
    for k := 0 to |hidden|
      invariant |numerals| == k
      invariant forall i :: 0 <= i < k ==> ReadsAs(numerals[i], |hidden[i]|)
      invariant forall i :: 0 <= i < k ==> Placeholder(|hidden[i]|) == "<redacted, len=" + numerals[i] + ">"
    {
      var digits := PlaceholderText(|hidden[k]|);
      numerals := numerals + [digits];
    }
    assert MarksOf(hidden, Placeholder) == Literals(numerals);
    WeaveLength(gaps, hidden);
    NumbersAreLengths(hidden, numerals);
  }

  lemma {:induction false} NumbersAreLengths(hidden: seq<string>, numerals: seq<string>)
    requires |hidden| == |numerals| && forall i :: 0 <= i < |hidden| ==> ReadsAs(numerals[i], |hidden[i]|)
    ensures Numbers(numerals) == Lengths(hidden)
  {
    if hidden != [] {
      assert ReadsAs(numerals[0], |hidden[0]|);
      NumbersAreLengths(hidden[1..], numerals[1..]);
    }
  }
}
