/** Byte strings: their order, sorted listings, occurrences of one string in another,
    and the few library functions the program calls on them.
    A Go string is a sequence of bytes; each `char` of a `string` here stands for one byte. */
module Text {
  datatype Option<+T> = None | Some(value: T)

  /** A char that is one byte. Only the codecs that take bytes apart need the bound. */
  type Byte = c: char | c as int < 256
  type Bytes = seq<Byte>

  predicate IsAlnum(c: char) {
    'A' <= c <= 'Z' || 'a' <= c <= 'z' || '0' <= c <= '9'
  }

  lemma Regroup<T>(a: seq<T>, b: seq<T>, c: seq<T>)
    ensures a + b + c == a + (b + c)
  {}

  // ---------- order ----------

  /** The order of sort.Strings: byte by byte, a proper prefix first. */
  predicate Less(a: string, b: string) {
    b != [] && (a == [] || a[0] < b[0] || (a[0] == b[0] && Less(a[1..], b[1..])))
  }

  lemma LessTrichotomy(a: string, b: string)
    ensures Less(a, b) || a == b || Less(b, a)
    ensures !(Less(a, b) && Less(b, a))
    ensures !Less(a, a)
  {}

  lemma LessTransitive(a: string, b: string, c: string)
    requires Less(a, b) && Less(b, c)
    ensures Less(a, c)
  {}

  /** `a` comes before `b` byte by byte: as a proper prefix, or by the first byte that differs. */
  ghost predicate ByteBefore(a: string, b: string) {
    (|a| < |b| && a == b[..|a|]) || exists i :: FirstDifference(a, b, i)
  }

  ghost predicate FirstDifference(a: string, b: string, i: int) {
    0 <= i < |a| && i < |b| && a[..i] == b[..i] && a[i] < b[i]
  }

  /** The recursive order is the order of the first differing byte. */
  lemma {:induction false} LessIsByteBefore(a: string, b: string)
    ensures Less(a, b) <==> ByteBefore(a, b)
  {
    if a != [] && b != [] {
      LessIsByteBefore(a[1..], b[1..]);
      assert a == [a[0]] + a[1..] && b == [b[0]] + b[1..];
      if a[0] == b[0] {
        TailDiffers(a, b);
      } else {
        assert a[0] < b[0] ==> FirstDifference(a, b, 0);
        forall i | FirstDifference(a, b, i) ensures i == 0 { AgreeBefore(a, b, i); }
      }
    }
  }

  lemma AgreeBefore(a: string, b: string, i: int)
    requires FirstDifference(a, b, i)
    ensures i > 0 ==> a[0] == b[0]
  {
    if i > 0 { assert a[..i][0] == b[..i][0]; }
  }

  lemma TailDiffers(a: string, b: string)
    requires a != [] && b != [] && a[0] == b[0]
    ensures ByteBefore(a, b) <==> ByteBefore(a[1..], b[1..])
  {
    assert a == [a[0]] + a[1..] && b == [b[0]] + b[1..];
    if |a| < |b| { assert a == b[..|a|] <==> a[1..] == b[1..][..|a| - 1]; }
    forall i | FirstDifference(a, b, i) ensures FirstDifference(a[1..], b[1..], i - 1) {
      if i > 0 {
        assert a[1..][..i - 1] == a[..i][1..] && b[1..][..i - 1] == b[..i][1..];
      }
    }
    forall i | FirstDifference(a[1..], b[1..], i) ensures FirstDifference(a, b, i + 1) {
      assert a[..i + 1] == [a[0]] + a[1..][..i] && b[..i + 1] == [b[0]] + b[1..][..i];
    }
  }

  ghost predicate InByteOrder(s: seq<string>) {
    forall i, j :: 0 <= i < j < |s| ==> ByteBefore(s[i], s[j])
  }

  /** A sorted listing, read by bytes. */
  lemma AscendingByBytes(s: seq<string>)
    ensures Ascending(s) <==> InByteOrder(s)
  {
    hide Less, ByteBefore;
    forall i, j | 0 <= i < j < |s| ensures Less(s[i], s[j]) <==> ByteBefore(s[i], s[j]) {
      LessIsByteBefore(s[i], s[j]);
    }
  }

  lemma {:induction false} LessUnderPrefix(prefix: string, a: string, b: string)
    requires Less(a, b)
    ensures Less(prefix + a, prefix + b)
  {
    if prefix == [] {
      assert prefix + a == a && prefix + b == b;
    } else {
      LessUnderPrefix(prefix[1..], a, b);
      assert (prefix + a)[1..] == prefix[1..] + a && (prefix + b)[1..] == prefix[1..] + b;
    }
  }

  /** Sorted and free of duplicates. */
  ghost predicate Ascending(s: seq<string>) {
    forall i, j :: 0 <= i < j < |s| ==> Less(s[i], s[j])
  }

  /** `s` lists exactly the members of `elements`, in order, each once. */
  ghost predicate Enumerates(s: seq<string>, elements: set<string>) {
    Ascending(s) && forall x :: x in s <==> x in elements
  }

  ghost predicate NoDuplicates<T>(s: seq<T>) {
    forall i, j :: 0 <= i < j < |s| ==> s[i] != s[j]
  }

  /** A sorted duplicate-free listing is determined by its elements. */
  lemma {:induction false} EnumerationUnique(a: seq<string>, b: seq<string>, elements: set<string>)
    requires Enumerates(a, elements) && Enumerates(b, elements)
    ensures a == b
  {
    if a == [] {
      assert forall i :: 0 <= i < |b| ==> b[i] in a;
    } else {
      assert a[0] in a && a[0] in b;
      assert b[0] in b && b[0] in a;
      if a[0] != b[0] {
        LessTrichotomy(a[0], b[0]);
      }
      LessTrichotomy(a[0], a[0]);
      var rest := elements - {a[0]};
      AscendingTail(a, elements);
      AscendingTail(b, elements);
      EnumerationUnique(a[1..], b[1..], rest);
    }
  }

  lemma AscendingTail(a: seq<string>, elements: set<string>)
    requires Enumerates(a, elements) && a != []
    ensures Enumerates(a[1..], elements - {a[0]})
  {
    LessTrichotomy(a[0], a[0]);
    assert a == [a[0]] + a[1..];
    assert a[0] !in a[1..];
  }

  ghost function Members(s: seq<string>): set<string> {
    set k | k in s
  }

  lemma LaterNotIn(keys: seq<string>, i: nat)
    requires Ascending(keys) && i < |keys|
    ensures keys[i] !in keys[..i] && keys[i] in keys
    ensures forall k :: k in keys[..i] ==> Less(k, keys[i])
    ensures forall k :: k in keys[i + 1..] ==> Less(keys[i], k)
  {
    LessTrichotomy(keys[i], keys[i]);
  }

  lemma LaterSmaller(keys: seq<string>, all: set<string>, i: nat)
    requires Enumerates(keys, all) && i < |keys|
    ensures keys[i] in all
    ensures forall k :: k in all && Less(k, keys[i]) ==> k in keys[..i]
    ensures forall k :: k in keys[..i] ==> k in all && Less(k, keys[i])
  {
    LaterNotIn(keys, i);
    assert keys == keys[..i] + [keys[i]] + keys[i + 1..];
    forall k | k in all && Less(k, keys[i]) ensures k in keys[..i] {
      assert k in keys;
      LessTrichotomy(k, keys[i]);
    }
  }

  // ---------- sorting ----------

  function InsertSorted(x: string, s: seq<string>): (r: seq<string>)
    requires Ascending(s) && x !in s
    ensures Ascending(r) && forall y :: y in r <==> y == x || y in s
  {
    if s == [] then [x]
    else if Less(x, s[0]) then
      assert forall j :: 0 <= j < |s| ==> Less(x, s[j]) by {
        forall j | 0 < j < |s| ensures Less(x, s[j]) { LessTransitive(x, s[0], s[j]); }
      }
      [x] + s
    else
      assert Less(s[0], x) by { LessTrichotomy(x, s[0]); assert s[0] in s; }
      assert s == [s[0]] + s[1..];
      var tail := InsertSorted(x, s[1..]);
      assert forall y :: y in tail ==> Less(s[0], y);
      [s[0]] + tail
  }

  /** sort.Strings on a list without duplicates. */
  function SortStrings(s: seq<string>): (r: seq<string>)
    requires NoDuplicates(s)
    ensures Enumerates(r, set x | x in s)
  {
    if s == [] then []
    else
      assert s == [s[0]] + s[1..];
      assert s[0] !in s[1..];
      InsertSorted(s[0], SortStrings(s[1..]))
  }

  // ---------- occurrences ----------

  /** `t` occurs in `s` at byte `i`. */
  predicate Occurs(s: string, t: string, i: int) {
    0 <= i && i + |t| <= |s| && s[i..i + |t|] == t
  }

  predicate Contains(s: string, t: string) {
    exists i :: 0 <= i <= |s| && Occurs(s, t, i)
  }

  /** One string occurs in another exactly if that is it with something around it. */
  lemma ContainsIff(s: string, t: string)
    ensures Contains(s, t) <==> exists before, after :: s == before + t + after
  {
    if Contains(s, t) {
      var i :| 0 <= i <= |s| && Occurs(s, t, i);
      assert s == s[..i] + t + s[i + |t|..];
    }
    if before, after :| s == before + t + after {
      assert s[|before|..|before| + |t|] == t;
      assert Occurs(s, t, |before|);
    }
  }

  /** strings.Index and bytes.Index, searching from byte `from` on; -1 when there is none. */
  function IndexFrom(s: string, t: string, from: nat): (j: int)
    requires from <= |s|
    ensures j == -1 ==> forall i :: from <= i ==> !Occurs(s, t, i)
    ensures j != -1 ==> from <= j && Occurs(s, t, j) && forall i :: from <= i < j ==> !Occurs(s, t, i)
    decreases |s| - from
  {
    if Occurs(s, t, from) then from
    else if from == |s| then -1
    else IndexFrom(s, t, from + 1)
  }

  /** An occurrence in `a + b` that does not cross the seam lies in `a` or in `b`. */
  lemma OccursInConcat(a: string, b: string, t: string, i: int)
    requires Occurs(a + b, t, i)
    ensures i + |t| <= |a| ==> Occurs(a, t, i)
    ensures |a| <= i ==> Occurs(b, t, i - |a|)
  {}

  lemma OccursInSlice(s: string, t: string, from: nat, to: nat, i: int)
    requires from <= to <= |s| && Occurs(s[from..to], t, i)
    ensures Occurs(s, t, from + i) && from + i + |t| <= to
  {
    var window := s[from..to][i..i + |t|];
    assert forall k :: 0 <= k < |t| ==> window[k] == s[from + i + k];
    assert s[from + i..from + i + |t|] == t;
  }

  /** fmt's %d of a non-negative number. */
  function Decimal(n: nat): (r: string)
    ensures r != [] && forall c :: c in r ==> '0' <= c <= '9'
  {
    var digit := ('0' as int + n % 10) as char;
    if n < 10 then [digit] else Decimal(n / 10) + [digit]
  }

  /** The number a digit string writes. */
  function DigitsValue(s: string): int {
    if s == "" then 0 else 10 * DigitsValue(s[..|s| - 1]) + (s[|s| - 1] as int - '0' as int)
  }

  /** The rendering is read back as the number, and has no leading zero. */
  lemma {:induction false} DecimalReadsBack(n: nat)
    ensures DigitsValue(Decimal(n)) == n
    ensures Decimal(n)[0] == '0' ==> n == 0
  {
    var digits := Decimal(n);
    if n >= 10 {
      DecimalReadsBack(n / 10);
      assert digits[..|digits| - 1] == Decimal(n / 10);
    }
  }
}
