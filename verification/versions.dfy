/** `System.Version` as the SDK locator uses it (Signing/Commands/SignCommand.cs:203-213):
    parsed from a directory name, used as a dictionary key and ordered. */
module Versions {
  import opened Opt

  /** `int.MaxValue`: a component must fit a 32-bit signed integer. */
  const Int32Max: nat := 0x7FFF_FFFF

  /** A version has two to four components: major, minor, and the optional
      build and revision. */
  type Version = v: seq<nat> | 2 <= |v| <= 4 witness [0, 0]

  // ---------------------------------------------------------------------------
  // Splitting on a separator

  /** `string.Split(sep)`: always at least one part, none containing `sep`. */
  function Split(s: string, sep: char): (parts: seq<string>)
    ensures |parts| >= 1
    ensures forall i :: 0 <= i < |parts| ==> sep !in parts[i]
    decreases |s|
  {
    if |s| == 0 then [""]
    else
      var rest := Split(s[1..], sep);
      if s[0] == sep then [""] + rest
      else [[s[0]] + rest[0]] + rest[1..]
  }

  /** `string.Join(sep, parts)`. */
  function Join(parts: seq<string>, sep: char): string
    requires |parts| >= 1
    decreases |parts|
  {
    if |parts| == 1 then parts[0]
    else parts[0] + [sep] + Join(parts[1..], sep)
  }

  lemma {:induction false} SplitPrependChar(c: char, s: string, sep: char)
    requires c != sep
    ensures Split([c] + s, sep) == [[c] + Split(s, sep)[0]] + Split(s, sep)[1..]
  {
    assert ([c] + s)[1..] == s;
  }

  /** Splitting a word (no separator) followed by a separator and more text. */
  lemma {:induction false} SplitWord(w: string, sep: char, rest: string)
    requires sep !in w
    ensures Split(w + [sep] + rest, sep) == [w] + Split(rest, sep)
    decreases |w|
  {
    if |w| == 0 {
      assert w + [sep] + rest == [sep] + rest;
      assert ([sep] + rest)[1..] == rest;
    } else {
      SplitWord(w[1..], sep, rest);
      assert w + [sep] + rest == [w[0]] + (w[1..] + [sep] + rest);
      SplitPrependChar(w[0], w[1..] + [sep] + rest, sep);
      assert [w[0]] + w[1..] == w;
    }
  }

  /** A single word splits to itself. */
  lemma {:induction false} SplitNoSeparator(w: string, sep: char)
    requires sep !in w
    ensures Split(w, sep) == [w]
    decreases |w|
  {
    if |w| > 0 {
      SplitNoSeparator(w[1..], sep);
      assert [w[0]] + w[1..] == w;
    }
  }

  /** Splitting undoes joining when no part contains the separator. */
  lemma {:induction false} SplitJoin(parts: seq<string>, sep: char)
    requires |parts| >= 1
    requires forall i :: 0 <= i < |parts| ==> sep !in parts[i]
    ensures Split(Join(parts, sep), sep) == parts
    decreases |parts|
  {
    if |parts| == 1 {
      SplitNoSeparator(parts[0], sep);
    } else {
      SplitJoin(parts[1..], sep);
      SplitWord(parts[0], sep, Join(parts[1..], sep));
      assert [parts[0]] + parts[1..] == parts;
    }
  }

  lemma JoinPrependPart(p: string, rest: seq<string>, sep: char)
    requires |rest| >= 1
    ensures Join([p] + rest, sep) == p + [sep] + Join(rest, sep)
  {
    assert ([p] + rest)[1..] == rest;
  }

  lemma {:induction false} JoinPrependChar(c: char, parts: seq<string>, sep: char)
    requires |parts| >= 1
    ensures Join([[c] + parts[0]] + parts[1..], sep) == [c] + Join(parts, sep)
  {
    var q := [[c] + parts[0]] + parts[1..];
    if |parts| > 1 {
      assert q[1..] == parts[1..];
      assert Join(q, sep) == [c] + parts[0] + [sep] + Join(parts[1..], sep);
    }
  }

  /** Joining undoes splitting. */
  lemma {:induction false} JoinSplit(s: string, sep: char)
    ensures Join(Split(s, sep), sep) == s
    decreases |s|
  {
    if |s| > 0 {
      JoinSplit(s[1..], sep);
      var rest := Split(s[1..], sep);
      if s[0] == sep {
        JoinPrependPart("", rest, sep);
      } else {
        JoinPrependChar(s[0], rest, sep);
      }
      assert [s[0]] + s[1..] == s;
    }
  }

  // ---------------------------------------------------------------------------
  // Decimal digits

  predicate IsDigit(c: char) {
    '0' <= c <= '9'
  }

  /** A non-empty run of decimal digits. */
  predicate IsDigits(s: string) {
    |s| > 0 && forall i :: 0 <= i < |s| ==> IsDigit(s[i])
  }

  /** The value of a digit string, most significant digit first; leading
      zeros are allowed and do not change the value. */
  function DigitsValue(s: string): nat
    requires forall i :: 0 <= i < |s| ==> IsDigit(s[i])
    decreases |s|
  {
    if |s| == 0 then 0
    else
      assert IsDigit(s[|s| - 1]);
      DigitsValue(s[..|s| - 1]) * 10 + (s[|s| - 1] as int - '0' as int)
  }

  function DigitChar(d: nat): (c: char)
    requires d < 10
    ensures IsDigit(c) && c as int - '0' as int == d
  {
    ('0' as int + d) as char
  }

  /** `int.ToString()` for a non-negative value: decimal, no leading zeros. */
  function ShowNat(n: nat): (s: string)
    ensures IsDigits(s)
    ensures |s| > 1 ==> s[0] != '0'
    decreases n
  {
    if n < 10 then [DigitChar(n)]
    else
      var hi := ShowNat(n / 10);
      assert (hi + [DigitChar(n % 10)])[0] == hi[0];
      hi + [DigitChar(n % 10)]
  }

  /** Reading back a printed number gives the number. */
  lemma {:induction false} DigitsValueShowNat(n: nat)
    ensures DigitsValue(ShowNat(n)) == n
    decreases n
  {
    if n >= 10 {
      DigitsValueShowNat(n / 10);
      var s := ShowNat(n);
      assert s[..|s| - 1] == ShowNat(n / 10);
    }
  }

  // ---------------------------------------------------------------------------
  // Parsing and printing

  /** A component as the model's `Version.TryParse` accepts it: a digit run
      whose value fits a 32-bit signed integer. */
  predicate IsComponent(s: string) {
    IsDigits(s) && DigitsValue(s) <= Int32Max
  }

  /** `Version.TryParse`: two to four dot-separated components. */
  function ParseVersion(s: string): (r: Option<Version>)
    ensures r.Some? <==>
      (var parts := Split(s, '.');
       2 <= |parts| <= 4 && forall i :: 0 <= i < |parts| ==> IsComponent(parts[i]))
    ensures r.Some? ==>
      (&& |r.value| == |Split(s, '.')|
       && forall i :: 0 <= i < |r.value| ==> r.value[i] == DigitsValue(Split(s, '.')[i]) <= Int32Max)
  {
    var parts := Split(s, '.');
    if 2 <= |parts| <= 4 && forall i :: 0 <= i < |parts| ==> IsComponent(parts[i]) then
      Some(seq(|parts|, i requires 0 <= i < |parts| => DigitsValue(parts[i])))
    else
      None
  }

  /** `Version.ToString()`: the components in decimal, joined by dots. */
  function Format(v: Version): string {
    Join(seq(|v|, i requires 0 <= i < |v| => ShowNat(v[i])), '.')
  }

  /** Every version whose components fit a 32-bit integer survives a print
      and parse round trip. */
  lemma FormatParseRoundTrip(v: Version)
    requires forall i :: 0 <= i < |v| ==> v[i] <= Int32Max
    ensures ParseVersion(Format(v)) == Some(v)
  {
    var parts := seq(|v|, i requires 0 <= i < |v| => ShowNat(v[i]));
    forall i | 0 <= i < |parts|
      ensures '.' !in parts[i] && IsComponent(parts[i]) && DigitsValue(parts[i]) == v[i]
    {
      DigitsValueShowNat(v[i]);
    }
    SplitJoin(parts, '.');
    var r := ParseVersion(Format(v));
    assert r.Some?;
    assert r.value == v;
  }

  /** The converse of the round trip: whatever parses is the dot-join of
      digit runs, one per component, each denoting its component (leading
      zeros allowed). */
  lemma {:induction false} ParsedIsJoinOfDigits(s: string, v: Version)
    requires ParseVersion(s) == Some(v)
    ensures exists ds: seq<string> ::
      && |ds| == |v|
      && (forall i :: 0 <= i < |ds| ==> IsDigits(ds[i]) && DigitsValue(ds[i]) == v[i] <= Int32Max)
      && s == Join(ds, '.')
  {
    var ds := Split(s, '.');
    JoinSplit(s, '.');
    assert forall i :: 0 <= i < |ds| ==> IsDigits(ds[i]) && DigitsValue(ds[i]) == v[i] <= Int32Max;
  }

  /** Two to four digit runs joined by dots parse, whatever their leading
      zeros, to the values of the runs. */
  lemma {:induction false} JoinOfDigitsParses(ds: seq<string>)
    requires 2 <= |ds| <= 4
    requires forall i :: 0 <= i < |ds| ==> IsDigits(ds[i]) && DigitsValue(ds[i]) <= Int32Max
    ensures ParseVersion(Join(ds, '.'))
      == Some(seq(|ds|, i requires 0 <= i < |ds| && IsDigits(ds[i]) => DigitsValue(ds[i])))
  {
    assert forall i :: 0 <= i < |ds| ==> '.' !in ds[i];
    SplitJoin(ds, '.');
    var r := ParseVersion(Join(ds, '.'));
    assert r.Some?;
    assert r.value == seq(|ds|, i requires 0 <= i < |ds| && IsDigits(ds[i]) => DigitsValue(ds[i]));
  }

  // ---------------------------------------------------------------------------
  // Ordering

  /** `Version.CompareTo`: component by component from the major one, where a
      missing build or revision reads as -1; so a version is below every
      longer version it is a prefix of. */
  predicate Less(a: seq<nat>, b: seq<nat>)
    decreases |a|
  {
    if |a| == 0 then |b| > 0
    else if |b| == 0 then false
    else a[0] < b[0] || (a[0] == b[0] && Less(a[1..], b[1..]))
  }

  lemma {:induction false} LessIrreflexive(a: seq<nat>)
    ensures !Less(a, a)
    decreases |a|
  {
    if |a| > 0 {
      LessIrreflexive(a[1..]);
    }
  }

  lemma {:induction false} LessTransitive(a: seq<nat>, b: seq<nat>, c: seq<nat>)
    requires Less(a, b) && Less(b, c)
    ensures Less(a, c)
    decreases |a|
  {
    if |a| > 0 && |b| > 0 && |c| > 0 && a[0] == b[0] == c[0] {
      LessTransitive(a[1..], b[1..], c[1..]);
    }
  }

  /** Any two different versions are ordered one way or the other. */
  lemma {:induction false} LessTotal(a: seq<nat>, b: seq<nat>)
    requires a != b
    ensures Less(a, b) || Less(b, a)
    decreases |a|
  {
    if |a| > 0 && |b| > 0 && a[0] == b[0] {
      assert a == [a[0]] + a[1..] && b == [b[0]] + b[1..];
      LessTotal(a[1..], b[1..]);
    }
  }

  lemma {:induction false} LessAsymmetric(a: seq<nat>, b: seq<nat>)
    requires Less(a, b)
    ensures !Less(b, a)
  {
    if Less(b, a) {
      LessTransitive(a, b, a);
      LessIrreflexive(a);
    }
  }

  /** The four fields `System.Version` compares, -1 for an undefined build or
      revision. */
  function Field(v: Version, i: nat): int
    requires i < 4
  {
    if i < |v| then v[i] else -1
  }

  /** `Version.CompareTo` as written in the class library: major, minor, build,
      revision, each compared numerically. */
  predicate FieldsLess(a: Version, b: Version) {
    || Field(a, 0) < Field(b, 0)
    || (Field(a, 0) == Field(b, 0) && Field(a, 1) < Field(b, 1))
    || (Field(a, 0) == Field(b, 0) && Field(a, 1) == Field(b, 1) && Field(a, 2) < Field(b, 2))
    || (Field(a, 0) == Field(b, 0) && Field(a, 1) == Field(b, 1) && Field(a, 2) == Field(b, 2)
        && Field(a, 3) < Field(b, 3))
  }

  /** `Version.Equals`: all four fields agree. */
  predicate FieldsEqual(a: Version, b: Version) {
    forall i :: 0 <= i < 4 ==> Field(a, i) == Field(b, i)
  }

  /** The component-sequence order is the class library's field order. */
  lemma LessIsFieldOrder(a: Version, b: Version)
    ensures Less(a, b) <==> FieldsLess(a, b)
  {
    assert Less(a[2..], b[2..]) <==>
      (Field(a, 2) < Field(b, 2) || (Field(a, 2) == Field(b, 2) && Field(a, 3) < Field(b, 3))) by {
      if |a| > 3 { assert a[2..][1..] == a[3..]; }
      if |b| > 3 { assert b[2..][1..] == b[3..]; }
    }
    assert a[1..][1..] == a[2..] && b[1..][1..] == b[2..];
  }

  /** Two versions are the same dictionary key exactly when their component
      sequences are equal, so "10.0" and "10.0.0" are different keys. */
  lemma EqualIsFieldEquality(a: Version, b: Version)
    ensures a == b <==> FieldsEqual(a, b)
  {
    if FieldsEqual(a, b) {
      assert Field(a, 2) == Field(b, 2) && Field(a, 3) == Field(b, 3);
      assert |a| == |b|;
      forall i | 0 <= i < |a| ensures a[i] == b[i] {
        assert Field(a, i) == Field(b, i);
      }
    }
  }
}
