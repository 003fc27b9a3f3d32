/** Thumbprint syntax check of Signing/X509CertificateEx.cs:14-17: the
    pattern `^[0-9a-f]{40}$` matched case-insensitively. */
module Thumbprints {

  /** The number of hexadecimal digits in a SHA-1 thumbprint. */
  const ThumbprintLength: nat := 40

  predicate IsHexDigit(c: char) {
    ('0' <= c <= '9') || ('a' <= c <= 'f') || ('A' <= c <= 'F')
  }

  /** The character class `[0-9a-f]` as written. */
  predicate InClass(c: char) {
    ('0' <= c <= '9') || ('a' <= c <= 'f')
  }

  function ToLowerAscii(c: char): char {
    if 'A' <= c <= 'Z' then (c as int + 32) as char else c
  }

  /** The class under case-insensitive matching: a character matches when
      it, or its lower-case form, is in the class. */
  predicate ClassMatch(c: char) {
    InClass(c) || InClass(ToLowerAscii(c))
  }

  /** The anchored prefix `^[0-9a-f]{n}`: the first `n` characters all match
      the class. `^` without multi-line mode only matches at position 0, so
      no other starting position is tried. */
  predicate LeadingRun(s: string, n: nat)
    decreases n
  {
    n == 0 || (|s| > 0 && ClassMatch(s[0]) && LeadingRun(s[1..], n - 1))
  }

  /** `$` without multi-line mode: the end of the input, or the position
      just before a final line feed. */
  predicate DollarAt(s: string, p: nat) {
    p == |s| || (p == |s| - 1 && s[p] == '\n')
  }

  lemma {:induction false} LeadingRunIsHexPrefix(s: string, n: nat)
    ensures LeadingRun(s, n) <==> n <= |s| && forall i :: 0 <= i < n ==> IsHexDigit(s[i])
    decreases n
  {
    if n > 0 && |s| > 0 {
      LeadingRunIsHexPrefix(s[1..], n - 1);
      assert forall i :: 1 <= i < n && i < |s| ==> s[i] == s[1..][i - 1];
    }
  }

  /** The regular expression of the source exactly as the .NET engine reads
      it, `$` included. */
  function IsThumbprintAsWritten(s: string): (b: bool)
    ensures b ==> |s| == ThumbprintLength || |s| == ThumbprintLength + 1
  {
    LeadingRun(s, ThumbprintLength) && DollarAt(s, ThumbprintLength)
  }

  /** The evidently intended check, `^[0-9a-f]{40}\z`: exactly forty
      hexadecimal digits in either case. */
  function IsThumbprintIntended(s: string): (b: bool)
    ensures b <==> |s| == ThumbprintLength && forall i :: 0 <= i < |s| ==> IsHexDigit(s[i])
  {
    LeadingRunIsHexPrefix(s, ThumbprintLength);
    LeadingRun(s, ThumbprintLength) && |s| == ThumbprintLength
  }

  /** The pattern as written admits exactly the thumbprints and the
      thumbprints followed by one line feed. */
  lemma IsThumbprintAsWrittenAdmits(s: string)
    ensures IsThumbprintAsWritten(s) <==>
      IsThumbprintIntended(s) || (|s| == ThumbprintLength + 1 && s[ThumbprintLength] == '\n'
                                  && IsThumbprintIntended(s[..ThumbprintLength]))
  {
    LeadingRunIsHexPrefix(s, ThumbprintLength);
    if |s| == ThumbprintLength + 1 {
      var head := s[..ThumbprintLength];
      assert forall i :: 0 <= i < ThumbprintLength ==> head[i] == s[i];
      assert IsThumbprintIntended(head) <==> LeadingRun(s, ThumbprintLength);
    }
  }

  /** Forty zeros and a line feed: 41 characters, accepted by the pattern as
      written, rejected by the intended check. */
  lemma TrailingLineFeedAccepted()
    ensures var s := seq(ThumbprintLength, _ => '0') + "\n";
      |s| == 41 && IsThumbprintAsWritten(s) && !IsThumbprintIntended(s)
  {
    var s := seq(ThumbprintLength, _ => '0') + "\n";
    LeadingRunIsHexPrefix(s, ThumbprintLength);
  }
}
