/** Character classes the signing command relies on (Signing/Commands/SignCommand.cs). */
module Chars {
  import opened Opt

  /** `Char.IsWhiteSpace`: the Latin-1 controls TAB, LF, VT, FF, CR and NEL,
      plus every code point of the Unicode categories Zs (space separator),
      Zl (line separator) and Zp (paragraph separator). */
  predicate IsWhiteSpace(c: char) {
    var n := c as int;
    || (0x09 <= n <= 0x0D)
    || n == 0x20
    || n == 0x85
    || n == 0xA0
    || n == 0x1680
    || (0x2000 <= n <= 0x200A)
    || n == 0x2028
    || n == 0x2029
    || n == 0x202F
    || n == 0x205F
    || n == 0x3000
  }

  /** The scan `string.IsNullOrWhiteSpace` performs: walks the characters and
      stops at the first one that is not white space. */
  function AllWhiteSpace(s: string): (b: bool)
    ensures b <==> forall i :: 0 <= i < |s| ==> IsWhiteSpace(s[i])
  {
    if |s| == 0 then true
    else if !IsWhiteSpace(s[0]) then false
    else
      var rest := AllWhiteSpace(s[1..]);
      assert forall i :: 1 <= i < |s| ==> s[i] == s[1..][i - 1];
      rest
  }

  /** `string.IsNullOrWhiteSpace`, with null as `None`. */
  function IsNullOrWhiteSpace(s: Option<string>): (b: bool)
    ensures !b <==> s.Some? && exists i :: 0 <= i < |s.value| && !IsWhiteSpace(s.value[i])
  {
    match s
    case None => true
    case Some(v) => AllWhiteSpace(v)
  }
}
