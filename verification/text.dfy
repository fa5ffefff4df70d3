/** The three .NET string primitives the recognition and speech code leans on:
    `char.IsWhiteSpace` (through `string.IsNullOrWhiteSpace` and `Trim`),
    `string.Trim()` and `string.Length`, which counts UTF-16 code units.
    Strings are never null in the modelled code, so the null half of
    `IsNullOrWhiteSpace` has no counterpart here. */
module Text {

  /** `char.IsWhiteSpace`: the Unicode space separators, the line and
      paragraph separators, the C0 controls TAB..CR, and NEXT LINE. */
  predicate IsWhiteSpace(c: char) {
    || ('\t' <= c <= '\r')
    || c == ' '
    || c == '\U{0085}'
    || c == '\U{00A0}'
    || c == '\U{1680}'
    || ('\U{2000}' <= c <= '\U{200A}')
    || c == '\U{2028}'
    || c == '\U{2029}'
    || c == '\U{202F}'
    || c == '\U{205F}'
    || c == '\U{3000}'
  }

  /** Every white-space character lies in the Basic Multilingual Plane, and
      among ASCII characters exactly the space and TAB..CR are white space. */
  lemma WhiteSpaceShape(c: char)
    ensures IsWhiteSpace(c) ==> c as int <= 0x3000
    ensures c as int < 0x80 ==> (IsWhiteSpace(c) <==> c == ' ' || '\t' <= c <= '\r')
  {
  }

  /** `string.IsNullOrWhiteSpace` on a non-null string: every character is
      white space (so the empty string qualifies). */
  predicate IsNullOrWhiteSpace(s: string) {
    forall k :: 0 <= k < |s| ==> IsWhiteSpace(s[k])
  }

  /** The first index at or after `i` that holds no white space, or `|s|`. */
  function SkipLeading(s: string, i: nat): (a: nat)
    requires i <= |s|
    ensures i <= a <= |s|
    ensures forall k :: i <= k < a ==> IsWhiteSpace(s[k])
    ensures a < |s| ==> !IsWhiteSpace(s[a])
    decreases |s| - i
  {
    if i < |s| && IsWhiteSpace(s[i]) then SkipLeading(s, i + 1) else i
  }

  /** The end of `s[..j]` once its trailing white space is dropped. */
  function SkipTrailing(s: string, j: nat): (b: nat)
    requires j <= |s|
    ensures b <= j
    ensures forall k :: b <= k < j ==> IsWhiteSpace(s[k])
    ensures b > 0 ==> !IsWhiteSpace(s[b - 1])
  {
    if j > 0 && IsWhiteSpace(s[j - 1]) then SkipTrailing(s, j - 1) else j
  }

  /** Number of leading white-space characters `Trim` drops. */
  function Lead(s: string): (n: nat)
    ensures n <= |s|
  {
    SkipLeading(s, 0)
  }

  /** `string.Trim()`: the longest slice of `s` that neither starts nor ends
      with white space; everything cut away on either side is white space. */
  function Trim(s: string): (r: string)
    ensures Lead(s) + |r| <= |s| && r == s[Lead(s)..Lead(s) + |r|]
    ensures forall k :: 0 <= k < Lead(s) ==> IsWhiteSpace(s[k])
    ensures forall k :: Lead(s) + |r| <= k < |s| ==> IsWhiteSpace(s[k])
    ensures r != [] ==> !IsWhiteSpace(r[0]) && !IsWhiteSpace(r[|r| - 1])
    ensures r == [] <==> IsNullOrWhiteSpace(s)
  {
    var a := SkipLeading(s, 0);
    var b := SkipTrailing(s, |s|);
    assert a < |s| ==> a < b;
    if b <= a then [] else s[a..b]
  }

  /** A string is blank exactly when skipping its leading white space
      reaches its end, that is, when it trims to nothing. */
  lemma BlankIffLeadReachesEnd(s: string)
    ensures IsNullOrWhiteSpace(s) <==> Lead(s) == |s|
    ensures IsNullOrWhiteSpace(s) <==> Utf16Length(Trim(s)) == 0
  {
  }

  /** A string that is already trimmed: no white space at either end. */
  predicate IsTrimmed(s: string) {
    s == [] || (!IsWhiteSpace(s[0]) && !IsWhiteSpace(s[|s| - 1]))
  }

  /** Trimming a trimmed string changes nothing, so `Trim` is idempotent. */
  lemma TrimFixesTrimmed(s: string)
    ensures IsTrimmed(s) <==> Trim(s) == s
  {
  }

  lemma TrimIdempotent(s: string)
    ensures Trim(Trim(s)) == Trim(s)
  {
    TrimFixesTrimmed(Trim(s));
  }

  /** Code units `c` occupies in UTF-16: two for a character outside the
      Basic Multilingual Plane, one otherwise. */
  function Utf16Units(c: char): nat {
    if c as int > 0xFFFF then 2 else 1
  }

  /** `string.Length`: the number of UTF-16 code units of `s`. */
  function Utf16Length(s: string): (n: nat)
    ensures |s| <= n <= 2 * |s|
    ensures n == |s| <==> forall k :: 0 <= k < |s| ==> s[k] as int <= 0xFFFF
  {
    if s == [] then 0 else Utf16Units(s[0]) + Utf16Length(s[1..])
  }

  /** `s.StartsWith(prefix)` compared ordinally. */
  predicate StartsWith(s: string, prefix: string) {
    |prefix| <= |s| && s[..|prefix|] == prefix
  }
}
