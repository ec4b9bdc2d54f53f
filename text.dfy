/**
  String trimming as JavaScript's `String.prototype.trim` performs it: strip
  every leading and trailing white-space or line-terminator code point, as
  ECMA-262 defines them (section 22.1.3.32 for `trim`, sections 12.2 and 12.3
  for the two character classes).
 */
module Text {

  /** WhiteSpace (TAB, VT, FF, SP, NBSP, ZWNBSP and the Unicode class Zs) or
      LineTerminator (LF, CR, LS, PS). */
  predicate IsWhiteSpace(c: char) {
    var n := c as int;
    (0x09 <= n <= 0x0D) || n == 0x20 || n == 0xA0 || n == 0x1680 ||
    (0x2000 <= n <= 0x200A) || n == 0x2028 || n == 0x2029 || n == 0x202F ||
    n == 0x205F || n == 0x3000 || n == 0xFEFF
  }

  /** Space, tab, the line terminators, no-break space and the byte-order
      mark are white space; the zero-width space U+200B and the Mongolian
      vowel separator U+180E are not (the latter left class Zs in Unicode
      6.3), and neither are ordinary characters. */
  lemma WhiteSpaceCases()
    ensures IsWhiteSpace(' ') && IsWhiteSpace('\t') && IsWhiteSpace('\n') && IsWhiteSpace('\r')
    ensures IsWhiteSpace('\U{A0}') && IsWhiteSpace('\U{2028}') && IsWhiteSpace('\U{FEFF}')
    ensures !IsWhiteSpace('\U{200B}') && !IsWhiteSpace('\U{180E}') && !IsWhiteSpace('a') && !IsWhiteSpace('&')
  {
  }

  predicate AllWhiteSpace(s: string) {
    forall k :: 0 <= k < |s| ==> IsWhiteSpace(s[k])
  }

  /** The suffix of `s` that starts at its first non-white character. */
  function TrimStart(s: string): (r: string)
    ensures |r| <= |s| && r == s[|s| - |r|..]
    ensures AllWhiteSpace(s[..|s| - |r|])
    ensures r == [] || !IsWhiteSpace(r[0])
  {
    if s != [] && IsWhiteSpace(s[0]) then
      var r := TrimStart(s[1..]);
      var n := |s| - |r|;
      assert forall k :: 1 <= k < n ==> s[..n][k] == s[1..][..n - 1][k - 1];
      r
    else s
  }

  /** The prefix of `s` that ends at its last non-white character. */
  function TrimEnd(s: string): (r: string)
    ensures |r| <= |s| && r == s[..|r|]
    ensures AllWhiteSpace(s[|r|..])
    ensures r == [] || !IsWhiteSpace(r[|r| - 1])
  {
    if s != [] && IsWhiteSpace(s[|s| - 1]) then
      var r := TrimEnd(s[..|s| - 1]);
      assert s[|r|..] == s[..|s| - 1][|r|..] + [s[|s| - 1]];
      r
    else s
  }

  /** `s.trim()`. */
  function Trim(s: string): (r: string)
    ensures |r| <= |s|
    ensures r == [] || (!IsWhiteSpace(r[0]) && !IsWhiteSpace(r[|r| - 1]))
  {
    TrimEnd(TrimStart(s))
  }

  /** A trimmed, non-empty text: what the task list stores. */
  predicate IsTaskText(s: string) {
    s != [] && !IsWhiteSpace(s[0]) && !IsWhiteSpace(s[|s| - 1])
  }

  /** The trimmed string is the piece `s[i..i + |Trim(s)|]` of the input,
      and only white space was cut away on either side of it. */
  lemma TrimIsInfix(s: string) returns (i: nat)
    ensures i + |Trim(s)| <= |s| && Trim(s) == s[i..i + |Trim(s)|]
    ensures AllWhiteSpace(s[..i]) && AllWhiteSpace(s[i + |Trim(s)|..])
  {
    var t := TrimStart(s);
    i := |s| - |t|;
    var r := TrimEnd(t);
    assert Trim(s) == r;
    SliceOfSuffix(s, i, |r|);
  }

  /** A prefix of the suffix `s[i..]` is the infix starting at `i`, and what
      follows it is what follows it in `s`. */
  lemma SliceOfSuffix(s: string, i: nat, n: nat)
    requires i + n <= |s|
    ensures s[i..][..n] == s[i..i + n] && s[i..][n..] == s[i + n..]
  {
  }

  /** Trimming yields the empty string exactly when the input is all white
      space (the `if (!trimmed) return` tests). */
  lemma TrimEmptyIff(s: string)
    ensures Trim(s) == [] <==> AllWhiteSpace(s)
  {
    var t := TrimStart(s);
    if Trim(s) == [] {
      assert t[0..] == t;
      assert s[..|s|] == s;
    }
  }

  /** Trimming twice is trimming once, and the task texts are exactly the
      non-empty strings that trimming leaves alone. */
  lemma TrimIdempotent(s: string)
    ensures Trim(Trim(s)) == Trim(s)
    ensures Trim(s) != [] ==> IsTaskText(Trim(s))
    ensures IsTaskText(s) <==> s != [] && Trim(s) == s
  {
    var r := Trim(s);
    assert TrimStart(r) == r;
    assert TrimEnd(r) == r;
    if IsTaskText(s) {
      assert TrimStart(s) == s;
      assert TrimEnd(s) == s;
    }
  }
}
