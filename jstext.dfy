/**
 * The few JavaScript string primitives the puzzle engine relies on:
 * `String.prototype.trim`, the `\s` character class, and the case
 * mappings `toUpperCase` / `toLowerCase` (on ASCII letters only).
 */
module JsText {
  import opened Wrappers

  /** ECMAScript WhiteSpace and LineTerminator code points: what `trim` strips and `\s` matches. */
  predicate IsWhitespace(c: char)
  {
    || c == '\t' || c == '\n' || c == '\U{B}' || c == '\U{C}' || c == '\r' || c == ' '
    || c == '\U{A0}' || c == '\U{1680}' || ('\U{2000}' <= c <= '\U{200A}')
    || c == '\U{2028}' || c == '\U{2029}' || c == '\U{202F}' || c == '\U{205F}'
    || c == '\U{3000}' || c == '\U{FEFF}'
  }

  predicate AllWhitespace(s: string)
  {
    forall i :: 0 <= i < |s| ==> IsWhitespace(s[i])
  }

  predicate NoWhitespace(s: string)
  {
    forall i :: 0 <= i < |s| ==> !IsWhitespace(s[i])
  }

  /** Length of the longest all-whitespace prefix of `s`. */
  function LeadingWhitespace(s: string): (n: nat)
    ensures n <= |s| && AllWhitespace(s[..n])
    ensures n < |s| ==> !IsWhitespace(s[n])
  {
    if |s| > 0 && IsWhitespace(s[0]) then
      var n := 1 + LeadingWhitespace(s[1..]);
      assert s[..n] == [s[0]] + s[1..][..n - 1];
      n
    else 0
  }

  /** Length of the longest all-whitespace suffix of `s`. */
  function TrailingWhitespace(s: string): (n: nat)
    ensures n <= |s| && AllWhitespace(s[|s| - n..])
    ensures n < |s| ==> !IsWhitespace(s[|s| - n - 1])
  {
    if |s| > 0 && IsWhitespace(s[|s| - 1]) then
      var rest := s[..|s| - 1];
      var n := 1 + TrailingWhitespace(rest);
      assert s[|s| - n..] == rest[|rest| - (n - 1)..] + [s[|s| - 1]];
      n
    else 0
  }

  /**
   * `s.trim()`: the slice of `s` left after removing whitespace at both ends.
   * The result is the unique slice with whitespace-only margins whose own ends
   * are not whitespace.
   */
  function Trim(s: string): (r: string)
    ensures LeadingWhitespace(s) + |r| <= |s|
    ensures r == [] <==> AllWhitespace(s)
    ensures r != [] ==> !IsWhitespace(r[0]) && !IsWhitespace(r[|r| - 1])
    ensures r == s[LeadingWhitespace(s)..LeadingWhitespace(s) + |r|]
    ensures AllWhitespace(s[LeadingWhitespace(s) + |r|..])
  {
    var lead := LeadingWhitespace(s);
    if lead == |s| then
      assert s == s[..lead];
      []
    else
      var trail := TrailingWhitespace(s);
      assert !IsWhitespace(s[lead]);
      assert lead < |s| - trail;
      s[lead..|s| - trail]
  }

  /** Whitespace followed by a part that does not start with whitespace: the leading run is exactly the whitespace. */
  lemma {:induction false} LeadingRun(ws: string, b: string)
    requires AllWhitespace(ws) && (b == [] || !IsWhitespace(b[0]))
    ensures LeadingWhitespace(ws + b) == |ws|
    decreases |ws|
  {
    if ws != [] {
      assert (ws + b)[1..] == ws[1..] + b;
      LeadingRun(ws[1..], b);
    }
  }

  /** Trimming whitespace put in front of a string whose ends are not whitespace gives the string back. */
  lemma TrimAfterWhitespace(ws: string, s: string)
    requires AllWhitespace(ws) && |s| > 0 && !IsWhitespace(s[0]) && !IsWhitespace(s[|s| - 1])
    ensures Trim(ws + s) == s
  {
    LeadingRun(ws, s);
    var t := ws + s;
    var r := Trim(t);
    assert r != [] by {
      assert !IsWhitespace(t[|ws|]);
    }
    assert r == t[|ws|..];
    assert t[|ws|..] == s;
  }

  /** ASCII upper-casing of one character; every other character is kept. */
  function UpperChar(c: char): char
  {
    if 'a' <= c <= 'z' then (c as int - 32) as char else c
  }

  /** ASCII lower-casing of one character; every other character is kept. */
  function LowerChar(c: char): char
  {
    if 'A' <= c <= 'Z' then (c as int + 32) as char else c
  }

  /** `s.toUpperCase()`, restricted to the ASCII letters. */
  function ToUpper(s: string): (r: string)
    ensures |r| == |s|
    ensures forall i :: 0 <= i < |s| ==> r[i] == UpperChar(s[i])
  {
    seq(|s|, i requires 0 <= i < |s| => UpperChar(s[i]))
  }

  /** `s.toLowerCase()`, restricted to the ASCII letters. */
  function ToLower(s: string): (r: string)
    ensures |r| == |s|
    ensures forall i :: 0 <= i < |s| ==> r[i] == LowerChar(s[i])
  {
    seq(|s|, i requires 0 <= i < |s| => LowerChar(s[i]))
  }

  predicate IsUpperLetter(c: char)
  {
    'A' <= c <= 'Z'
  }

  /** `/[a-zA-Z]/.test(c)` for a one-character string. */
  predicate IsAsciiLetter(c: char)
  {
    'A' <= c <= 'Z' || 'a' <= c <= 'z'
  }

  /**
   * `s.charCodeAt(0)`: the first UTF-16 code unit, so a character outside the
   * Basic Multilingual Plane yields its high surrogate. `None` stands for the
   * NaN that the empty string gives.
   */
  function FirstCodeUnit(s: string): (r: Option<int>)
    ensures r.Some? <==> |s| > 0
    ensures r.Some? ==> 0 <= r.value < 0x1_0000
    ensures r.Some? && (s[0] as int) < 0x1_0000 ==> r.value == s[0] as int
  {
    if |s| == 0 then None
    else if (s[0] as int) < 0x1_0000 then Some(s[0] as int)
    else Some(0xD800 + (s[0] as int - 0x1_0000) / 0x400)
  }
}
