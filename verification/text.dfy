/** The few string primitives of JavaScript the portal relies on:
    the white-space class, `trim`, `toLowerCase` and `includes`. */
module Text {

  /** JavaScript's WhiteSpace and LineTerminator code points: the class `\s`
      of a regular expression, and what `String.prototype.trim` strips. */
  predicate IsWhite(c: char) {
    var n := c as int;
    || n == 0x09 || n == 0x0A || n == 0x0B || n == 0x0C || n == 0x0D
    || n == 0x20 || n == 0xA0 || n == 0x1680
    || (0x2000 <= n <= 0x200A)
    || n == 0x2028 || n == 0x2029 || n == 0x202F || n == 0x205F
    || n == 0x3000 || n == 0xFEFF
  }

  predicate AllWhite(s: string) {
    forall k :: 0 <= k < |s| ==> IsWhite(s[k])
  }

  /** `s` neither starts nor ends with white space. */
  predicate IsTrimmed(s: string) {
    s == [] || (!IsWhite(s[0]) && !IsWhite(s[|s| - 1]))
  }

  /** Drops the leading white space. */
  function TrimStart(s: string): string {
    if |s| > 0 && IsWhite(s[0]) then TrimStart(s[1..]) else s
  }

  /** Drops the trailing white space. */
  function TrimEnd(s: string): string {
    if |s| > 0 && IsWhite(s[|s| - 1]) then TrimEnd(s[..|s| - 1]) else s
  }

  /** `TrimStart` leaves the suffix of `s` that starts at its first
      non-white character. */
  lemma {:induction false} TrimStartShape(s: string)
    ensures |TrimStart(s)| <= |s| && TrimStart(s) == s[|s| - |TrimStart(s)|..]
    ensures AllWhite(s[..|s| - |TrimStart(s)|])
    ensures TrimStart(s) == [] || !IsWhite(TrimStart(s)[0])
  {
    if |s| > 0 && IsWhite(s[0]) {
      var r := TrimStart(s[1..]);
      TrimStartShape(s[1..]);
      assert s[..|s| - |r|] == [s[0]] + s[1..][..|s| - 1 - |r|];
    }
  }

  /** `TrimEnd` leaves the prefix of `s` that ends at its last non-white
      character. */
  lemma {:induction false} TrimEndShape(s: string)
    ensures |TrimEnd(s)| <= |s| && TrimEnd(s) == s[..|TrimEnd(s)|]
    ensures AllWhite(s[|TrimEnd(s)|..])
    ensures TrimEnd(s) == [] || !IsWhite(TrimEnd(s)[|TrimEnd(s)| - 1])
  {
    if |s| > 0 && IsWhite(s[|s| - 1]) {
      var r := TrimEnd(s[..|s| - 1]);
      TrimEndShape(s[..|s| - 1]);
      assert s[|r|..] == s[..|s| - 1][|r|..] + [s[|s| - 1]];
    }
  }

  /** `r` is the infix of `s` at offset `i` with only white space around it. */
  predicate WhiteAround(s: string, r: string, i: int) {
    0 <= i <= |s| - |r| && s[i..i + |r|] == r && AllWhite(s[..i]) && AllWhite(s[i + |r|..])
  }

  /** `String.prototype.trim`: white space removed from both ends. */
  function Trim(s: string): string {
    TrimEnd(TrimStart(s))
  }

  /** What trimming leaves: an infix of `s` with only white space around it,
      neither starting nor ending with white space, and empty exactly when
      `s` is all white space. */
  lemma TrimShape(s: string)
    ensures IsTrimmed(Trim(s))
    ensures exists i :: WhiteAround(s, Trim(s), i)
    ensures Trim(s) == [] <==> AllWhite(s)
  {
    var t := TrimStart(s);
    TrimStartShape(s);
    TrimEndShape(t);
    TrimParts(s, t, TrimEnd(t));
  }

  lemma TrimParts(s: string, t: string, r: string)
    requires |t| <= |s| && t == s[|s| - |t|..] && AllWhite(s[..|s| - |t|])
    requires t == [] || !IsWhite(t[0])
    requires |r| <= |t| && r == t[..|r|] && AllWhite(t[|r|..])
    ensures WhiteAround(s, r, |s| - |t|)
    ensures r == [] <==> AllWhite(s)
  {
    var i := |s| - |t|;
    assert s[i..i + |r|] == r;
    assert s[i + |r|..] == t[|r|..];
    if r == [] {
      assert t == [];
      assert s[..i] == s;
    } else {
      assert r[0] == t[0];
      assert !IsWhite(s[i]);
    }
  }

  /** An upper-case ASCII letter. */
  predicate IsUpper(c: char) {
    'A' <= c <= 'Z'
  }

  function LowerChar(c: char): (d: char)
    ensures !IsUpper(d)
    ensures IsWhite(d) <==> IsWhite(c)
  {
    if IsUpper(c) then (c as int + 32) as char else c
  }

  /** `String.prototype.toLowerCase`, restricted to the ASCII letters. */
  function ToLower(s: string): string {
    seq(|s|, k requires 0 <= k < |s| => LowerChar(s[k]))
  }

  /** Lower-casing keeps the length, turns each upper-case letter into its
      lower-case partner, keeps every other character, and leaves no
      upper-case letter. */
  lemma ToLowerShape(s: string)
    ensures |ToLower(s)| == |s|
    ensures forall k :: 0 <= k < |s| ==> !IsUpper(ToLower(s)[k])
    ensures forall k :: 0 <= k < |s| && !IsUpper(s[k]) ==> ToLower(s)[k] == s[k]
    ensures forall k :: 0 <= k < |s| && IsUpper(s[k]) ==> ToLower(s)[k] as int == s[k] as int + 32
  {
  }

  /** Lower-casing twice is lower-casing once, and it keeps a trimmed string
      trimmed. */
  lemma ToLowerStable(s: string)
    ensures ToLower(ToLower(s)) == ToLower(s)
    ensures IsTrimmed(s) ==> IsTrimmed(ToLower(s))
    ensures AllWhite(ToLower(s)) <==> AllWhite(s)
  {
    var r := ToLower(s);
    assert forall k :: 0 <= k < |s| ==> r[k] == LowerChar(s[k]);
  }

  /** A trimmed string is its own trim. */
  lemma TrimTrimmed(s: string)
    requires IsTrimmed(s)
    ensures Trim(s) == s
  {
    assert TrimStart(s) == s;
    assert TrimEnd(s) == s;
  }

  predicate StartsWith(s: string, p: string) {
    |p| <= |s| && s[..|p|] == p
  }

  /** A string starts with the first character of any non-empty prefix it has. */
  lemma StartsWithHead(s: string, p: string)
    requires |p| > 0
    ensures StartsWith(s, p) ==> |s| > 0 && s[0] == p[0]
  {
    if StartsWith(s, p) {
      assert s[..|p|][0] == s[0];
    }
  }

  /** `p` occurs in `s` starting at position `i`. */
  predicate OccursAt(s: string, p: string, i: int) {
    0 <= i <= |s| - |p| && s[i..i + |p|] == p
  }

  /** `String.prototype.includes`: `p` occurs somewhere in `s`. */
  function Contains(s: string, p: string): (b: bool)
    ensures b <==> exists i :: OccursAt(s, p, i)
  {
    if StartsWith(s, p) then
      assert OccursAt(s, p, 0);
      true
    else if |s| == 0 then
      assert forall i :: !OccursAt(s, p, i);
      false
    else
      var b := Contains(s[1..], p);
      ContainsStep(s, p);
      b
  }

  /** An occurrence in `s` not at its start is an occurrence in its tail. */
  lemma ContainsStep(s: string, p: string)
    requires |s| > 0 && !StartsWith(s, p)
    ensures (exists i :: OccursAt(s, p, i)) <==> (exists j :: OccursAt(s[1..], p, j))
  {
    if i :| OccursAt(s, p, i) {
      assert i != 0;
      assert s[1..][i - 1..i - 1 + |p|] == s[i..i + |p|];
      assert OccursAt(s[1..], p, i - 1);
    }
    if j :| OccursAt(s[1..], p, j) {
      assert s[j + 1..j + 1 + |p|] == s[1..][j..j + |p|];
      assert OccursAt(s, p, j + 1);
    }
  }
}
