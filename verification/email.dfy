/** The e-mail shape accepted by the login form: the regular expression
    `^[^\s@]+@[^\s@]+\.[^\s@]+$`, written out by hand. */
module Email {
  import opened Text

  /** A character of the class `[^\s@]`. */
  predicate IsPlain(c: char) {
    !IsWhite(c) && c != '@'
  }

  /** A run of `[^\s@]` characters (possibly empty). */
  predicate AllPlain(s: string) {
    forall k :: 0 <= k < |s| ==> IsPlain(s[k])
  }

  /** Position of the first `c` in `s`, or `|s|` when there is none. */
  function IndexOf(s: string, c: char): (i: nat)
    ensures i <= |s|
    ensures i < |s| ==> s[i] == c
    ensures forall k :: 0 <= k < i ==> s[k] != c
  {
    if |s| == 0 then 0
    else if s[0] == c then 0
    else 1 + IndexOf(s[1..], c)
  }

  /** A '.' with at least one character on each side of it. */
  predicate HasInnerDot(d: string) {
    exists j :: 0 < j < |d| - 1 && d[j] == '.'
  }

  /** The check the login form runs: split at the first '@'; the part before
      it must be a non-empty plain run, the part after it a plain run (so no
      second '@') holding a '.' that is neither its first nor its last
      character. */
  predicate IsValidEmail(s: string) {
    var i := IndexOf(s, '@');
    && 0 < i < |s|
    && AllPlain(s[..i])
    && AllPlain(s[i + 1..])
    && HasInnerDot(s[i + 1..])
  }

  /** `s` is `local@left.right` with three non-empty plain runs: the
      regular expression read off directly. */
  ghost predicate SplitsAsEmail(s: string, local: string, left: string, right: string) {
    && s == local + "@" + left + "." + right
    && |local| > 0 && |left| > 0 && |right| > 0
    && AllPlain(local) && AllPlain(left) && AllPlain(right)
  }

  ghost predicate MatchesEmailRegex(s: string) {
    exists local, left, right :: SplitsAsEmail(s, local, left, right)
  }

  /** The computed check accepts exactly the strings the regular expression
      matches. */
  lemma ValidEmailIffRegex(s: string)
    ensures IsValidEmail(s) <==> MatchesEmailRegex(s)
  {
    if IsValidEmail(s) {
      var i := IndexOf(s, '@');
      var d := s[i + 1..];
      var j :| 0 < j < |d| - 1 && d[j] == '.';
      var local, left, right := s[..i], d[..j], d[j + 1..];
      assert AllPlain(left) by {
        forall k | 0 <= k < |left| ensures IsPlain(left[k]) { assert left[k] == d[k]; }
      }
      assert AllPlain(right) by {
        forall k | 0 <= k < |right| ensures IsPlain(right[k]) { assert right[k] == d[j + 1 + k]; }
      }
      assert d == left + "." + right;
      assert s == local + "@" + d;
      assert SplitsAsEmail(s, local, left, right);
    }
    if MatchesEmailRegex(s) {
      var local, left, right :| SplitsAsEmail(s, local, left, right);
      RegexSplitIsValid(s, local, left, right);
    }
  }

  lemma RegexSplitIsValid(s: string, local: string, left: string, right: string)
    requires SplitsAsEmail(s, local, left, right)
    ensures IsValidEmail(s)
  {
    var n := |local|;
    var d := left + "." + right;
    assert s == local + "@" + d;
    assert s[n] == '@';
    forall k | 0 <= k < n ensures s[k] != '@' {
      assert s[k] == local[k];
    }
    assert IndexOf(s, '@') == n;
    assert s[..n] == local;
    assert s[n + 1..] == d;
    forall k | 0 <= k < |d| ensures IsPlain(d[k]) {
      if k < |left| {
        assert d[k] == left[k];
      } else if k > |left| {
        assert d[k] == right[k - |left| - 1];
      }
    }
    assert d[|left|] == '.';
  }

  /** A string without '@' is never accepted. */
  lemma NoAtNoEmail(s: string)
    requires forall k :: 0 <= k < |s| ==> s[k] != '@'
    ensures !IsValidEmail(s)
  {
    assert IndexOf(s, '@') == |s|;
  }
}
