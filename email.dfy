/**
 * The booking form's e-mail shape check, `validateEmail`: the fixed pattern
 * `^[^\s@]+@[^\s@]+\.[^\s@]+$`. It is a simplified shape check, not the
 * address syntax of RFC 5322.
 */
module Email {
  import opened Wrappers
  import opened Text

  /** A character of the class `[^\s@]`. */
  predicate PatternChar(c: char) {
    !IsWhitespace(c) && c != '@'
  }

  predicate AllPatternChars(s: string) {
    forall k | 0 <= k < |s| :: PatternChar(s[k])
  }

  /**
   * The pattern read as written: a non-empty run of pattern characters, an `@`,
   * a non-empty run, a `.`, and a non-empty run that ends the string.
   */
  ghost predicate MatchesPattern(s: string) {
    exists at, dot | 0 < at && at + 1 < dot < |s| - 1 ::
      && AllPatternChars(s[..at]) && s[at] == '@'
      && AllPatternChars(s[at + 1..dot]) && s[dot] == '.'
      && AllPatternChars(s[dot + 1..])
  }

  /** The position of the first `c` in `s`, if there is one. */
  function IndexOf(s: string, c: char): (r: Option<nat>)
    ensures r.Some? ==> r.value < |s| && s[r.value] == c && forall k | 0 <= k < r.value :: s[k] != c
    ensures r.None? ==> forall k | 0 <= k < |s| :: s[k] != c
  {
    if s == [] then None
    else if s[0] == c then Some(0)
    else match IndexOf(s[1..], c)
      case None => None
      case Some(i) => Some(i + 1)
  }

  predicate NoWhitespace(s: string) {
    forall k | 0 <= k < |s| :: !IsWhitespace(s[k])
  }

  /** A `.` that is neither the first nor the last character of `d`. */
  predicate HasInnerDot(d: string) {
    exists k | 0 < k < |d| - 1 :: d[k] == '.'
  }

  /**
   * What follows the first `@`, at `at`: something before it, no other `@`
   * after it, and after it a part with a `.` that is neither its first nor
   * its last character.
   */
  predicate OneAtThenDot(s: string, at: nat)
    requires at < |s|
  {
    && at > 0
    && (forall k | at < k < |s| :: s[k] != '@')
    && HasInnerDot(s[at + 1..])
  }

  /**
   * `validateEmail`, written as a scan for the first `@`: it accepts exactly
   * the strings that match the pattern.
   */
  function ValidateEmail(s: string): (ok: bool)
    ensures ok <==> MatchesPattern(s)
  {
    var first := IndexOf(s, '@');
    CheckIsPattern(s);
    NoWhitespace(s) && first.Some? && OneAtThenDot(s, first.value)
  }

  /** A `c` with no `c` before it is the first one. */
  lemma {:induction false} IndexOfFirst(s: string, c: char, at: nat)
    requires at < |s| && s[at] == c
    requires forall k | 0 <= k < at :: s[k] != c
    ensures IndexOf(s, c) == Some(at)
  {
  }

  /** Every string the scan accepts matches the pattern. */
  lemma AcceptedMatchesPattern(s: string, at: nat)
    requires NoWhitespace(s) && IndexOf(s, '@') == Some(at) && OneAtThenDot(s, at)
    ensures MatchesPattern(s)
  {
    var d := s[at + 1..];
    var k :| 0 < k < |d| - 1 && d[k] == '.';
    var dot := at + 1 + k;
    assert s[dot] == '.';
    assert AllPatternChars(s[..at]);
    assert AllPatternChars(s[at + 1..dot]);
    assert AllPatternChars(s[dot + 1..]);
  }

  /** Every string matching the pattern is accepted by the scan. */
  lemma PatternAccepted(s: string, at: nat, dot: nat)
    requires 0 < at && at + 1 < dot < |s| - 1
    requires AllPatternChars(s[..at]) && s[at] == '@'
    requires AllPatternChars(s[at + 1..dot]) && s[dot] == '.'
    requires AllPatternChars(s[dot + 1..])
    ensures NoWhitespace(s) && IndexOf(s, '@') == Some(at) && OneAtThenDot(s, at)
  {
    forall k | 0 <= k < |s| && k != at ensures PatternChar(s[k]) {
      if k < at {
        assert s[k] == s[..at][k];
      } else if at < k < dot {
        assert s[k] == s[at + 1..dot][k - at - 1];
      } else if k > dot {
        assert s[k] == s[dot + 1..][k - dot - 1];
      }
    }
    IndexOfFirst(s, '@', at);
    assert s[at + 1..][dot - at - 1] == '.';
  }

  /** The scan and the pattern agree on every string. */
  lemma CheckIsPattern(s: string)
    ensures (NoWhitespace(s) && IndexOf(s, '@').Some? && OneAtThenDot(s, IndexOf(s, '@').value))
            <==> MatchesPattern(s)
  {
    var first := IndexOf(s, '@');
    if NoWhitespace(s) && first.Some? && OneAtThenDot(s, first.value) {
      AcceptedMatchesPattern(s, first.value);
    }
    if MatchesPattern(s) {
      var at, dot :| && 0 < at && at + 1 < dot < |s| - 1
                     && AllPatternChars(s[..at]) && s[at] == '@'
                     && AllPatternChars(s[at + 1..dot]) && s[dot] == '.'
                     && AllPatternChars(s[dot + 1..]);
      PatternAccepted(s, at, dot);
    }
  }

  /** `a@b.com` has the shape of an address. */
  lemma AcceptsPlainAddress()
    ensures ValidateEmail("a@b.com")
  {
    var s := "a@b.com";
    assert IndexOf(s, '@') == Some(1) by {
      assert s[1..] == "@b.com";
    }
    assert s[2..][1] == '.';
  }

  /** `a@b` has no dot after the `@`. */
  lemma RejectsMissingDot()
    ensures !ValidateEmail("a@b")
  {
  }

  /** `a b@c.com` holds a space. */
  lemma RejectsWhitespace()
    ensures !ValidateEmail("a b@c.com")
  {
    var s := "a b@c.com";
    assert IsWhitespace(s[1]);
  }
}
