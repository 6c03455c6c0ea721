/** The email check of the signup form: the anchored pattern
    `^[^\s@]+@[^\s@]+\.[^\s@]+$` described as the language it accepts. */
module EmailValidation {

  /** The characters the `\s` class of an ECMAScript regular expression matches:
      the WhiteSpace code points (tab, vertical tab, form feed, space, no-break
      space, zero width no-break space and the Space_Separator category) and the
      LineTerminator code points (line feed, carriage return, line and paragraph
      separators). */
  predicate IsSpace(c: char)
    ensures IsSpace(c) ==> c != '@' && c != '.'
    ensures c == ' ' || c == '\t' || c == '\n' || c == '\r' ==> IsSpace(c)
  {
    var n := c as int;
    n == 0x09 || n == 0x0A || n == 0x0B || n == 0x0C || n == 0x0D || n == 0x20 ||
    n == 0xA0 || n == 0x1680 || (0x2000 <= n <= 0x200A) || n == 0x2028 || n == 0x2029 ||
    n == 0x202F || n == 0x205F || n == 0x3000 || n == 0xFEFF
  }

  /** One character of the class `[^\s@]`. */
  predicate IsPlainChar(c: char) {
    !IsSpace(c) && c != '@'
  }

  /** Every character of `s` belongs to `[^\s@]`. */
  predicate Plain(s: string) {
    forall i :: 0 <= i < |s| ==> IsPlainChar(s[i])
  }

  /** `s` is matched by `[^\s@]+`. */
  predicate PlainRun(s: string) {
    |s| > 0 && Plain(s)
  }

  /** The domain part holds a '.' with at least one character on either side. */
  predicate HasInnerDot(d: string) {
    exists k | 0 < k < |d| - 1 :: d[k] == '.'
  }

  /** `s` is `local "@" domain` with the '@' at index `i`, a non-empty plain
      local part and a plain domain that has an inner dot. */
  predicate SplitsAt(s: string, i: int) {
    0 < i < |s| && s[i] == '@' && Plain(s[..i]) && Plain(s[i + 1..]) && HasInnerDot(s[i + 1..])
  }

  /** The model of `validateEmail`: the address splits at some '@'. */
  predicate ValidateEmail(s: string)
    ensures ValidateEmail(s) ==> |s| >= 5 && IsPlainChar(s[0])
  {
    exists i | 0 < i < |s| :: SplitsAt(s, i)
  }

  /** The pattern read piece by piece: user `[^\s@]+`, then '@', host `[^\s@]+`,
      then a literal '.', then tld `[^\s@]+`, covering the whole string. */
  ghost predicate RegexParts(s: string, user: string, host: string, tld: string) {
    s == user + "@" + host + "." + tld && PlainRun(user) && PlainRun(host) && PlainRun(tld)
  }

  /** The anchored regular expression matches `s`. */
  ghost predicate MatchesEmailRegex(s: string) {
    exists user, host, tld :: RegexParts(s, user, host, tld)
  }

  lemma PlainConcat(a: string, b: string)
    requires Plain(a) && Plain(b)
    ensures Plain(a + b)
  {
  }

  /** A split at '@' gives the user, host and tld pieces of the pattern. */
  lemma SplitMatchesRegex(s: string, i: int)
    requires SplitsAt(s, i)
    ensures MatchesEmailRegex(s)
  {
    var d := s[i + 1..];
    var k :| 0 < k < |d| - 1 && d[k] == '.';
    var user, host, tld := s[..i], d[..k], d[k + 1..];
    assert PlainRun(host) by {
      forall m | 0 <= m < |host| ensures IsPlainChar(host[m]) { assert host[m] == d[m]; }
    }
    assert PlainRun(tld) by {
      forall m | 0 <= m < |tld| ensures IsPlainChar(tld[m]) { assert tld[m] == d[k + 1 + m]; }
    }
    assert d == host + "." + tld;
    assert s == user + "@" + d;
    assert s == user + "@" + host + "." + tld;
    assert RegexParts(s, user, host, tld);
  }

  /** Every string the validator accepts matches the regular expression. */
  lemma ValidateEmailMatchesRegex(s: string)
    requires ValidateEmail(s)
    ensures MatchesEmailRegex(s)
  {
    var i :| 0 < i < |s| && SplitsAt(s, i);
    SplitMatchesRegex(s, i);
  }

  /** Every string the regular expression matches is accepted by the validator. */
  lemma RegexMatchValidates(s: string)
    requires MatchesEmailRegex(s)
    ensures ValidateEmail(s)
  {
    var user, host, tld :| RegexParts(s, user, host, tld);
    var i := |user|;
    var d := host + "." + tld;
    assert s == user + "@" + d;
    assert s[i] == '@';
    assert s[..i] == user;
    assert s[i + 1..] == d;
    assert Plain(".") by { assert !IsSpace('.'); }
    PlainConcat(host, ".");
    PlainConcat(host + ".", tld);
    assert d[|host|] == '.';
    assert SplitsAt(s, i);
  }

  /** The validator accepts exactly the strings the regular expression matches. */
  lemma ValidateEmailIffRegex(s: string)
    ensures ValidateEmail(s) <==> MatchesEmailRegex(s)
  {
    if ValidateEmail(s) {
      ValidateEmailMatchesRegex(s);
    }
    if MatchesEmailRegex(s) {
      RegexMatchValidates(s);
    }
  }

  /** An accepted address holds exactly one '@', no whitespace, and at least
      five characters (the shortest is of the shape `a@b.c`). */
  lemma AcceptedAddressShape(s: string)
    requires ValidateEmail(s)
    ensures multiset(s)['@'] == 1
    ensures forall j :: 0 <= j < |s| ==> !IsSpace(s[j])
    ensures |s| >= 5
  {
    var i :| 0 < i < |s| && SplitsAt(s, i);
    var l, d := s[..i], s[i + 1..];
    assert s == l + ['@'] + d;
    assert forall j :: 0 <= j < |l| ==> l[j] != '@';
    assert forall j :: 0 <= j < |d| ==> d[j] != '@';
    assert multiset(s) == multiset(l) + multiset{'@'} + multiset(d);
    forall j | 0 <= j < |s| ensures !IsSpace(s[j]) {
      if j < i { assert s[j] == l[j]; }
      else if j > i { assert s[j] == d[j - i - 1]; }
    }
  }

  /** The '@' at which an accepted address splits is unique. */
  lemma SplitIsUnique(s: string, i: int, j: int)
    requires SplitsAt(s, i) && SplitsAt(s, j)
    ensures i == j
  {
  }
}
