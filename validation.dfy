/**
 * The input classifier of the QR code generator: the three anchored regular
 * expressions that decide whether the text typed by the user is a URL, an
 * email address or a phone number (src/App.js, isURLValid, isEmailValid,
 * isPhoneValid), and the gate of generateQRCode that accepts the text when at
 * least one of them matches.
 *
 * Each validator is written as the regular expression read literally
 * (alternation, optional group and backtracking become disjunctions and
 * existentials over split points); lemmas then characterise, in both
 * directions, exactly which strings each one accepts.
 */
module Validation {

  /** JavaScript's `\s`: the ECMAScript WhiteSpace and LineTerminator characters. */
  predicate IsWhitespace(c: char) {
    || c == '\t' || c == '\n' || c == '\U{000B}' || c == '\U{000C}' || c == '\r'
    || c == ' ' || c == '\U{00A0}' || c == '\U{1680}'
    || ('\U{2000}' <= c <= '\U{200A}')
    || c == '\U{2028}' || c == '\U{2029}' || c == '\U{202F}' || c == '\U{205F}'
    || c == '\U{3000}' || c == '\U{FEFF}'
  }

  predicate NoWhitespace(s: string) {
    forall i :: 0 <= i < |s| ==> !IsWhitespace(s[i])
  }

  /** `\d`: an ASCII digit. */
  predicate IsAsciiDigit(c: char) {
    '0' <= c <= '9'
  }

  // ---------------------------------------------------------------------------
  // URL: /^(ftp|http|https):\/\/(?:www\.)?[^\s"']+$/

  /** The character class `[^\s"']`. */
  predicate IsUrlChar(c: char) {
    !IsWhitespace(c) && c != '"' && c != '\''
  }

  predicate AllUrlChars(s: string) {
    forall i :: 0 <= i < |s| ==> IsUrlChar(s[i])
  }

  /** `s` is `prefix` followed by one or more characters of `[^\s"']`. */
  predicate UrlBodyAfter(s: string, prefix: string) {
    |prefix| < |s| && s[..|prefix|] == prefix && AllUrlChars(s[|prefix|..])
  }

  /** One branch of the scheme alternation, with the optional `www.` group. */
  predicate UrlWithScheme(s: string, scheme: string) {
    UrlBodyAfter(s, scheme + "://") || UrlBodyAfter(s, scheme + "://www.")
  }

  /** isURLValid: the regular expression read literally. */
  predicate IsURLValid(s: string) {
    UrlWithScheme(s, "ftp") || UrlWithScheme(s, "http") || UrlWithScheme(s, "https")
  }

  /** The schemes the URL pattern admits. */
  predicate IsUrlScheme(scheme: string) {
    scheme == "ftp" || scheme == "http" || scheme == "https"
  }

  /** A URL body starting with `www.` is already a URL body without the group. */
  lemma {:induction false} WwwIsUrlBody(s: string, prefix: string)
    requires UrlBodyAfter(s, prefix + "www.")
    ensures UrlBodyAfter(s, prefix)
  {
    var n := |prefix|;
    assert s[..n + 4] == prefix + "www.";
    assert s[..n] == s[..n + 4][..n];
    forall i | 0 <= i < |s[n..]|
      ensures IsUrlChar(s[n..][i])
    {
      if i < 4 {
        assert s[n..][i] == (prefix + "www.")[n + i];
      } else {
        assert s[n..][i] == s[n + 4..][i - 4];
      }
    }
  }

  /** Within one scheme branch, the optional `www.` group changes nothing. */
  lemma {:induction false} WwwGroupIsRedundant(s: string, scheme: string)
    ensures UrlWithScheme(s, scheme) <==> UrlBodyAfter(s, scheme + "://")
  {
    if UrlBodyAfter(s, scheme + "://www.") {
      assert scheme + "://www." == (scheme + "://") + "www.";
      WwwIsUrlBody(s, scheme + "://");
    }
  }

  /**
   * The URL validator accepts exactly the strings that begin with `ftp://`,
   * `http://` or `https://` and continue with at least one character, none of
   * which is whitespace, `"` or `'`. In particular the optional `(?:www\.)?`
   * group does not change the accepted set.
   */
  lemma {:induction false} URLValidCharacterisation(s: string)
    ensures IsURLValid(s) <==>
      exists scheme :: IsUrlScheme(scheme) && UrlBodyAfter(s, scheme + "://")
  {
    WwwGroupIsRedundant(s, "ftp");
    WwwGroupIsRedundant(s, "http");
    WwwGroupIsRedundant(s, "https");
    if UrlBodyAfter(s, "ftp" + "://") {
      assert IsUrlScheme("ftp");
    } else if UrlBodyAfter(s, "http" + "://") {
      assert IsUrlScheme("http");
    } else if UrlBodyAfter(s, "https" + "://") {
      assert IsUrlScheme("https");
    }
  }

  /** A URL never contains whitespace. */
  lemma {:induction false} URLHasNoWhitespace(s: string)
    ensures IsURLValid(s) ==> NoWhitespace(s)
  {
    if !IsURLValid(s) {
      return;
    }
    URLValidCharacterisation(s);
    var scheme :| IsUrlScheme(scheme) && UrlBodyAfter(s, scheme + "://");
    var n := |scheme + "://"|;
    forall i | 0 <= i < |s|
      ensures !IsWhitespace(s[i])
    {
      if i < n {
        assert s[i] == s[..n][i];
      } else {
        assert s[i] == s[n..][i - n];
      }
    }
  }

  // ---------------------------------------------------------------------------
  // Email: /^[^\s@]+@[^\s@]+\.[^\s@]+$/

  /** The character class `[^\s@]`. */
  predicate IsEmailChar(c: char) {
    !IsWhitespace(c) && c != '@'
  }

  predicate AllEmailChars(s: string) {
    forall i :: 0 <= i < |s| ==> IsEmailChar(s[i])
  }

  /**
   * isEmailValid: the regular expression read literally. Backtracking may put
   * the `@` and the `\.` of the pattern at any positions `at` and `dot` that
   * leave three non-empty runs of `[^\s@]`.
   */
  predicate IsEmailValid(s: string) {
    exists at, dot ::
      && 0 < at && at + 1 < dot && dot + 1 < |s|
      && s[at] == '@' && s[dot] == '.'
      && AllEmailChars(s[..at]) && AllEmailChars(s[at + 1..dot]) && AllEmailChars(s[dot + 1..])
  }

  /** Number of occurrences of `c` in `s`. */
  function CountOf(s: string, c: char): nat {
    if s == [] then 0 else (if s[0] == c then 1 else 0) + CountOf(s[1..], c)
  }

  /** Index of the first occurrence of `c` in `s`, or `|s|` when there is none. */
  function IndexOf(s: string, c: char): (r: nat)
    ensures r <= |s|
    ensures r < |s| ==> s[r] == c
    ensures forall j :: 0 <= j < r ==> s[j] != c
  {
    if s == [] then 0 else if s[0] == c then 0 else 1 + IndexOf(s[1..], c)
  }

  /** `d` holds a `.` that is neither its first nor its last character. */
  predicate HasInnerDot(d: string) {
    exists j :: 0 < j < |d| - 1 && d[j] == '.'
  }

  /** The shape of an email address, stated without the pattern. */
  predicate EmailShape(s: string) {
    var at := IndexOf(s, '@');
    && NoWhitespace(s)
    && CountOf(s, '@') == 1
    && 0 < at < |s|
    && HasInnerDot(s[at + 1..])
  }

  /** A character at exactly one index means it occurs exactly once. */
  lemma {:induction false} CountOfSingle(s: string, c: char, i: nat)
    requires i < |s| && s[i] == c
    requires forall k :: 0 <= k < |s| && k != i ==> s[k] != c
    ensures CountOf(s, c) == 1
  {
    if i == 0 {
      CountOfAbsent(s[1..], c);
    } else {
      forall k | 0 <= k < |s[1..]| && k != i - 1
        ensures s[1..][k] != c
      {
        assert s[1..][k] == s[k + 1];
      }
      CountOfSingle(s[1..], c, i - 1);
    }
  }

  lemma {:induction false} CountOfAbsent(s: string, c: char)
    requires forall k :: 0 <= k < |s| ==> s[k] != c
    ensures CountOf(s, c) == 0
  {
    if s != [] {
      CountOfAbsent(s[1..], c);
    }
  }

  /** A character that occurs once occurs at its first index and nowhere else. */
  lemma {:induction false} CountOfOne(s: string, c: char)
    requires CountOf(s, c) == 1
    ensures IndexOf(s, c) < |s|
    ensures forall k :: 0 <= k < |s| && k != IndexOf(s, c) ==> s[k] != c
  {
    if s[0] == c {
      CountOfZero(s[1..], c);
      forall k | 0 < k < |s|
        ensures s[k] != c
      {
        assert s[k] == s[1..][k - 1];
      }
    } else {
      CountOfOne(s[1..], c);
      forall k | 0 < k < |s| && k != IndexOf(s, c)
        ensures s[k] != c
      {
        assert s[k] == s[1..][k - 1];
      }
    }
  }

  lemma {:induction false} CountOfZero(s: string, c: char)
    requires CountOf(s, c) == 0
    ensures forall k :: 0 <= k < |s| ==> s[k] != c
  {
    if s != [] {
      CountOfZero(s[1..], c);
      assert forall k :: 0 < k < |s| ==> s[k] == s[1..][k - 1];
    }
  }

  /** A slice whose characters are all in `[^\s@]`. */
  lemma {:induction false} EmailCharsOfSlice(s: string, lo: nat, hi: nat)
    requires lo <= hi <= |s|
    requires forall k :: lo <= k < hi ==> IsEmailChar(s[k])
    ensures AllEmailChars(s[lo..hi])
  {
    var t := s[lo..hi];
    forall k | 0 <= k < |t|
      ensures IsEmailChar(t[k])
    {
      assert t[k] == s[lo + k];
    }
  }

  /** A match of the email pattern has the email shape. */
  lemma {:induction false} EmailPatternHasShape(s: string)
    requires IsEmailValid(s)
    ensures EmailShape(s)
  {
    var at, dot :|
      && 0 < at && at + 1 < dot && dot + 1 < |s|
      && s[at] == '@' && s[dot] == '.'
      && AllEmailChars(s[..at]) && AllEmailChars(s[at + 1..dot]) && AllEmailChars(s[dot + 1..]);
    forall k | 0 <= k < |s| && k != at
      ensures IsEmailChar(s[k])
    {
      if k < at {
        assert s[k] == s[..at][k];
      } else if k < dot {
        assert s[k] == s[at + 1..dot][k - at - 1];
      } else if k > dot {
        assert s[k] == s[dot + 1..][k - dot - 1];
      }
    }
    CountOfSingle(s, '@', at);
    assert IndexOf(s, '@') == at;
    var d := s[at + 1..];
    assert d[dot - at - 1] == '.';
  }

  /** A string with the email shape matches the email pattern. */
  lemma {:induction false} EmailShapeMatchesPattern(s: string)
    requires EmailShape(s)
    ensures IsEmailValid(s)
  {
    var at := IndexOf(s, '@');
    CountOfOne(s, '@');
    var d := s[at + 1..];
    var j :| 0 < j < |d| - 1 && d[j] == '.';
    var dot := at + 1 + j;
    assert s[dot] == d[j] == '.';
    EmailCharsOfSlice(s, 0, at);
    EmailCharsOfSlice(s, at + 1, dot);
    EmailCharsOfSlice(s, dot + 1, |s|);
    assert s[..at] == s[0..at];
    assert s[dot + 1..] == s[dot + 1..|s|];
  }

  /**
   * The email validator accepts exactly the strings without whitespace that
   * hold exactly one `@`, with a non-empty part before it and, after it, a `.`
   * that is neither the first nor the last character of that part.
   */
  lemma {:induction false} EmailValidCharacterisation(s: string)
    ensures IsEmailValid(s) <==> EmailShape(s)
  {
    if IsEmailValid(s) {
      EmailPatternHasShape(s);
    }
    if EmailShape(s) {
      EmailShapeMatchesPattern(s);
    }
  }

  // ---------------------------------------------------------------------------
  // Phone: /^\+?[1-9]\d{1,14}$/

  /** `[1-9]\d{1,14}`: 2 to 15 ASCII digits, the first of them not `0`. */
  predicate PhoneDigits(d: string) {
    && 2 <= |d| <= 15
    && '1' <= d[0] <= '9'
    && forall i :: 1 <= i < |d| ==> IsAsciiDigit(d[i])
  }

  /** isPhoneValid: the regular expression read literally, `\+?` as two alternatives. */
  predicate IsPhoneValid(s: string) {
    PhoneDigits(s) || (|s| > 0 && s[0] == '+' && PhoneDigits(s[1..]))
  }

  /** The digits of a phone number: the text with one leading `+` removed. */
  function PhoneDigitPart(s: string): (d: string)
    ensures |s| > 0 && s[0] == '+' ==> [s[0]] + d == s
    ensures !(|s| > 0 && s[0] == '+') ==> d == s
  {
    if |s| > 0 && s[0] == '+' then s[1..] else s
  }

  /**
   * The phone validator accepts exactly an optional leading `+` followed by
   * 2 to 15 ASCII digits whose first is 1-9: whether the `+` is there decides
   * which alternative of `\+?` can match.
   */
  lemma {:induction false} PhoneValidCharacterisation(s: string)
    ensures IsPhoneValid(s) <==> PhoneDigits(PhoneDigitPart(s))
    ensures IsPhoneValid(s) ==> 2 <= |s| <= 16 && NoWhitespace(s)
  {
    if IsPhoneValid(s) {
      forall i | 0 <= i < |s| ensures !IsWhitespace(s[i]) {
        if |s| > 0 && s[0] == '+' && i > 0 {
          assert s[i] == s[1..][i - 1];
        }
      }
    }
  }

  // ---------------------------------------------------------------------------
  // The validation gate of generateQRCode.

  /** The text passes the gate when any of the three validators accepts it. */
  predicate IsAcceptable(s: string) {
    IsURLValid(s) || IsEmailValid(s) || IsPhoneValid(s)
  }

  /** Without a `@` the email pattern cannot match. */
  lemma {:induction false} NoAtIsNotEmail(s: string)
    requires forall i :: 0 <= i < |s| ==> s[i] != '@'
    ensures !IsEmailValid(s)
  {
  }

  /** A URL has a `:` right after its scheme. */
  lemma {:induction false} URLHasColon(s: string)
    ensures IsURLValid(s) ==> exists i :: 0 <= i < |s| && s[i] == ':'
  {
    URLValidCharacterisation(s);
    if IsURLValid(s) {
      var scheme :| IsUrlScheme(scheme) && UrlBodyAfter(s, scheme + "://");
      var n := |scheme|;
      assert s[..n + 3] == scheme + "://";
      assert s[n] == (scheme + "://")[n];
    }
  }

  /** The three kinds are disjoint: a phone number is neither a URL nor an email address. */
  lemma {:induction false} PhoneIsNeitherUrlNorEmail(s: string)
    requires IsPhoneValid(s)
    ensures !IsURLValid(s) && !IsEmailValid(s)
  {
    var d := PhoneDigitPart(s);
    forall i | 0 <= i < |s|
      ensures IsAsciiDigit(s[i]) || s[i] == '+'
    {
      if |s| > 0 && s[0] == '+' && i > 0 {
        assert s[i] == d[i - 1];
      }
    }
    NoAtIsNotEmail(s);
    URLHasColon(s);
  }

  /** Sample strings the gate accepts, one of each kind. */
  lemma AcceptsSamples()
    ensures IsURLValid("http://a.co")
    ensures IsEmailValid("a@b.co") && IsEmailValid("foo@bar.com")
    ensures IsPhoneValid("+15551234567")
  {
    assert UrlBodyAfter("http://a.co", "http" + "://");
    var e := "a@b.co";
    assert e[1] == '@' && e[3] == '.';
    assert AllEmailChars(e[..1]) && AllEmailChars(e[2..3]) && AllEmailChars(e[4..]);
    var f := "foo@bar.com";
    assert f[3] == '@' && f[7] == '.';
    assert AllEmailChars(f[..3]) && AllEmailChars(f[4..7]) && AllEmailChars(f[8..]);
    var p := "+15551234567";
    assert PhoneDigits(p[1..]);
  }

  /** Sample strings the phone validator and the gate reject. */
  lemma RejectsSamples()
    ensures !IsPhoneValid("5") && !IsPhoneValid("0123") && !IsPhoneValid("+")
    ensures !IsPhoneValid("1234567890123456")
    ensures !IsAcceptable("plain text")
  {
    var t := "plain text";
    assert t[5] == ' ';
    URLHasNoWhitespace(t);
    NoAtIsNotEmail(t);
    assert t[0] != '+';
  }
}
