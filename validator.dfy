/**
 * The server's input validators (app/validator.server.ts). Their arguments
 * are of unknown type: `Unknown` is a string, a number or some other value.
 * JavaScript strings are sequences of UTF-16 code units, so lengths and the
 * username pattern are taken over `Utf16(s)`, where a character outside the
 * Basic Multilingual Plane is a surrogate pair.
 */
module Validator {
  datatype Unknown = Str(s: string) | Num(n: real) | NonString

  /** The UTF-16 code units of a character. */
  function Units(c: char): (r: seq<int>)
    ensures |r| == if c as int > 0xFFFF then 2 else 1
    ensures c as int <= 0xFFFF ==> r == [c as int]
    ensures c as int > 0xFFFF ==> forall k :: 0 <= k < |r| ==> 0xD800 <= r[k] <= 0xDFFF
  {
    if c as int <= 0xFFFF then [c as int]
    else
      var v := c as int - 0x10000;
      [0xD800 + v / 0x400, 0xDC00 + v % 0x400]
  }

  /** The UTF-16 encoding of a string. */
  function Utf16(s: string): seq<int> {
    if s == [] then [] else Units(s[0]) + Utf16(s[1..])
  }

  /** `length`: the number of UTF-16 code units. */
  function Length(s: string): nat {
    |Utf16(s)|
  }

  /** Every character counts once, or twice outside the Basic Multilingual Plane. */
  lemma {:induction false} LengthBounds(s: string)
    ensures |s| <= Length(s) <= 2 * |s|
    ensures (forall k :: 0 <= k < |s| ==> s[k] as int <= 0xFFFF) ==> Length(s) == |s|
  {
    if s != [] {
      LengthBounds(s[1..]);
    }
  }

  /** The characters `trim` removes: white space and line terminators. */
  predicate IsSpace(c: char) {
    var u := c as int;
    || 0x09 <= u <= 0x0D
    || u == 0x20 || u == 0xA0 || u == 0x1680
    || 0x2000 <= u <= 0x200A
    || u == 0x2028 || u == 0x2029 || u == 0x202F || u == 0x205F || u == 0x3000 || u == 0xFEFF
  }

  predicate AllSpace(s: string) {
    forall k :: 0 <= k < |s| ==> IsSpace(s[k])
  }

  /** Leading white space removed: what is left is a suffix, and all that went is white space. */
  function TrimStart(s: string): (r: string)
    ensures |r| <= |s| && r == s[|s| - |r|..] && AllSpace(s[..|s| - |r|])
    ensures r == [] || !IsSpace(r[0])
  {
    if s != [] && IsSpace(s[0]) then
      var r := TrimStart(s[1..]);
      assert s[..|s| - |r|] == [s[0]] + s[1..][..|s[1..]| - |r|];
      r
    else
      s
  }

  /** Trailing white space removed. */
  function TrimEnd(s: string): (r: string)
    ensures r == [] <==> AllSpace(s)
  {
    if s != [] && IsSpace(s[|s| - 1]) then
      var r := TrimEnd(s[..|s| - 1]);
      assert AllSpace(s) <==> AllSpace(s[..|s| - 1]) by {
        assert forall i :: 0 <= i < |s| - 1 ==> s[..|s| - 1][i] == s[i];
      }
      r
    else s
  }

  /** `trim`. */
  function Trim(s: string): string {
    TrimEnd(TrimStart(s))
  }

  /** Trimming leaves something exactly when some character is not white space. */
  lemma TrimNonEmpty(s: string)
    ensures |Trim(s)| > 0 <==> exists k :: 0 <= k < |s| && !IsSpace(s[k])
  {
    SpaceSplit(s, |s| - |TrimStart(s)|);
  }

  /** A string whose first `k` characters are white space is all white space when the rest is. */
  lemma SpaceSplit(s: string, k: nat)
    requires k <= |s| && AllSpace(s[..k])
    ensures AllSpace(s[k..]) <==> AllSpace(s)
  {
    if AllSpace(s[k..]) {
      forall i | 0 <= i < |s|
        ensures IsSpace(s[i])
      {
        if i < k {
          assert s[..k][i] == s[i];
        } else {
          assert s[k..][i - k] == s[i];
        }
      }
    }
  }

  /** `validatePostContent`: a string, not blank, of fewer than 100000 code units. */
  function ValidatePostContent(content: Unknown): (r: bool)
    ensures r <==> content.Str? && (exists k :: 0 <= k < |content.s| && !IsSpace(content.s[k])) && Length(content.s) < 100000
  {
    if content.Str? then TrimNonEmpty(content.s); |Trim(content.s)| > 0 && Length(content.s) < 100000
    else false
  }

  /** `validatePage`: a number above 0; a numeric string is refused. */
  function ValidatePage(page: Unknown): (r: bool)
    ensures r <==> page.Num? && page.n > 0.0
    ensures page.Str? ==> !r
  {
    match page
    case Num(n) => n > 0.0
    case _ => false
  }

  /** `validateCommentContent`: the same rule with a limit of 10000. */
  function ValidateCommentContent(content: Unknown): (r: bool)
    ensures r <==> content.Str? && (exists k :: 0 <= k < |content.s| && !IsSpace(content.s[k])) && Length(content.s) < 10000
  {
    if content.Str? then TrimNonEmpty(content.s); |Trim(content.s)| > 0 && Length(content.s) < 10000
    else false
  }

  /** A code unit of the class `[一-龥_a-zA-Z0-9]`. */
  predicate NameUnit(u: int) {
    || 0x4E00 <= u <= 0x9FA5
    || u == '_' as int
    || 'a' as int <= u <= 'z' as int
    || 'A' as int <= u <= 'Z' as int
    || '0' as int <= u <= '9' as int
  }

  /** The pattern `^[一-龥_a-zA-Z0-9]{3,16}$`, matched against code units. */
  predicate NamePattern(units: seq<int>) {
    3 <= |units| <= 16 && forall k :: 0 <= k < |units| ==> NameUnit(units[k])
  }

  /** `validateUsername`. */
  function ValidateUsername(username: Unknown): bool {
    username.Str? && NamePattern(Utf16(username.s))
  }

  /** Name characters: CJK ideographs U+4E00 to U+9FA5, `_`, ASCII letters and digits. */
  predicate NameChar(c: char) {
    NameUnit(c as int)
  }

  /** Every code unit is a name unit. */
  predicate AllNameUnits(units: seq<int>) {
    forall k :: 0 <= k < |units| ==> NameUnit(units[k])
  }

  /** Every character is a name character. */
  predicate AllNameChars(s: string) {
    forall k :: 0 <= k < |s| ==> NameChar(s[k])
  }

  /** Name units of a concatenation are those of both parts. */
  lemma AllNameUnitsConcat(a: seq<int>, b: seq<int>)
    ensures AllNameUnits(a + b) <==> AllNameUnits(a) && AllNameUnits(b)
  {
    if AllNameUnits(a) && AllNameUnits(b) {
      forall k | 0 <= k < |a + b|
        ensures NameUnit((a + b)[k])
      {
        if k >= |a| {
          assert (a + b)[k] == b[k - |a|];
        }
      }
    }
    if AllNameUnits(a + b) {
      forall k | 0 <= k < |a|
        ensures NameUnit(a[k])
      {
        assert (a + b)[k] == a[k];
      }
      forall k | 0 <= k < |b|
        ensures NameUnit(b[k])
      {
        assert (a + b)[|a| + k] == b[k];
      }
    }
  }

  /** Name characters of a non-empty string: its first and those of the rest. */
  lemma AllNameCharsCons(s: string)
    requires s != []
    ensures AllNameChars(s) <==> NameChar(s[0]) && AllNameChars(s[1..])
  {
    if NameChar(s[0]) && AllNameChars(s[1..]) {
      forall k | 0 <= k < |s|
        ensures NameChar(s[k])
      {
        if k > 0 {
          assert s[k] == s[1..][k - 1];
        }
      }
    }
  }

  /** Every code unit is a name unit exactly when every character is a name character. */
  lemma {:induction false} NameUnits(s: string)
    ensures AllNameUnits(Utf16(s)) <==> AllNameChars(s)
  {
    if s != [] {
      NameUnits(s[1..]);
      var u := Units(s[0]);
      assert Utf16(s) == u + Utf16(s[1..]);
      AllNameUnitsConcat(u, Utf16(s[1..]));
      AllNameCharsCons(s);
      if s[0] as int > 0xFFFF {
        assert !NameUnit(u[0]);
      } else {
        assert u == [s[0] as int];
      }
    }
  }

  /** A username is valid exactly when it has 3 to 16 characters, all name characters. */
  lemma UsernameSpec(username: Unknown)
    ensures ValidateUsername(username) <==> username.Str? && 3 <= |username.s| <= 16 && forall k :: 0 <= k < |username.s| ==> NameChar(username.s[k])
  {
    if username.Str? {
      NameUnits(username.s);
      LengthBounds(username.s);
    }
  }

  /** `validatePassword`: a string of at least 6 code units. */
  function ValidatePassword(password: Unknown): (r: bool)
    ensures password.Str? && |password.s| >= 6 ==> r
    ensures r ==> password.Str? && 2 * |password.s| >= 6
  {
    password.Str? && (LengthBounds(password.s); Length(password.s) >= 6)
  }

  /** `validateCaptcha`: a string of exactly 4 code units. */
  function ValidateCaptcha(captcha: Unknown): (r: bool)
    ensures r ==> captcha.Str? && 2 <= |captcha.s| <= 4
    ensures captcha.Str? && |captcha.s| == 4 && (forall k :: 0 <= k < 4 ==> captcha.s[k] as int <= 0xFFFF) ==> r
  {
    captcha.Str? && (LengthBounds(captcha.s); Length(captcha.s) == 4)
  }

  /** `DEFAULT_REDIRECT`. */
  const DefaultRedirect := "/"

  /** A path on this site: it starts with `/` but not with `//`. */
  predicate IsLocal(s: string) {
    |s| >= 1 && s[0] == '/' && !(|s| >= 2 && s[1] == '/')
  }

  /**
   * `safeRedirect`: a non-string or an empty string gives the default, as
   * does one that does not start with `/` or starts with `//`; any other
   * string is returned as it is.
   */
  function SafeRedirect(to: Unknown, default: string): (r: string)
    ensures r == default || (to == Str(r) && IsLocal(r))
    ensures to.Str? && IsLocal(to.s) ==> r == to.s
    ensures !(to.Str? && IsLocal(to.s)) ==> r == default
  {
    if !to.Str? || to.s == [] then default
    else if !(to.s[..1] == "/") || (|to.s| >= 2 && to.s[..2] == "//") then default
    else to.s
  }

  /** Redirecting a second time changes nothing. */
  lemma SafeRedirectIdempotent(to: Unknown, default: string)
    ensures SafeRedirect(Str(SafeRedirect(to, default)), default) == SafeRedirect(to, default)
  {
  }

  /** With the default `/`, the result is always a path on this site. */
  lemma SafeRedirectLocal(to: Unknown)
    ensures IsLocal(SafeRedirect(to, DefaultRedirect))
  {
  }

  /** Examples: an absolute URL and a protocol-relative one are refused; a path is kept. */
  lemma SafeRedirectExamples()
    ensures SafeRedirect(Str("https://example.com"), "/") == "/"
    ensures SafeRedirect(Str("//example.com"), "/") == "/"
    ensures SafeRedirect(Str("/game/161"), "/") == "/game/161"
    ensures SafeRedirect(NonString, "/home") == "/home"
  {
    assert !IsLocal("https://example.com") by {
      assert "https://example.com"[0] == 'h';
    }
    assert !IsLocal("//example.com") by {
      assert "//example.com"[1] == '/';
    }
    assert IsLocal("/game/161") by {
      assert "/game/161"[0] == '/' && "/game/161"[1] == 'g';
    }
  }
}
