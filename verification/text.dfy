/**
 * The string helpers the package-document generator relies on:
 * `CGI.escapeHTML`, `Integer#to_s`, `String#start_with?`, a substring
 * match (the regular expression `/xhtml\+xml/`), `String#sub` with a literal
 * pattern and `File.basename`.
 */
module Text {

  predicate StartsWith(s: string, prefix: string) {
    |prefix| <= |s| && s[..|prefix|] == prefix
  }

  /** `s` contains `sub` at some position. */
  predicate Contains(s: string, sub: string)
    decreases |s|
  {
    StartsWith(s, sub) || (s != [] && Contains(s[1..], sub))
  }

  lemma {:induction false} ContainsAt(s: string, sub: string, k: nat)
    requires k <= |s| && StartsWith(s[k..], sub)
    ensures Contains(s, sub)
    decreases k
  {
    if k > 0 {
      assert s[1..][k - 1..] == s[k..];
      ContainsAt(s[1..], sub, k - 1);
    } else {
      assert s[k..] == s;
    }
  }

  // ---------------------------------------------------------------- escaping

  /** The characters `CGI.escapeHTML` replaces. */
  predicate Special(c: char) {
    c == '&' || c == '<' || c == '>' || c == '"' || c == '\''
  }

  function EscapeChar(c: char): string {
    match c
    case '&' => "&amp;"
    case '<' => "&lt;"
    case '>' => "&gt;"
    case '"' => "&quot;"
    case '\'' => "&#39;"
    case _ => [c]
  }

  /**
   * `CGI.escapeHTML`: every special character becomes its entity reference,
   * so that the result can sit in XML text or in a quoted attribute.
   */
  function Escape(s: string): (r: string) {
    if s == [] then [] else EscapeChar(s[0]) + Escape(s[1..])
  }

  /** Escaped text holds no character that could close a tag or an attribute. */
  lemma {:induction false} EscapeNoMarkup(s: string)
    ensures forall k :: 0 <= k < |Escape(s)| ==> !(Special(Escape(s)[k]) && Escape(s)[k] != '&')
  {
    if s != [] {
      EscapeNoMarkup(s[1..]);
      var r := Escape(s);
      assert r == EscapeChar(s[0]) + Escape(s[1..]);
      forall k | 0 <= k < |r| ensures !(Special(r[k]) && r[k] != '&') {
        if k >= |EscapeChar(s[0])| {
          assert r[k] == Escape(s[1..])[k - |EscapeChar(s[0])|];
        }
      }
    }
  }

  /** Text without special characters is left as it is. */
  lemma {:induction false} EscapePlain(s: string)
    requires forall k :: 0 <= k < |s| ==> !Special(s[k])
    ensures Escape(s) == s
  {
    if s != [] {
      EscapePlain(s[1..]);
      assert s == [s[0]] + s[1..];
    }
  }

  /** Reads the five entity references back; the partner of `Escape`. */
  function Unescape(s: string): string
    decreases |s|
  {
    if s == [] then []
    else if s[0] != '&' then [s[0]] + Unescape(s[1..])
    else if StartsWith(s, "&amp;") then "&" + Unescape(s[5..])
    else if StartsWith(s, "&lt;") then "<" + Unescape(s[4..])
    else if StartsWith(s, "&gt;") then ">" + Unescape(s[4..])
    else if StartsWith(s, "&quot;") then "\"" + Unescape(s[6..])
    else if StartsWith(s, "&#39;") then "'" + Unescape(s[5..])
    else [s[0]] + Unescape(s[1..])
  }

  lemma UnescapeChar(c: char, t: string)
    ensures Unescape(EscapeChar(c) + t) == [c] + Unescape(t)
  {
    var x := EscapeChar(c);
    var e := x + t;
    assert e[|x|..] == t;
    assert e[..|x|] == x;
    if c == '&' {
      assert StartsWith(e, "&amp;");
      assert Unescape(e) == "&" + Unescape(t);
    } else if c == '<' {
      assert e[1] == 'l' && StartsWith(e, "&lt;");
      assert Unescape(e) == "<" + Unescape(t);
    } else if c == '>' {
      assert e[1] == 'g' && e[1] != "&lt;"[1] && StartsWith(e, "&gt;");
      assert Unescape(e) == ">" + Unescape(t);
    } else if c == '"' {
      assert e[1] == 'q' && e[1] != "&lt;"[1] && e[1] != "&gt;"[1] && StartsWith(e, "&quot;");
      assert Unescape(e) == "\"" + Unescape(t);
    } else if c == '\'' {
      assert e[1] == '#' && e[1] != "&lt;"[1] && e[1] != "&gt;"[1] && e[1] != "&quot;"[1];
      assert StartsWith(e, "&#39;");
      assert Unescape(e) == "'" + Unescape(t);
    } else {
      assert e[0] == c && e[1..] == t;
    }
  }

  /** Escaping loses nothing: the text can be recovered from the escaped form. */
  lemma {:induction false} EscapeRoundTrip(s: string)
    ensures Unescape(Escape(s)) == s
  {
    if s != [] {
      UnescapeChar(s[0], Escape(s[1..]));
      EscapeRoundTrip(s[1..]);
    }
  }

  // ---------------------------------------------------------------- decimals

  function Digit(d: nat): (c: char)
    requires d < 10
  {
    (48 + d) as char
  }

  /** `Integer#to_s` for the indices the generator writes into ids. */
  function NatStr(n: nat): (r: string)
    ensures |r| >= 1
    ensures forall k :: 0 <= k < |r| ==> '0' <= r[k] <= '9'
    ensures n >= 10 ==> |r| >= 2
    decreases n
  {
    if n < 10 then [Digit(n)] else NatStr(n / 10) + [Digit(n % 10)]
  }

  /** Distinct indices are written as distinct decimal strings. */
  lemma {:induction false} NatStrInjective(a: nat, b: nat)
    requires NatStr(a) == NatStr(b)
    ensures a == b
    decreases a
  {
    if a >= 10 && b >= 10 {
      var s := NatStr(a);
      assert s[..|s| - 1] == NatStr(a / 10);
      assert NatStr(b)[..|s| - 1] == NatStr(b / 10);
      NatStrInjective(a / 10, b / 10);
      assert Digit(a % 10) == s[|s| - 1] == Digit(b % 10);
    } else if a < 10 && b < 10 {
      assert Digit(a) == Digit(b);
    }
  }

  // -------------------------------------------------------------- String#sub

  /** `s.sub(pattern, '')`: the first occurrence of `pattern` is removed. */
  function RemoveFirst(s: string, pattern: string): (r: string)
    requires pattern != []
    decreases |s|
  {
    if StartsWith(s, pattern) then s[|pattern|..]
    else if s == [] then []
    else [s[0]] + RemoveFirst(s[1..], pattern)
  }

  // ---------------------------------------------------------- File.basename

  function StripTrailingSlashes(s: string): (r: string)
    decreases |s|
  {
    if s != [] && s[|s| - 1] == '/' then StripTrailingSlashes(s[..|s| - 1]) else s
  }

  /** What follows the last `/` of `s`. */
  function LastSegment(s: string): (r: string)
    decreases |s|
  {
    if s == [] || s[|s| - 1] == '/' then [] else LastSegment(s[..|s| - 1]) + [s[|s| - 1]]
  }

  /**
   * `File.basename` with `/` as the separator: trailing slashes are dropped,
   * a path of slashes alone is `/`, and otherwise the last segment remains.
   */
  function Basename(path: string): string {
    if path == [] then []
    else
      var t := StripTrailingSlashes(path);
      if t == [] then "/" else LastSegment(t)
  }

  lemma {:induction false} LastSegmentOfName(dir: string, name: string)
    requires forall k :: 0 <= k < |name| ==> name[k] != '/'
    ensures LastSegment(dir + "/" + name) == name
    decreases |name|
  {
    var s := dir + "/" + name;
    if name == [] {
      assert s[|s| - 1] == '/';
    } else {
      var init := name[..|name| - 1];
      assert s[..|s| - 1] == dir + "/" + init;
      LastSegmentOfName(dir, init);
      assert init + [name[|name| - 1]] == name;
    }
  }

  /** The file name of a path inside a directory is its last segment. */
  lemma BasenameOfPath(dir: string, name: string)
    requires name != [] && forall k :: 0 <= k < |name| ==> name[k] != '/'
    ensures Basename(dir + "/" + name) == name
  {
    var s := dir + "/" + name;
    assert s[|s| - 1] == name[|name| - 1];
    LastSegmentOfName(dir, name);
  }
}
