/** HTML escaping as `CGI.escapeHTML` performs it, with its inverse. */
module Html {
  import opened Strings

  function EscapeChar(c: char): string {
    match c
    case '&' => "&amp;"
    case '<' => "&lt;"
    case '>' => "&gt;"
    case '"' => "&quot;"
    case '\'' => "&#39;"
    case _ => [c]
  }

  /** `CGI.escapeHTML(s)` */
  function Escape(s: string): (r: string)
    ensures NoChar(r, '<') && NoChar(r, '>') && NoChar(r, '"') && NoChar(r, '\'')
    ensures |r| >= |s|
  {
    if s == [] then [] else EscapeChar(s[0]) + Escape(s[1..])
  }

  /** Decodes the five entities `Escape` produces; every other character stands for itself. */
  function Unescape(s: string): string
    decreases |s|
  {
    if s == [] then []
    else if StartsWith(s, "&amp;") then "&" + Unescape(s[5..])
    else if StartsWith(s, "&lt;") then "<" + Unescape(s[4..])
    else if StartsWith(s, "&gt;") then ">" + Unescape(s[4..])
    else if StartsWith(s, "&quot;") then "\"" + Unescape(s[6..])
    else if StartsWith(s, "&#39;") then "'" + Unescape(s[5..])
    else [s[0]] + Unescape(s[1..])
  }

  /** A text that differs from `p` at `i` does not start with `p`. */
  lemma DiffersAt(s: string, p: string, i: nat)
    requires i < |p| && i < |s| && s[i] != p[i]
    ensures !StartsWith(s, p)
  {
    assert |p| <= |s| ==> s[..|p|][i] == s[i];
  }

  /** The text `e + rest` starts with `e`. */
  lemma StartsWithPrefix(e: string, rest: string)
    ensures StartsWith(e + rest, e)
  {
    assert (e + rest)[..|e|] == e;
  }

  lemma UnescapeEscapeChar(c: char, rest: string)
    ensures Unescape(EscapeChar(c) + rest) == [c] + Unescape(rest)
  {
    var e := EscapeChar(c);
    var s := e + rest;
    assert s[|e|..] == rest;
    StartsWithPrefix(e, rest);
    if c == '&' {
      assert e == "&amp;";
    } else if c == '<' {
      assert e == "&lt;" && s[1] == 'l';
      DiffersAt(s, "&amp;", 1);
    } else if c == '>' {
      assert e == "&gt;" && s[1] == 'g';
      DiffersAt(s, "&amp;", 1);
      DiffersAt(s, "&lt;", 1);
    } else if c == '"' {
      assert e == "&quot;" && s[1] == 'q';
      DiffersAt(s, "&amp;", 1);
      DiffersAt(s, "&lt;", 1);
      DiffersAt(s, "&gt;", 1);
    } else if c == '\'' {
      assert e == "&#39;" && s[1] == '#';
      DiffersAt(s, "&amp;", 1);
      DiffersAt(s, "&lt;", 1);
      DiffersAt(s, "&gt;", 1);
      DiffersAt(s, "&quot;", 1);
    } else {
      assert e == [c] && s[0] == c && s[1..] == rest;
      DiffersAt(s, "&amp;", 0);
      DiffersAt(s, "&lt;", 0);
      DiffersAt(s, "&gt;", 0);
      DiffersAt(s, "&quot;", 0);
      DiffersAt(s, "&#39;", 0);
    }
  }

  /** Escaping loses nothing: the original text is recovered from the escaped one. */
  lemma {:induction false} UnescapeEscape(s: string)
    ensures Unescape(Escape(s)) == s
  {
    if s != [] {
      UnescapeEscapeChar(s[0], Escape(s[1..]));
      UnescapeEscape(s[1..]);
      assert [s[0]] + s[1..] == s;
    }
  }
}
