/**
 * The escaping contract of `sanitizeHTML`: assigning a string to a
 * detached element's `textContent` and reading back `innerHTML` serialises
 * one text node, which the HTML Living Standard (section 13.3, "escaping a
 * string", attribute mode off) writes with `&`, `<`, `>` and U+00A0 replaced
 * by `&amp;`, `&lt;`, `&gt;` and `&nbsp;`, and every other character as is.
 */
module Html {

  const Nbsp: char := '\U{00A0}'

  /** The serialisation of one character of a text node. */
  function EscapeChar(c: char): (r: string)
    ensures |r| >= 1
    ensures c != '&' && c != '<' && c != '>' && c != Nbsp <==> r == [c]
  {
    if c == '&' then "&amp;"
    else if c == '<' then "&lt;"
    else if c == '>' then "&gt;"
    else if c == Nbsp then "&nbsp;"
    else [c]
  }

  /** A character that the serialisation rewrites. */
  predicate IsMarkup(c: char) {
    c == '&' || c == '<' || c == '>' || c == Nbsp
  }

  /** `sanitizeHTML(s)`: the escaped text never holds a raw `<`, `>` or
      U+00A0, so it cannot open a tag when it is inserted into markup. */
  function Escape(s: string): (r: string)
    ensures |r| >= |s|
    ensures forall i :: 0 <= i < |r| ==> r[i] != '<' && r[i] != '>' && r[i] != Nbsp
  {
    if s == [] then "" else EscapeChar(s[0]) + Escape(s[1..])
  }

  /** Reads a serialised text node back: the four entity references that
      Escape writes are turned back into their characters. */
  function Unescape(t: string): string {
    if t == [] then ""
    else if "&amp;" <= t then "&" + Unescape(t[5..])
    else if "&lt;" <= t then "<" + Unescape(t[4..])
    else if "&gt;" <= t then ">" + Unescape(t[4..])
    else if "&nbsp;" <= t then [Nbsp] + Unescape(t[6..])
    else [t[0]] + Unescape(t[1..])
  }

  /** One serialised character reads back as itself, whatever follows it. */
  lemma UnescapeChar(c: char, rest: string)
    ensures Unescape(EscapeChar(c) + rest) == [c] + Unescape(rest)
  {
    var t := EscapeChar(c) + rest;
    assert t[|EscapeChar(c)|..] == rest;
    assert EscapeChar(c) <= t;
    if c == '&' {
    } else if c == '<' {
      assert t[1] == 'l' && !("&amp;" <= t);
    } else if c == '>' {
      assert t[1] == 'g' && !("&amp;" <= t) && !("&lt;" <= t);
    } else if c == Nbsp {
      assert t[1] == 'n' && !("&amp;" <= t) && !("&lt;" <= t) && !("&gt;" <= t);
    } else {
      assert t[0] == c && t[1..] == rest;
    }
  }

  /** Escaping loses nothing: the original text is recovered from it. */
  lemma {:induction false} UnescapeEscape(s: string)
    ensures Unescape(Escape(s)) == s
  {
    if s != [] {
      UnescapeEscape(s[1..]);
      UnescapeChar(s[0], Escape(s[1..]));
      assert [s[0]] + s[1..] == s;
    }
  }

  /** Text without markup-significant characters is left as it is. */
  lemma {:induction false} EscapePlain(s: string)
    requires forall i :: 0 <= i < |s| ==> !IsMarkup(s[i])
    ensures Escape(s) == s
  {
    if s != [] {
      EscapePlain(s[1..]);
      assert [s[0]] + s[1..] == s;
    }
  }
}
