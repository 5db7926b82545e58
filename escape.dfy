/** `escapeHtml`: the text the app interpolates into markup has its five
    HTML-special characters replaced by character references. */
module Escape {
  import opened Text

  /** The five characters the app escapes. */
  predicate IsSpecial(c: char) {
    c == '&' || c == '<' || c == '>' || c == '"' || c == '\''
  }

  /** The replacement of one character: its entity when it is special, the
      character itself otherwise. */
  function EntityOf(c: char): (r: string)
    ensures |r| >= 1
    ensures IsSpecial(c) <==> r[0] == '&' && |r| > 1
    ensures !IsSpecial(c) ==> r == [c]
  {
    match c
    case '&' => "&amp;"
    case '<' => "&lt;"
    case '>' => "&gt;"
    case '"' => "&quot;"
    case '\'' => "&#039;"
    case _ => [c]
  }

  /** `text.replace(/[&<>"']/g, m => map[m])`. */
  function EscapeHtml(s: string): (r: string)
    ensures |r| >= |s|
    ensures forall i :: 0 <= i < |r| ==> r[i] != '<' && r[i] != '>' && r[i] != '"' && r[i] != '\''
    ensures (forall i :: 0 <= i < |s| ==> !IsSpecial(s[i])) ==> r == s
  {
    if s == [] then [] else EntityOf(s[0]) + EscapeHtml(s[1..])
  }

  /** The character reference at the start of `s`, if any, as the character
      it stands for and its length; any other character stands for itself. */
  function DecodeFirst(s: string): (r: (char, nat))
    requires s != []
    ensures 1 <= r.1 <= |s|
  {
    if IsPrefix("&amp;", s) then ('&', 5)
    else if IsPrefix("&lt;", s) then ('<', 4)
    else if IsPrefix("&gt;", s) then ('>', 4)
    else if IsPrefix("&quot;", s) then ('"', 6)
    else if IsPrefix("&#039;", s) then ('\'', 6)
    else (s[0], 1)
  }

  /** Decoding of the five references, as an HTML parser reads the escaped
      text back: each reference becomes its character, everything else is
      copied. */
  function UnescapeHtml(s: string): string
    decreases |s|
  {
    if s == [] then [] else var (c, n) := DecodeFirst(s); [c] + UnescapeHtml(s[n..])
  }

  /** The replacement of `c` decodes back to `c`, whatever follows it. */
  lemma DecodeEntity(c: char, rest: string)
    ensures DecodeFirst(EntityOf(c) + rest) == (c, |EntityOf(c)|)
  {
    var en := EntityOf(c);
    var s := en + rest;
    assert s[..|en|] == en;
    if !IsSpecial(c) {
      assert s[0] == c;
    } else if c != '&' {
      assert s[1] != 'a';
      if c != '<' {
        assert s[1] != 'l';
        if c != '>' {
          assert s[1] != 'g';
          if c != '"' {
            assert s[1] != 'q';
          }
        }
      }
    }
  }

  /** Escaping loses nothing: decoding the escaped text gives the original. */
  lemma {:induction false} EscapeRoundTrip(s: string)
    ensures UnescapeHtml(EscapeHtml(s)) == s
  {
    if s != [] {
      EscapeRoundTrip(s[1..]);
      var e := EscapeHtml(s[1..]);
      DecodeEntity(s[0], e);
      assert (EntityOf(s[0]) + e)[|EntityOf(s[0])|..] == e;
      assert s == [s[0]] + s[1..];
    }
  }

  /** Escaping is injective: different texts never render the same. */
  lemma EscapeInjective(s: string, t: string)
    requires EscapeHtml(s) == EscapeHtml(t)
    ensures s == t
  {
    EscapeRoundTrip(s);
    EscapeRoundTrip(t);
  }
}
