/** The character classes the scripts' regular expressions use. */
module Chars {

  /** JavaScript's `\s`: ASCII white space, the Unicode space separators, the line and
      paragraph separators and the byte-order mark. */
  predicate IsSpace(c: char)
  {
    c == ' ' || c == '\t' || c == '\n' || c == '\r' || c == '\U{000B}' || c == '\U{000C}'
    || c == '\U{00A0}' || c == '\U{1680}' || ('\U{2000}' <= c <= '\U{200A}')
    || c == '\U{2028}' || c == '\U{2029}' || c == '\U{202F}' || c == '\U{205F}'
    || c == '\U{3000}' || c == '\U{FEFF}'
  }

  /** The separators of a `class` attribute, which `classList` splits on (ASCII white space). */
  predicate IsClassSeparator(c: char)
  {
    c == ' ' || c == '\t' || c == '\n' || c == '\r' || c == '\U{000C}'
  }

  /** `\pL`, a Unicode letter. The model lists the Latin, Greek, Cyrillic and Hebrew
      letters and the letter-like mathematical symbols; the rest of the Unicode letter
      table is not carried. */
  predicate IsLetter(c: char)
  {
    ('A' <= c <= 'Z') || ('a' <= c <= 'z')
    || c == '\U{00AA}' || c == '\U{00B5}' || c == '\U{00BA}'
    || ('\U{00C0}' <= c <= '\U{00D6}') || ('\U{00D8}' <= c <= '\U{00F6}')
    || ('\U{00F8}' <= c <= '\U{02C1}')
    || c == '\U{0386}' || ('\U{0388}' <= c <= '\U{038A}') || c == '\U{038C}'
    || ('\U{038E}' <= c <= '\U{03A1}') || ('\U{03A3}' <= c <= '\U{03F5}')
    || ('\U{03F7}' <= c <= '\U{0481}') || ('\U{048A}' <= c <= '\U{052F}')
    || ('\U{05D0}' <= c <= '\U{05EA}')
    || c == '\U{2102}' || c == '\U{2107}' || ('\U{210A}' <= c <= '\U{2113}') || c == '\U{2115}'
    || ('\U{2119}' <= c <= '\U{211D}') || c == '\U{2124}' || c == '\U{2126}' || c == '\U{2128}'
    || ('\U{212A}' <= c <= '\U{212D}') || ('\U{212F}' <= c <= '\U{2139}')
  }

  /** `[0-9,\.]`: a digit or a decimal or thousands separator. */
  predicate IsNumeric(c: char)
  {
    ('0' <= c <= '9') || c == ',' || c == '.'
  }

  predicate IsAsciiDigit(c: char)
  {
    '0' <= c <= '9'
  }

  predicate IsAsciiLetter(c: char)
  {
    ('A' <= c <= 'Z') || ('a' <= c <= 'z')
  }

  /** The marks that render as superscripts without being marked up as such: quotes,
      primes, the degree and ordinal signs, superscript one to three, the acute accent,
      asterisk and backtick (content-script.js:71-73). */
  predicate IsPseudoScript(c: char)
  {
    c == '\U{0022}' || c == '\U{0027}' || c == '\U{002A}' || c == '\U{0060}' || c == '\U{00AA}'
    || c == '\U{00B0}' || c == '\U{00B2}' || c == '\U{00B3}' || c == '\U{00B4}' || c == '\U{00B9}'
    || c == '\U{00BA}' || c == '\U{2018}' || c == '\U{2019}' || c == '\U{201A}' || c == '\U{201B}'
    || c == '\U{201D}' || c == '\U{201E}' || c == '\U{201F}' || c == '\U{2032}' || c == '\U{2033}'
    || c == '\U{2034}' || c == '\U{2035}' || c == '\U{2036}' || c == '\U{2037}' || c == '\U{2057}'
  }

  /** Whether some character of `s` is a letter (`XRegExp.test(s, "\\pL+")`). */
  predicate HasLetter(s: string)
  {
    exists k :: 0 <= k < |s| && IsLetter(s[k])
  }

  /** Whether some character of `s` is numeric (`/[0-9,\.]+/.test(s)`). */
  predicate HasNumeric(s: string)
  {
    exists k :: 0 <= k < |s| && IsNumeric(s[k])
  }

  /** Whether some character of `s` is a pseudo-superscript mark (the unanchored test
      `XRegExp.test(token, "[" + pseudoScripts + "]+")`). */
  predicate HasPseudoScript(s: string)
  {
    exists k :: 0 <= k < |s| && IsPseudoScript(s[k])
  }

  /** `s` with every white-space character removed. */
  function RemoveSpaces(s: string): (r: string)
    ensures |r| <= |s|
    ensures forall k :: 0 <= k < |r| ==> !IsSpace(r[k])
  {
    if s == [] then ""
    else if IsSpace(s[0]) then RemoveSpaces(s[1..])
    else [s[0]] + RemoveSpaces(s[1..])
  }

  lemma {:induction false} RemoveSpacesAppend(a: string, b: string)
    ensures RemoveSpaces(a + b) == RemoveSpaces(a) + RemoveSpaces(b)
  {
    if a == [] {
      assert a + b == b;
    } else {
      assert (a + b)[1..] == a[1..] + b;
      RemoveSpacesAppend(a[1..], b);
    }
  }

  lemma {:induction false} RemoveSpacesEmpty(s: string)
    ensures RemoveSpaces(s) == "" <==> forall k :: 0 <= k < |s| ==> IsSpace(s[k])
  {
    if s != [] {
      RemoveSpacesEmpty(s[1..]);
      assert forall k :: 1 <= k < |s| ==> s[1..][k - 1] == s[k];
    }
  }

  /** The classes the tokenizers use never contain white space, and letters are never numeric. */
  lemma ClassesAreDisjoint(c: char)
    ensures IsLetter(c) ==> !IsSpace(c) && !IsNumeric(c)
    ensures IsNumeric(c) ==> !IsSpace(c)
    ensures IsPseudoScript(c) ==> !IsSpace(c)
    ensures IsAsciiDigit(c) ==> IsNumeric(c)
    ensures IsAsciiLetter(c) ==> IsLetter(c)
  {
  }
}
