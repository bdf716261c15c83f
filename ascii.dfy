/** The character classes json.c takes from <ctype.h> (C locale, ASCII input)
    and the line count its scanner keeps. */
module Ascii {

  /** A C string as the parser sees it: the buffer ends in the NUL sentinel. */
  predicate Terminated(s: seq<char>)
  {
    |s| > 0 && s[|s| - 1] == '\0'
  }

  /** The text of a C string: no NUL inside, every byte below 0x80. */
  predicate IsCText(text: seq<char>)
  {
    forall k :: 0 <= k < |text| ==> '\0' < text[k] < '\U{80}'
  }

  /** The four bytes skip_space steps over. */
  predicate IsSpace(c: char)
  {
    c == ' ' || c == '\t' || c == '\n' || c == '\r'
  }

  predicate IsDigit(c: char)
  {
    '0' <= c <= '9'
  }

  predicate IsXDigit(c: char)
  {
    IsDigit(c) || 'a' <= c <= 'f' || 'A' <= c <= 'F'
  }

  /** iscntrl in the C locale: 0x00-0x1F and DEL. */
  predicate IsCntrl(c: char)
  {
    c < ' ' || c == '\U{7F}'
  }

  function ToLower(c: char): (r: char)
    ensures 'A' <= c <= 'Z' ==> r as int == c as int + 32
    ensures !('A' <= c <= 'Z') ==> r == c
  {
    if 'A' <= c <= 'Z' then (c as int + 32) as char else c
  }

  /** The value parse_hexquad ORs in for one hex digit. */
  function HexDigitValue(c: char): (v: nat)
    requires IsXDigit(c)
    ensures v < 16
    ensures IsDigit(c) ==> v == c as int - '0' as int
    ensures 'a' <= c <= 'f' ==> v == c as int - 'a' as int + 10
    ensures 'A' <= c <= 'F' ==> v == c as int - 'A' as int + 10
  {
    if IsDigit(c) then c as int - '0' as int
    else 10 + ToLower(c) as int - 'a' as int
  }

  /** Whether position k of s ends a line: a CR, or an LF that does not
      follow a CR, so that CR LF counts once. */
  predicate EndsLine(s: seq<char>, k: nat)
    requires k < |s|
  {
    s[k] == '\r' || (s[k] == '\n' && (k == 0 || s[k - 1] != '\r'))
  }

  /** The number of line terminators (LF, CR or CR LF) among the first n
      bytes of s. */
  function LineBreaks(s: seq<char>, n: nat): nat
    requires n <= |s|
  {
    if n == 0 then 0
    else LineBreaks(s, n - 1) + (if EndsLine(s, n - 1) then 1 else 0)
  }

  /** The line count only grows along the text. */
  lemma {:induction false} LineBreaksMonotone(s: seq<char>, i: nat, j: nat)
    requires i <= j <= |s|
    ensures LineBreaks(s, i) <= LineBreaks(s, j)
    decreases j - i
  {
    if i < j {
      LineBreaksMonotone(s, i, j - 1);
    }
  }

  /** A text without CR or LF has no line breaks. */
  lemma {:induction false} NoBreaksWithoutTerminators(s: seq<char>, n: nat)
    requires n <= |s|
    requires forall k :: 0 <= k < n ==> s[k] != '\n' && s[k] != '\r'
    ensures LineBreaks(s, n) == 0
  {
    if n > 0 {
      NoBreaksWithoutTerminators(s, n - 1);
    }
  }
}
