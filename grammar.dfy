/** What each routine of json.c computes, as functions of the input buffer
    and a cursor position.  A routine that succeeds gives Parsed(value, next)
    with the position its cursor is left at; one that calls parse_error gives
    Failed(error, at) with the position of the cursor at that moment.  The
    buffer is the input text followed by the NUL that ends it. */
module Grammar {
  import opened Ascii
  import opened Unicode
  import opened JsonTypes

  /** The parser's buffer: an ASCII C string and its terminating NUL. */
  predicate Buffer(s: seq<char>)
  {
    && |s| > 0 && s[|s| - 1] == '\0'
    && forall k :: 0 <= k < |s| - 1 ==> '\0' < s[k] < '\U{80}'
  }

  lemma TextBuffer(text: seq<char>)
    requires IsCText(text)
    ensures Buffer(text + ['\0'])
  {
    var s := text + ['\0'];
    assert forall k :: 0 <= k < |s| - 1 ==> s[k] == text[k];
  }

  /** Only the last byte of a buffer is NUL. */
  lemma NulIsLast(s: seq<char>, i: nat)
    requires Buffer(s) && i < |s|
    ensures s[i] == '\0' <==> i == |s| - 1
  {
  }

  // ---------------------------------------------------------------------
  // Scanner: skip_space, consume, unexpected_token, expect

  /** skip_space (json.c:29-56): the first position at or after i that does
      not hold a space, tab, CR or LF. */
  function SkipWs(s: seq<char>, i: nat): (j: nat)
    requires Buffer(s) && i < |s|
    ensures i <= j < |s| && !IsSpace(s[j])
    decreases |s| - i
  {
    if IsSpace(s[i]) then SkipWs(s, i + 1) else i
  }

  /** Everything skip_space steps over is white space. */
  lemma {:induction false} SkipWsSpaces(s: seq<char>, i: nat)
    requires Buffer(s) && i < |s|
    ensures forall k :: i <= k < SkipWs(s, i) ==> IsSpace(s[k])
    decreases |s| - i
  {
    if IsSpace(s[i]) {
      SkipWsSpaces(s, i + 1);
    }
  }

  /** One step of skip_space's loop from the white space at i: a CR LF pair
      is stepped over together, and the step adds a line exactly for a CR,
      an LF or a CR LF. */
  lemma SkipStep(s: seq<char>, i: nat, j: nat)
    requires Buffer(s) && i < |s| && IsSpace(s[i])
    requires !(0 < i && s[i - 1] == '\r' && s[i] == '\n')
    requires j == if s[i] == '\r' && s[i + 1] == '\n' then i + 2 else i + 1
    ensures j < |s| && SkipWs(s, j) == SkipWs(s, i)
    ensures LineAt(s, j) == LineAt(s, i) + (if s[i] == '\n' || s[i] == '\r' then 1 else 0)
    ensures !(s[j - 1] == '\r' && s[j] == '\n')
  {
    assert LineBreaks(s, i + 1) == LineBreaks(s, i) + (if EndsLine(s, i) then 1 else 0);
    if j == i + 2 {
      assert !EndsLine(s, i + 1);
      assert LineBreaks(s, i + 2) == LineBreaks(s, i + 1);
    }
  }

  /** consume (json.c:115-121): step over the byte at i, then skip white
      space if skip_space is set. */
  function Advance(s: seq<char>, i: nat, skip: bool): (j: nat)
    requires Buffer(s) && i < |s| - 1
    ensures i < j < |s|
    ensures !skip ==> j == i + 1
    ensures skip ==> !IsSpace(s[j])
  {
    if skip then SkipWs(s, i + 1) else i + 1
  }

  /** unexpected_token (json.c:125-133): an end of input at the NUL, the
      offending byte anywhere else. */
  function Unexpected(s: seq<char>, i: nat): (e: Error)
    requires i < |s|
    ensures s[i] == '\0' <==> e == UnexpectedEnd
    ensures s[i] != '\0' ==> e == UnexpectedToken(s[i])
  {
    if s[i] == '\0' then UnexpectedEnd else UnexpectedToken(s[i])
  }

  /** expect (json.c:135-145): the byte at i must be ch; it is consumed
      unless ch is the NUL. */
  function ExpectAt(s: seq<char>, i: nat, ch: char, skip: bool): (r: Scan<()>)
    requires Buffer(s) && i < |s|
    ensures r.Failed? <==> s[i] != ch
    ensures r.Failed? ==> r == Failed(Expected(s[i], ch), i)
    ensures r.Parsed? && ch == '\0' ==> r.next == i
    ensures r.Parsed? && ch != '\0' ==> r.next == Advance(s, i, skip)
  {
    if s[i] != ch then Failed(Expected(s[i], ch), i)
    else if ch == '\0' then Parsed((), i)
    else Parsed((), Advance(s, i, skip))
  }

  // ---------------------------------------------------------------------
  // Strings: parse_hexquad, parse_escaped_char, parse_raw_string

  /** 16 to the power n. */
  function Pow16(n: nat): (p: nat)
    ensures p >= 1
  {
    if n == 0 then 1 else 16 * Pow16(n - 1)
  }

  /** One round of parse_hexquad's loop (json.c:152-161): the hex digit
      under the cursor and its value, or unexpected_token. */
  function DigitAt(s: seq<char>, i: nat): (r: Scan<nat>)
    requires Buffer(s) && i < |s|
    ensures r.Parsed? <==> IsXDigit(s[i])
    ensures r.Parsed? ==> r.next == i + 1 < |s| && r.value == HexDigitValue(s[i])
    ensures r.Failed? ==> r == Failed(Unexpected(s, i), i)
  {
    if IsXDigit(s[i]) then Parsed(HexDigitValue(s[i]), i + 1)
    else Failed(Unexpected(s, i), i)
  }

  /** The loop of parse_hexquad (json.c:151-162) after n of its four digits,
      with val holding their value; skip_space is off inside a string.  The
      unsigned short val <<= 4, val |= digit of the source is val * 16 +
      digit here: val stays below 16 to the power n (HexDigitsBound), so
      nothing is shifted out and the OR adds. */
  function HexDigits(s: seq<char>, i: nat, n: nat, val: nat): (r: Scan<nat>)
    requires Buffer(s) && i < |s| && n <= 4
    ensures r.Parsed? ==> r.next == i + 4 - n < |s|
    ensures r.Failed? ==> i <= r.at < i + 4 - n && r.at < |s|
    decreases |s| - i
  {
    if n == 4 then Parsed(val, i)
    else
      var (d, j) :- DigitAt(s, i);
      HexDigits(s, j, n + 1, val * 16 + d)
  }

  /** The digits gathered never overflow the unsigned short. */
  lemma {:induction false} HexDigitsBound(s: seq<char>, i: nat, n: nat, val: nat)
    requires Buffer(s) && i < |s| && n <= 4 && val < Pow16(n)
    ensures HexDigits(s, i, n, val).Parsed? ==> HexDigits(s, i, n, val).value < 0x10000
    decreases 4 - n
  {
    if n == 4 {
      assert Pow16(4) == 0x10000;
    } else if IsXDigit(s[i]) {
      var d := HexDigitValue(s[i]);
      assert val * 16 + d < Pow16(n + 1);
      HexDigitsBound(s, i + 1, n + 1, val * 16 + d);
    }
  }

  /** parse_hexquad (json.c:147-164). */
  function HexquadAt(s: seq<char>, i: nat): (r: Scan<nat>)
    requires Buffer(s) && i < |s|
    ensures r.Parsed? ==> r.next == i + 4 < |s| && r.value < 0x10000
    ensures r.Failed? ==> i <= r.at < i + 4 && r.at < |s|
  {
    HexDigitsBound(s, i, 0, 0);
    HexDigits(s, i, 0, 0)
  }

  /** The character a one-letter escape stands for (json.c:172-179). */
  function EscapeLetter(c: char): Option<CodeUnit>
  {
    if c == '"' then Some(0x22)
    else if c == '\\' then Some(0x5C)
    else if c == '/' then Some(0x2F)
    else if c == 'b' then Some(0x08)
    else if c == 'f' then Some(0x0C)
    else if c == 'n' then Some(0x0A)
    else if c == 'r' then Some(0x0D)
    else if c == 't' then Some(0x09)
    else None
  }

  /** parse_escaped_char (json.c:166-191), from the backslash at i. */
  function EscapeAt(s: seq<char>, i: nat): (r: Scan<CodeUnit>)
    requires Buffer(s) && i < |s|
    ensures r.Parsed? ==> i + 2 <= r.next < |s| && r.value <= 0xFFFF
    ensures r.Failed? ==> i <= r.at < |s|
  {
    var (_, j) :- ExpectAt(s, i, '\\', false);
    if s[j] == 'u' then
      var (v, k) :- HexquadAt(s, j + 1);
      Parsed(v as CodeUnit, k)
    else
      match EscapeLetter(s[j])
      case Some(c) => Parsed(c, j + 1)
      case None => Failed(Unexpected(s, j), j)
  }

  /** One round of the loop of parse_raw_string (json.c:227-255): the code
      units buf[0 .. chars) it produces from position i. */
  function UnitsAt(s: seq<char>, i: nat): (r: Scan<seq<CodeUnit>>)
    requires Buffer(s) && i < |s|
    ensures r.Parsed? ==> i < r.next < |s| && 1 <= |r.value| <= 2
    ensures r.Failed? ==> i <= r.at < |s|
  {
    if s[i] == '\\' then
      var (u, j) :- EscapeAt(s, i);
      if IsHighSurrogate(u) then
        if s[j] == '\\' then
          var (u2, k) :- EscapeAt(s, j);
          if IsLowSurrogate(u2) then Parsed([CombineSurrogates(u, u2)], k)
          else Parsed([Replacement, u2], k)
        else Parsed([Replacement], j)
      else if IsLowSurrogate(u) then Parsed([Replacement], j)
      else Parsed([u], j)
    else if IsCntrl(s[i]) then Failed(Unexpected(s, i), i)
    else Parsed([s[i] as int as CodeUnit], i + 1)
  }

  /** One round never writes more than six bytes, the worst case the
      growth check of parse_raw_string leaves room for (json.c:257): a
      surrogate pair is one code point of four bytes, and the two units of
      an unpaired high surrogate each fit into three. */
  lemma UnitsRoom(s: seq<char>, i: nat)
    requires Buffer(s) && i < |s| && UnitsAt(s, i).Parsed?
    ensures |Encode(UnitsAt(s, i).value)| <= 6
  {
    var units := UnitsAt(s, i).value;
    EncodeBound(units);
    if |units| == 2 {
      assert s[i] == '\\';
      var e := EscapeAt(s, i);
      assert IsHighSurrogate(e.value) && s[e.next] == '\\';
      var u2 := EscapeAt(s, e.next).value;
      assert units == [Replacement, u2];
      EncodePointLength(Replacement);
      EncodePointLength(u2);
      EncodeSnoc(units, 0);
      EncodeSnoc(units, 1);
      assert units[..2] == units && units[..0] == [];
      assert |Encode(units)| == |EncodePoint(Replacement)| + |EncodePoint(u2)|;
    }
  }

  /** The capacity parse_raw_string grows its buffer to before the encode
      of a round, or None for "too long string" (json.c:257-264). */
  function Grown(len: nat, alloc: nat): (r: Option<nat>)
    requires alloc >= InitialStringAlloc
    ensures r.Some? ==> alloc <= r.value
    ensures r.Some? && len + 7 <= alloc ==> r.value == alloc
  {
    if len > alloc - 6 - 1 then
      if alloc > SizeMax / 3 then None else Some(alloc * 3 / 2)
    else Some(alloc)
  }

  /** The loop of parse_raw_string from position i, with the bytes out
      written so far into a buffer of alloc bytes. */
  function StringFrom(s: seq<char>, i: nat, out: seq<Byte>, alloc: nat): (r: Scan<seq<Byte>>)
    requires Buffer(s) && i < |s| && alloc >= InitialStringAlloc
    ensures r.Parsed? ==> i < r.next < |s|
    ensures r.Failed? ==> i <= r.at < |s|
    decreases |s| - i
  {
    if s[i] == '"' then Parsed(out, Advance(s, i, true))
    else
      var (units, j) :- UnitsAt(s, i);
      match Grown(|out|, alloc)
      case None => Failed(TooLongString, j)
      case Some(alloc') => StringFrom(s, j, out + Encode(units), alloc')
  }

  /** parse_raw_string (json.c:219-274): the opening quote is consumed with
      skip_space still on, so white space right after it is dropped. */
  function StringAt(s: seq<char>, i: nat): (r: Scan<seq<Byte>>)
    requires Buffer(s) && i < |s|
    ensures r.Parsed? ==> i < r.next < |s|
    ensures r.Failed? ==> i <= r.at < |s|
  {
    var (_, j) :- ExpectAt(s, i, '"', true);
    StringFrom(s, j, [], InitialStringAlloc)
  }

  /** parse_string (json.c:277-283): a string value. */
  function StringValueAt(s: seq<char>, i: nat): (r: Scan<Value>)
    requires Buffer(s) && i < |s|
    ensures r.Parsed? ==> i < r.next < |s| && r.value.String?
    ensures r.Failed? ==> i <= r.at < |s|
  {
    var (text, j) :- StringAt(s, i);
    Parsed(String(text), j)
  }

  // ---------------------------------------------------------------------
  // parse_number, parse_keyword

  /** while (isdigit(next(p))) consume(p); */
  function DigitRun(s: seq<char>, i: nat): (j: nat)
    requires Buffer(s) && i < |s|
    ensures i <= j < |s| && !IsDigit(s[j])
    decreases |s| - i
  {
    if IsDigit(s[i]) then DigitRun(s, Advance(s, i, true)) else i
  }

  /** A digit that must be there, then the rest of the run (json.c:384-389,
      398-402). */
  function DigitsAt(s: seq<char>, i: nat): (r: Scan<()>)
    requires Buffer(s) && i < |s|
    ensures r.Parsed? ==> i < r.next < |s| && !IsDigit(s[r.next])
    ensures r.Failed? <==> !IsDigit(s[i])
    ensures r.Failed? ==> r == Failed(Unexpected(s, i), i)
  {
    if !IsDigit(s[i]) then Failed(Unexpected(s, i), i)
    else Parsed((), DigitRun(s, Advance(s, i, true)))
  }

  /** The integer part (json.c:375-380): a digit, and more digits unless it
      is a 0. */
  function IntegerAt(s: seq<char>, i: nat): (r: Scan<()>)
    requires Buffer(s) && i < |s|
    ensures r.Parsed? ==> i < r.next < |s|
    ensures r.Failed? <==> !IsDigit(s[i])
    ensures r.Failed? ==> r == Failed(Unexpected(s, i), i)
  {
    if !IsDigit(s[i]) then Failed(Unexpected(s, i), i)
    else if s[i] == '0' then Parsed((), Advance(s, i, true))
    else Parsed((), DigitRun(s, Advance(s, i, true)))
  }

  /** The optional fraction (json.c:382-390). */
  function FractionAt(s: seq<char>, i: nat): (r: Scan<()>)
    requires Buffer(s) && i < |s|
    ensures r.Parsed? ==> i <= r.next < |s| && (r.next == i <==> s[i] != '.')
    ensures r.Failed? ==> i < r.at < |s|
  {
    if s[i] == '.' then DigitsAt(s, Advance(s, i, true)) else Parsed((), i)
  }

  /** Where the sign of an exponent may sit: after the e, and after the sign
      if there is one. */
  function SignSkipped(s: seq<char>, j: nat): (k: nat)
    requires Buffer(s) && j < |s|
    ensures j <= k < |s|
  {
    if s[j] == '+' || s[j] == '-' then Advance(s, j, true) else j
  }

  /** The optional exponent (json.c:392-403). */
  function ExponentAt(s: seq<char>, i: nat): (r: Scan<()>)
    requires Buffer(s) && i < |s|
    ensures r.Parsed? ==> i <= r.next < |s| && (r.next == i <==> ToLower(s[i]) != 'e')
    ensures r.Failed? ==> i < r.at < |s|
  {
    if ToLower(s[i]) == 'e' then DigitsAt(s, SignSkipped(s, Advance(s, i, true)))
    else Parsed((), i)
  }

  /** The grammar check of parse_number (json.c:371-403): an optional
      minus, the integer part, the fraction and the exponent. */
  function NumberScanAt(s: seq<char>, i: nat): (r: Scan<()>)
    requires Buffer(s) && i < |s|
    ensures r.Parsed? ==> i < r.next < |s|
    ensures r.Failed? ==> i <= r.at < |s|
  {
    var j := if s[i] == '-' then Advance(s, i, true) else i;
    var (_, a) :- IntegerAt(s, j);
    var (_, b) :- FractionAt(s, a);
    ExponentAt(s, b)
  }

  /** The length of the run of digits at s[i..]. */
  function DigitCount(s: seq<char>, i: nat): (n: nat)
    requires i <= |s|
    ensures i + n <= |s|
    ensures i + n < |s| ==> !IsDigit(s[i + n])
    decreases |s| - i
  {
    if i < |s| && IsDigit(s[i]) then 1 + DigitCount(s, i + 1) else 0
  }

  /** Where the exponent part strtod accepts at position c ends: an e or E,
      an optional sign and at least one digit; c itself when there is none. */
  function ExponentEnd(s: seq<char>, c: nat): (e: nat)
    requires c <= |s|
    ensures c <= e <= |s|
  {
    if c < |s| && ToLower(s[c]) == 'e' then
      var d := if c + 1 < |s| && (s[c + 1] == '+' || s[c + 1] == '-') then c + 2 else c + 1;
      var n := DigitCount(s, d);
      if n > 0 then d + n else c
    else c
  }

  /** The text strtod converts at position i: the longest prefix of s[i..]
      that is an optional sign, a non-empty sequence of digits optionally
      containing a decimal point, and an optional exponent part (the
      decimal subject sequence of section 7.22.1.3 of ISO C11); empty when
      strtod converts nothing.  The hexadecimal, infinity and NaN forms are
      not modelled. */
  function StrtodText(s: seq<char>, i: nat): (t: seq<char>)
    requires i <= |s|
    ensures i + |t| <= |s| && t == s[i..i + |t|]
  {
    var a := if i < |s| && (s[i] == '+' || s[i] == '-') then i + 1 else i;
    var whole := DigitCount(s, a);
    var b := a + whole;
    var fraction := if b < |s| && s[b] == '.' then DigitCount(s, b + 1) else 0;
    var c := if b < |s| && s[b] == '.' then b + 1 + fraction else b;
    if whole + fraction == 0 then [] else s[i..ExponentEnd(s, c)]
  }

  /** parse_number (json.c:365-410), from position i.  The scanner checks the
      number's grammar with skip_space on, so white space may sit between its
      parts; strtod then converts from i, stopping at the first such space,
      and "strtod failed" is raised when it converts nothing. */
  function NumberAt(s: seq<char>, i: nat): (r: Scan<Value>)
    requires Buffer(s) && i < |s|
    ensures r.Parsed? ==> i < r.next < |s| && r.value.Number?
    ensures r.Failed? ==> i <= r.at < |s|
  {
    var (_, c) :- NumberScanAt(s, i);
    var text := StrtodText(s, i);
    if text == [] then Failed(ConversionFailed, c) else Parsed(Number(text), c)
  }

  /** The expect loop of parse_keyword (json.c:417-418) from letter n on. */
  function Letters(s: seq<char>, i: nat, word: string, n: nat): (r: Scan<()>)
    requires Buffer(s) && i < |s| && n <= |word|
    requires forall k :: 0 <= k < |word| ==> word[k] != '\0'
    ensures r.Parsed? ==> i <= r.next < |s|
    ensures r.Failed? ==> i <= r.at < |s|
    decreases |s| - i
  {
    if n == |word| then Parsed((), i)
    else
      var (_, j) :- ExpectAt(s, i, word[n], true);
      Letters(s, j, word, n + 1)
  }

  /** parse_keyword (json.c:412-420): the first letter has been matched by
      parse_value; the others are expected one by one. */
  function KeywordAt(s: seq<char>, i: nat, word: string): (r: Scan<()>)
    requires Buffer(s) && i < |s| && |word| > 0 && s[i] == word[0]
    requires forall k :: 0 <= k < |word| ==> word[k] != '\0'
    ensures r.Parsed? ==> i < r.next < |s|
    ensures r.Failed? ==> i < r.at < |s|
  {
    Letters(s, Advance(s, i, true), word, 1)
  }

  // ---------------------------------------------------------------------
  // parse_value, parse_object, parse_array

  /** The bytes parse_value dispatches on (json.c:425-451). */
  predicate StartsValue(c: char)
  {
    c == '{' || c == '[' || c == '"' || c == '-' || IsDigit(c) || c == 't' || c == 'f' || c == 'n'
  }

  /** parse_value (json.c:422-453). */
  function ValueAt(s: seq<char>, i: nat): (r: Scan<Value>)
    requires Buffer(s) && i < |s|
    ensures r.Parsed? ==> i < r.next < |s|
    ensures r.Failed? ==> i <= r.at < |s|
    decreases |s| - i, 2
  {
    var c := s[i];
    if c == '{' then ObjectAt(s, i)
    else if c == '[' then ArrayAt(s, i)
    else if c == '"' then StringValueAt(s, i)
    else if c == '-' || IsDigit(c) then NumberAt(s, i)
    else LiteralAt(s, i)
  }

  /** The keyword cases of parse_value (json.c:435-450) and its default. */
  function LiteralAt(s: seq<char>, i: nat): (r: Scan<Value>)
    requires Buffer(s) && i < |s|
    ensures r.Parsed? ==> i < r.next < |s|
    ensures r.Failed? ==> i <= r.at < |s|
  {
    var c := s[i];
    if c == 't' then var (_, j) :- KeywordAt(s, i, "true"); Parsed(Boolean(true), j)
    else if c == 'f' then var (_, j) :- KeywordAt(s, i, "false"); Parsed(Boolean(false), j)
    else if c == 'n' then var (_, j) :- KeywordAt(s, i, "null"); Parsed(Null, j)
    else Failed(Unexpected(s, i), i)
  }

  /** parse_object (json.c:287-326), from its opening brace. */
  function ObjectAt(s: seq<char>, i: nat): (r: Scan<Value>)
    requires Buffer(s) && i < |s| && s[i] == '{'
    ensures r.Parsed? ==> i < r.next < |s| && r.value.Object?
    ensures r.Failed? ==> i < r.at < |s|
    decreases |s| - i, 1
  {
    var j := Advance(s, i, true);
    if s[j] == '}' then Parsed(Object([]), Advance(s, j, true))
    else Members(s, j, [])
  }

  /** One member of an object (json.c:303-305): a name, a colon, a value. */
  function Member(s: seq<char>, i: nat): (r: Scan<Property>)
    requires Buffer(s) && i < |s|
    ensures r.Parsed? ==> i < r.next < |s|
    ensures r.Failed? ==> i <= r.at < |s|
    decreases |s| - i, 0
  {
    var (name, j) :- StringAt(s, i);
    var (_, k) :- ExpectAt(s, j, ':', true);
    var (v, m) :- ValueAt(s, k);
    Parsed(Property(name, v), m)
  }

  /** The member loop of parse_object (json.c:300-322) from position i,
      with the properties props read so far. */
  function Members(s: seq<char>, i: nat, props: seq<Property>): (r: Scan<Value>)
    requires Buffer(s) && i < |s|
    ensures r.Parsed? ==> i < r.next < |s| && r.value.Object?
    ensures r.Failed? ==> i <= r.at < |s|
    decreases |s| - i, 1
  {
    var (p, m) :- Member(s, i);
    if |props| == MaxItems then Failed(TooBigObject, m)
    else if s[m] == '}' then Parsed(Object(props + [p]), Advance(s, m, true))
    else
      var (_, n) :- ExpectAt(s, m, ',', true);
      Members(s, n, props + [p])
  }

  /** parse_array (json.c:328-363), from its opening bracket. */
  function ArrayAt(s: seq<char>, i: nat): (r: Scan<Value>)
    requires Buffer(s) && i < |s| && s[i] == '['
    ensures r.Parsed? ==> i < r.next < |s| && r.value.Array?
    ensures r.Failed? ==> i < r.at < |s|
    decreases |s| - i, 1
  {
    var j := Advance(s, i, true);
    if s[j] == ']' then Parsed(Array([]), Advance(s, j, true))
    else Elements(s, j, [])
  }

  /** The element loop of parse_array from position i, with the values read
      so far. */
  function Elements(s: seq<char>, i: nat, values: seq<Value>): (r: Scan<Value>)
    requires Buffer(s) && i < |s|
    ensures r.Parsed? ==> i < r.next < |s| && r.value.Array?
    ensures r.Failed? ==> i <= r.at < |s|
    decreases |s| - i, 3
  {
    var (v, m) :- ValueAt(s, i);
    if |values| == MaxItems then Failed(TooBigArray, m)
    else if s[m] == ']' then Parsed(Array(values + [v]), Advance(s, m, true))
    else
      var (_, n) :- ExpectAt(s, m, ',', true);
      Elements(s, n, values + [v])
  }

  // ---------------------------------------------------------------------
  // json_parse

  /** The body of json_parse (json.c:495-503): white space, one value, and
      then nothing but the NUL. */
  function Top(s: seq<char>): (r: Scan<Value>)
    requires Buffer(s)
    ensures r.Parsed? ==> r.next == |s| - 1
    ensures r.Failed? ==> r.at < |s|
  {
    var (v, j) :- ValueAt(s, SkipWs(s, 0));
    var (_, k) :- ExpectAt(s, j, '\0', true);
    Parsed(v, k)
  }

  /** The line json_parse reports for an error at position at: one plus the
      line breaks skip_space has counted before it. */
  function LineAt(s: seq<char>, at: nat): (line: int)
    requires at <= |s|
    ensures line >= 1
  {
    1 + LineBreaks(s, at)
  }

  /** json_parse (json.c:482-504) on the C string text: the tree, or the
      line and error it reports. */
  function Document(text: string): (r: Result<Value, Report>)
    requires IsCText(text)
    ensures r.Err? ==> r.error.line >= 1
  {
    TextBuffer(text);
    var s := text + ['\0'];
    match Top(s)
    case Parsed(v, _) => Ok(v)
    case Failed(e, at) => Err(Report(LineAt(s, at), e))
  }
}
