/** json_parse on short documents: the corners of its grammar that the
    scanner's white space skipping and its error paths produce. */
module JsonQuirks {
  import opened Ascii
  import opened Unicode
  import opened JsonTypes
  import opened Grammar
  import opened GrammarLaws
  import opened JsonProperties

  /** A leading zero ends the integer part, so "01" scans the number 0 and
      the final expect of json_parse finds the 1 (json.c:377, 501). */
  lemma LeadingZero()
    ensures Document("01") == Err(Report(1, Expected('1', '\0')))
  {
    var s := "01" + ['\0'];
    TextBuffer("01");
    assert s == ['0', '1', '\0'];
    assert SkipWs(s, 0) == 0 && SkipWs(s, 1) == 1;
    assert NumberScanAt(s, 0) == Parsed((), 1);
    assert DigitCount(s, 2) == 0 && DigitCount(s, 0) == 2;
    assert StrtodText(s, 0) == s[0..2] == "01";
    NumberValue(s, 0);
    assert ExpectAt(s, 1, '\0', true) == Failed(Expected('1', '\0'), 1);
    assert Top(s) == Failed(Expected('1', '\0'), 1);
    assert LineBreaks(s, 1) == 0;
  }

  /** White space between the letters of a keyword is skipped, so "t r u e"
      is the value true (json.c:416-418). */
  lemma SpacedKeyword()
    ensures Document("t r u e") == Ok(Boolean(true))
  {
    var s := "t r u e" + ['\0'];
    TextBuffer("t r u e");
    assert s == ['t', ' ', 'r', ' ', 'u', ' ', 'e', '\0'];
    assert SkipWs(s, 0) == 0 && SkipWs(s, 2) == 2 && SkipWs(s, 4) == 4 && SkipWs(s, 6) == 6 && SkipWs(s, 7) == 7;
    assert Letters(s, 7, "true", 4) == Parsed((), 7);
    assert Letters(s, 6, "true", 3) == Parsed((), 7);
    assert Letters(s, 4, "true", 2) == Parsed((), 7);
    assert Letters(s, 2, "true", 1) == Parsed((), 7);
    LiteralValue(s, 0);
    assert ValueAt(s, 0) == Parsed(Boolean(true), 7);
  }

  /** A keyword cut short at the end of input fails in expect, which names
      the letter it wanted rather than the end of input (json.c:135-141). */
  lemma CutKeyword()
    ensures Document("tru") == Err(Report(1, Expected('\0', 'e')))
  {
    var s := "tru" + ['\0'];
    TextBuffer("tru");
    assert s == ['t', 'r', 'u', '\0'];
    assert SkipWs(s, 0) == 0 && SkipWs(s, 1) == 1 && SkipWs(s, 2) == 2 && SkipWs(s, 3) == 3;
    assert Letters(s, 3, "true", 3) == Failed(Expected('\0', 'e'), 3);
    assert Letters(s, 2, "true", 2) == Failed(Expected('\0', 'e'), 3);
    assert Letters(s, 1, "true", 1) == Failed(Expected('\0', 'e'), 3);
    LiteralValue(s, 0);
    assert ValueAt(s, 0) == Failed(Expected('\0', 'e'), 3);
    NoBreaksWithoutTerminators(s, 3);
  }

  /** Nothing but white space is an unexpected end of input. */
  lemma EmptyText()
    ensures Document("") == Err(Report(1, UnexpectedEnd))
  {
    var s := "" + ['\0'];
    TextBuffer("");
    assert s == ['\0'];
    assert SkipWs(s, 0) == 0;
    assert ValueAt(s, 0) == Failed(UnexpectedEnd, 0);
  }

  /** The scanner skips white space inside a number, but strtod stops at
      it: "1 2" is one number whose text is "1" (json.c:378-380, 405). */
  lemma SpacedNumber()
    ensures Document("1 2") == Ok(Number("1"))
  {
    var s := "1 2" + ['\0'];
    TextBuffer("1 2");
    assert s == ['1', ' ', '2', '\0'];
    assert SkipWs(s, 1) == 2;
    assert SkipWs(s, 3) == 3;
    assert DigitRun(s, 3) == 3 && DigitRun(s, 2) == 3;
    assert NumberScanAt(s, 0) == Parsed((), 3);
    assert DigitCount(s, 1) == 0 && DigitCount(s, 0) == 1;
    assert StrtodText(s, 0) == s[0..1] == "1";
    NumberValue(s, 0);
    assert ValueAt(s, 0) == Parsed(Number("1"), 3);
  }

  /** A sign the scanner lets white space follow is not a number to
      strtod: "- 1" fails with "strtod failed" (json.c:372-373, 405-407). */
  lemma SpacedSign()
    ensures Document("- 1") == Err(Report(1, ConversionFailed))
  {
    var s := "- 1" + ['\0'];
    TextBuffer("- 1");
    assert s == ['-', ' ', '1', '\0'];
    assert SkipWs(s, 1) == 2 && SkipWs(s, 3) == 3;
    assert DigitRun(s, 3) == 3;
    assert NumberScanAt(s, 0) == Parsed((), 3);
    assert DigitCount(s, 1) == 0;
    assert StrtodText(s, 0) == [];
    NumberValue(s, 0);
    assert ValueAt(s, 0) == Failed(ConversionFailed, 3);
    NoBreaksWithoutTerminators(s, 3);
  }

  /** An empty object has no members. */
  lemma EmptyObject()
    ensures Document("{}") == Ok(Object([]))
  {
    var s := "{}" + ['\0'];
    TextBuffer("{}");
    assert s == ['{', '}', '\0'];
    assert SkipWs(s, 0) == 0 && SkipWs(s, 1) == 1 && SkipWs(s, 2) == 2;
    ObjectValue(s, 0);
    assert ValueAt(s, 0) == Parsed(Object([]), 2);
  }

  /** An empty array, with white space inside, has no elements. */
  lemma EmptyArray()
    ensures Document("[ ]") == Ok(Array([]))
  {
    var s := "[ ]" + ['\0'];
    TextBuffer("[ ]");
    assert s == ['[', ' ', ']', '\0'];
    assert SkipWs(s, 1) == 2;
    assert SkipWs(s, 3) == 3;
    ArrayValue(s, 0);
    assert ValueAt(s, 0) == Parsed(Array([]), 3);
  }

  /** A comma must be followed by another element: "[1,]" fails on the
      bracket. */
  lemma TrailingComma()
    ensures Document("[1,]") == Err(Report(1, UnexpectedToken(']')))
  {
    var s := "[1,]" + ['\0'];
    TextBuffer("[1,]");
    assert s == ['[', '1', ',', ']', '\0'];
    TrailingCommaAt(s);
    ArrayValue(s, 0);
    assert SkipWs(s, 0) == 0;
    NoBreaksWithoutTerminators(s, 3);
  }

  /** The same on any buffer that holds those bytes. */
  lemma TrailingCommaAt(s: seq<char>)
    requires Buffer(s) && |s| == 5 && s[0] == '[' && s[1] == '1' && s[2] == ',' && s[3] == ']'
    ensures ArrayAt(s, 0) == Failed(UnexpectedToken(']'), 3)
  {
    assert SkipWs(s, 1) == 1 && SkipWs(s, 3) == 3;
    assert s[1..2] == "1";
    SingleDigit(s, 1);
    assert LiteralAt(s, 3) == Failed(UnexpectedToken(']'), 3);
    assert ValueAt(s, 3) == Failed(UnexpectedToken(']'), 3);
    assert ExpectAt(s, 2, ',', true) == Parsed((), 3);
    assert Elements(s, 3, [Number("1")]) == Failed(UnexpectedToken(']'), 3);
    assert Elements(s, 1, []) == Failed(UnexpectedToken(']'), 3);
  }

  /** skip_space counts a CR LF pair as one line and an LF as another, so
      the bracket after "\r\n\n" is on line 3. */
  lemma LineCount()
    ensures Document("[1,\r\n\n]") == Err(Report(3, UnexpectedToken(']')))
  {
    var s := "[1,\r\n\n]" + ['\0'];
    TextBuffer("[1,\r\n\n]");
    assert s == ['[', '1', ',', '\r', '\n', '\n', ']', '\0'];
    LineCountAt(s);
    ArrayValue(s, 0);
    assert SkipWs(s, 0) == 0;
  }

  /** The same on any buffer that holds those bytes. */
  lemma LineCountAt(s: seq<char>)
    requires Buffer(s) && |s| == 8 && s[0] == '[' && s[1] == '1' && s[2] == ','
    requires s[3] == '\r' && s[4] == '\n' && s[5] == '\n' && s[6] == ']'
    ensures ArrayAt(s, 0) == Failed(UnexpectedToken(']'), 6)
    ensures LineAt(s, 6) == 3
  {
    assert SkipWs(s, 1) == 1 && SkipWs(s, 6) == 6;
    assert SkipWs(s, 5) == 6 && SkipWs(s, 4) == 6;
    assert SkipWs(s, 3) == 6;
    assert s[1..2] == "1";
    SingleDigit(s, 1);
    assert LiteralAt(s, 6) == Failed(UnexpectedToken(']'), 6);
    assert ValueAt(s, 6) == Failed(UnexpectedToken(']'), 6);
    assert ExpectAt(s, 2, ',', true) == Parsed((), 6);
    assert Elements(s, 6, [Number("1")]) == Failed(UnexpectedToken(']'), 6);
    assert Elements(s, 1, []) == Failed(UnexpectedToken(']'), 6);
    NoBreaksWithoutTerminators(s, 3);
    assert LineBreaks(s, 4) == 1;
    assert LineBreaks(s, 5) == 1;
    assert LineBreaks(s, 6) == 2;
  }

  /** A string the input ends inside fails on the NUL, which iscntrl
      takes for a control byte: "unexpected end of input". */
  lemma OpenString()
    ensures Document("\"ab") == Err(Report(1, UnexpectedEnd))
  {
    var s := "\"ab" + ['\0'];
    TextBuffer("\"ab");
    assert s == ['"', 'a', 'b', '\0'];
    OpenStringAt(s);
    StringValue(s, 0);
    assert SkipWs(s, 0) == 0;
    NoBreaksWithoutTerminators(s, 3);
  }

  /** The same on any buffer that holds those bytes. */
  lemma OpenStringAt(s: seq<char>)
    requires Buffer(s) && |s| == 4 && s[0] == '"' && s[1] == 'a' && s[2] == 'b'
    ensures StringValueAt(s, 0) == Failed(UnexpectedEnd, 3)
  {
    assert SkipWs(s, 1) == 1;
    PlainStep(s, 1, [], InitialStringAlloc, [0x61]);
    PlainStep(s, 2, [0x61], InitialStringAlloc, [0x61, 0x62]);
    assert UnitsAt(s, 3) == Failed(UnexpectedEnd, 3);
  }

  /** The opening quote is consumed while skip_space is still on, so the
      white space after it is not part of the string (json.c:224-225). */
  lemma QuoteThenSpace()
    ensures Document("\" a\"") == Ok(String([0x61]))
  {
    var s := "\" a\"" + ['\0'];
    TextBuffer("\" a\"");
    assert s == ['"', ' ', 'a', '"', '\0'];
    QuoteThenSpaceAt(s);
    StringValue(s, 0);
    assert SkipWs(s, 0) == 0;
  }

  /** The same on any buffer that holds those bytes. */
  lemma QuoteThenSpaceAt(s: seq<char>)
    requires Buffer(s) && |s| == 5 && s[0] == '"' && s[1] == ' ' && s[2] == 'a' && s[3] == '"'
    ensures StringValueAt(s, 0) == Parsed(String([0x61]), 4)
  {
    NulIsLast(s, 4);
    assert SkipWs(s, 1) == 2;
    assert SkipWs(s, 4) == 4;
    PlainStep(s, 2, [], InitialStringAlloc, [0x61]);
    assert StringFrom(s, 3, [0x61], InitialStringAlloc) == Parsed([0x61], 4);
  }

  // ---------------------------------------------------------------------
  // Unpaired surrogates

  /** The escape \uD834, a high surrogate, at position i. */
  lemma HighEscape(s: seq<char>, i: nat)
    requires Buffer(s) && i + 6 < |s| && s[i] == '\\' && s[i + 1] == 'u'
    requires s[i + 2] == 'D' && s[i + 3] == '8' && s[i + 4] == '3' && s[i + 5] == '4'
    ensures EscapeAt(s, i) == Parsed(0xD834, i + 6) && IsHighSurrogate(0xD834)
  {
    Hexquad(s, i + 2);
    assert QuadValue('D', '8', '3', '4') == 0xD834;
  }

  /** U+FFFD in UTF-8. */
  lemma ReplacementBytes()
    ensures Encode([Replacement]) == [0xEF, 0xBF, 0xBD]
  {
    EncodePointBytes(Replacement);
    assert [Replacement][..0] == [];
  }

  /** U+FFFD and then the unit 0xD834 itself, encoded as if it were a
      code point. */
  lemma ReplacementThenHigh()
    ensures Encode([Replacement, 0xD834]) == [0xEF, 0xBF, 0xBD, 0xED, 0xA0, 0xB4]
  {
    var units: seq<CodeUnit> := [Replacement, 0xD834];
    ReplacementBytes();
    assert units[..1] == [Replacement];
    EncodePointBytes(0xD834);
  }

  /** A high surrogate that no backslash follows becomes U+FFFD, and the
      byte after it is kept (json.c:245-246). */
  lemma LoneHigh()
    ensures Document("\"\\uD834x\"") == Ok(String([0xEF, 0xBF, 0xBD, 0x78]))
  {
    var s := "\"\\uD834x\"" + ['\0'];
    TextBuffer("\"\\uD834x\"");
    assert s == ['"', '\\', 'u', 'D', '8', '3', '4', 'x', '"', '\0'];
    LoneHighAt(s);
    StringValue(s, 0);
    assert SkipWs(s, 0) == 0;
  }

  /** The same on any buffer that holds those bytes. */
  lemma LoneHighAt(s: seq<char>)
    requires Buffer(s) && |s| == 10 && s[0] == '"' && s[1] == '\\' && s[2] == 'u'
    requires s[3] == 'D' && s[4] == '8' && s[5] == '3' && s[6] == '4' && s[7] == 'x' && s[8] == '"'
    ensures StringValueAt(s, 0) == Parsed(String([0xEF, 0xBF, 0xBD, 0x78]), 9)
  {
    assert SkipWs(s, 1) == 1 && SkipWs(s, 9) == 9;
    HighEscape(s, 1);
    assert UnitsAt(s, 1) == Parsed([Replacement], 7);
    ReplacementBytes();
    UnitsStep(s, 1, [], InitialStringAlloc, [0xEF, 0xBF, 0xBD]);
    PlainStep(s, 7, [0xEF, 0xBF, 0xBD], InitialStringAlloc, [0xEF, 0xBF, 0xBD, 0x78]);
    assert StringFrom(s, 8, [0xEF, 0xBF, 0xBD, 0x78], InitialStringAlloc) == Parsed([0xEF, 0xBF, 0xBD, 0x78], 9);
  }

  /** A high surrogate followed by an escape that is not a low surrogate
      becomes U+FFFD and then that second unit unchanged, even when it is
      itself a high surrogate (json.c:240-243). */
  lemma HighThenHigh()
    ensures Document("\"\\uD834\\uD834\"")
         == Ok(String([0xEF, 0xBF, 0xBD, 0xED, 0xA0, 0xB4]))
  {
    var s := "\"\\uD834\\uD834\"" + ['\0'];
    TextBuffer("\"\\uD834\\uD834\"");
    assert s == ['"', '\\', 'u', 'D', '8', '3', '4', '\\', 'u', 'D', '8', '3', '4', '"', '\0'];
    HighThenHighAt(s);
    StringValue(s, 0);
    assert SkipWs(s, 0) == 0;
  }

  /** The same on any buffer that holds those bytes. */
  lemma HighThenHighAt(s: seq<char>)
    requires Buffer(s) && |s| == 15 && s[0] == '"' && s[1] == '\\' && s[2] == 'u'
    requires s[3] == 'D' && s[4] == '8' && s[5] == '3' && s[6] == '4' && s[7] == '\\' && s[8] == 'u'
    requires s[9] == 'D' && s[10] == '8' && s[11] == '3' && s[12] == '4' && s[13] == '"'
    ensures StringValueAt(s, 0) == Parsed(String([0xEF, 0xBF, 0xBD, 0xED, 0xA0, 0xB4]), 14)
  {
    assert SkipWs(s, 1) == 1 && SkipWs(s, 14) == 14;
    HighEscape(s, 1);
    HighEscape(s, 7);
    assert UnitsAt(s, 1) == Parsed([Replacement, 0xD834], 13);
    ReplacementThenHigh();
    UnitsStep(s, 1, [], InitialStringAlloc, [0xEF, 0xBF, 0xBD, 0xED, 0xA0, 0xB4]);
    assert StringFrom(s, 13, [0xEF, 0xBF, 0xBD, 0xED, 0xA0, 0xB4], InitialStringAlloc)
        == Parsed([0xEF, 0xBF, 0xBD, 0xED, 0xA0, 0xB4], 14);
  }

  /** A low surrogate on its own becomes U+FFFD (json.c:244-246). */
  lemma LoneLow()
    ensures Document("\"\\uDD1E\"") == Ok(String([0xEF, 0xBF, 0xBD]))
  {
    var s := "\"\\uDD1E\"" + ['\0'];
    TextBuffer("\"\\uDD1E\"");
    assert s == ['"', '\\', 'u', 'D', 'D', '1', 'E', '"', '\0'];
    LoneLowAt(s);
    StringValue(s, 0);
    assert SkipWs(s, 0) == 0;
  }

  /** The same on any buffer that holds those bytes. */
  lemma LoneLowAt(s: seq<char>)
    requires Buffer(s) && |s| == 9 && s[0] == '"' && s[1] == '\\' && s[2] == 'u'
    requires s[3] == 'D' && s[4] == 'D' && s[5] == '1' && s[6] == 'E' && s[7] == '"'
    ensures StringValueAt(s, 0) == Parsed(String([0xEF, 0xBF, 0xBD]), 8)
  {
    assert SkipWs(s, 1) == 1 && SkipWs(s, 8) == 8;
    Hexquad(s, 3);
    assert QuadValue('D', 'D', '1', 'E') == 0xDD1E;
    assert EscapeAt(s, 1) == Parsed(0xDD1E, 7);
    assert UnitsAt(s, 1) == Parsed([Replacement], 7);
    ReplacementBytes();
    UnitsStep(s, 1, [], InitialStringAlloc, [0xEF, 0xBF, 0xBD]);
    assert StringFrom(s, 7, [0xEF, 0xBF, 0xBD], InitialStringAlloc) == Parsed([0xEF, 0xBF, 0xBD], 8);
  }

  // ---------------------------------------------------------------------
  // Duplicate names

  /** The member "a":d at position i, for a digit d followed by a comma or
      a closing brace. */
  lemma MemberA(s: seq<char>, i: nat)
    requires Buffer(s) && i + 5 < |s| && s[i] == '"' && s[i + 1] == 'a' && s[i + 2] == '"'
    requires s[i + 3] == ':' && IsDigit(s[i + 4]) && (s[i + 5] == ',' || s[i + 5] == '}')
    ensures Member(s, i) == Parsed(Property([0x61], Number(s[i + 4..i + 5])), i + 5)
  {
    NameA(s, i);
    assert SkipWs(s, i + 4) == i + 4;
    assert ExpectAt(s, i + 3, ':', true) == Parsed((), i + 4);
    SingleDigit(s, i + 4);
  }

  /** The name "a" at position i, before a byte that is not white space. */
  lemma NameA(s: seq<char>, i: nat)
    requires Buffer(s) && i + 3 < |s| && s[i] == '"' && s[i + 1] == 'a' && s[i + 2] == '"'
    requires s[i + 3] != '\0' && !IsSpace(s[i + 3])
    ensures StringAt(s, i) == Parsed([0x61], i + 3)
  {
    assert SkipWs(s, i + 1) == i + 1;
    assert SkipWs(s, i + 3) == i + 3;
    assert ExpectAt(s, i, '"', true) == Parsed((), i + 1);
    PlainStep(s, i + 1, [], InitialStringAlloc, [0x61]);
    assert StringFrom(s, i + 2, [0x61], InitialStringAlloc) == Parsed([0x61], i + 3);
  }

  /** An object keeps a repeated name as two members, in input order. */
  lemma DuplicateNames()
    ensures Document("{\"a\":1,\"a\":2}")
         == Ok(Object([Property([0x61], Number("1")), Property([0x61], Number("2"))]))
  {
    var s := "{\"a\":1,\"a\":2}" + ['\0'];
    TextBuffer("{\"a\":1,\"a\":2}");
    assert s == ['{', '"', 'a', '"', ':', '1', ',', '"', 'a', '"', ':', '2', '}', '\0'];
    DuplicateNamesAt(s);
    ObjectValue(s, 0);
    assert SkipWs(s, 0) == 0;
  }

  /** The same on any buffer that holds those bytes. */
  lemma DuplicateNamesAt(s: seq<char>)
    requires Buffer(s) && |s| == 14 && s[0] == '{' && s[1] == '"' && s[2] == 'a' && s[3] == '"'
    requires s[4] == ':' && s[5] == '1' && s[6] == ',' && s[7] == '"' && s[8] == 'a' && s[9] == '"'
    requires s[10] == ':' && s[11] == '2' && s[12] == '}'
    ensures ObjectAt(s, 0) == Parsed(Object([Property([0x61], Number("1")), Property([0x61], Number("2"))]), 13)
  {
    var one := Property([0x61], Number("1"));
    assert SkipWs(s, 1) == 1 && SkipWs(s, 7) == 7;
    MemberA(s, 1);
    assert s[5..6] == "1";
    MemberThenComma(s, 1, [], one, 6, [one]);
    SecondMemberA(s, [one]);
    assert [one] + [Property([0x61], Number("2"))] == [one, Property([0x61], Number("2"))];
    assert ObjectAt(s, 0) == Members(s, 1, []);
  }

  /** The second member and the closing brace. */
  lemma SecondMemberA(s: seq<char>, props: seq<Property>)
    requires Buffer(s) && |s| == 14 && s[7] == '"' && s[8] == 'a' && s[9] == '"'
    requires s[10] == ':' && s[11] == '2' && s[12] == '}' && |props| == 1
    ensures Members(s, 7, props) == Parsed(Object(props + [Property([0x61], Number("2"))]), 13)
  {
    var two := Property([0x61], Number("2"));
    assert SkipWs(s, 13) == 13;
    MemberA(s, 7);
    assert s[11..12] == "2";
    MemberThenClose(s, 7, props, two, 12, props + [two]);
  }

  // ---------------------------------------------------------------------
  // Numbers

  /** Every part of the number grammar at once: a minus, a zero integer
      part, a fraction and a signed exponent with a capital E. */
  lemma FullNumber()
    ensures Document("-0.5E-3") == Ok(Number("-0.5E-3"))
  {
    var s := "-0.5E-3" + ['\0'];
    TextBuffer("-0.5E-3");
    assert s == ['-', '0', '.', '5', 'E', '-', '3', '\0'];
    FullNumberAt(s);
    NumberValue(s, 0);
    assert s[0..7] == "-0.5E-3";
    assert ValueAt(s, 0) == Parsed(Number("-0.5E-3"), 7);
    assert SkipWs(s, 0) == 0;
    assert ExpectAt(s, 7, '\0', true) == Parsed((), 7);
    assert Top(s) == Parsed(Number("-0.5E-3"), 7);
  }

  /** The same on any buffer that holds those bytes. */
  lemma FullNumberAt(s: seq<char>)
    requires Buffer(s) && |s| == 8 && s[0] == '-' && s[1] == '0' && s[2] == '.' && s[3] == '5'
    requires s[4] == 'E' && s[5] == '-' && s[6] == '3'
    ensures NumberAt(s, 0) == Parsed(Number(s[0..7]), 7)
  {
    assert SkipWs(s, 1) == 1 && SkipWs(s, 2) == 2 && SkipWs(s, 3) == 3 && SkipWs(s, 4) == 4;
    assert SkipWs(s, 5) == 5 && SkipWs(s, 6) == 6 && SkipWs(s, 7) == 7;
    assert DigitRun(s, 4) == 4 && DigitRun(s, 7) == 7;
    assert IntegerAt(s, 1) == Parsed((), 2);
    assert FractionAt(s, 2) == Parsed((), 4);
    assert ExponentAt(s, 4) == Parsed((), 7);
    assert NumberScanAt(s, 0) == Parsed((), 7);
    assert DigitCount(s, 7) == 0 && DigitCount(s, 6) == 1;
    assert DigitCount(s, 2) == 0 && DigitCount(s, 1) == 1;
    assert DigitCount(s, 4) == 0 && DigitCount(s, 3) == 1;
    assert ExponentEnd(s, 4) == 7;
    assert StrtodText(s, 0) == s[0..7];
  }

  /** A fraction needs a digit after the point: "1." ends too early. */
  lemma MissingFraction()
    ensures Document("1.") == Err(Report(1, UnexpectedEnd))
  {
    var s := "1." + ['\0'];
    TextBuffer("1.");
    assert s == ['1', '.', '\0'];
    assert SkipWs(s, 0) == 0 && SkipWs(s, 1) == 1 && SkipWs(s, 2) == 2;
    assert DigitRun(s, 1) == 1;
    assert NumberScanAt(s, 0) == Failed(UnexpectedEnd, 2);
    NumberValue(s, 0);
    assert ValueAt(s, 0) == Failed(UnexpectedEnd, 2);
    NoBreaksWithoutTerminators(s, 2);
  }
}
