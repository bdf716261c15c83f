/** Whole documents through json_parse, and the corners of its grammar. */
module JsonProperties {
  import opened Ascii
  import opened Unicode
  import opened JsonTypes
  import opened Grammar
  import opened GrammarLaws

  /** A byte parse_raw_string copies as it is: neither the closing quote,
      nor a backslash, nor a control byte. */
  predicate Plain(c: char)
  {
    c != '"' && c != '\\' && !IsCntrl(c) && c < '\U{80}'
  }

  /** The bytes of an ASCII text. */
  function AsciiBytes(t: string): (b: seq<Byte>)
    requires forall k :: 0 <= k < |t| ==> t[k] < '\U{80}'
    ensures |b| == |t|
  {
    if t == [] then [] else [t[0] as int as Byte] + AsciiBytes(t[1..])
  }

  /** A round that does not have to grow the buffer appends the bytes of
      its code units. */
  lemma UnitsStep(s: seq<char>, i: nat, out: seq<Byte>, alloc: nat, next: seq<Byte>)
    requires Buffer(s) && i < |s| && alloc >= InitialStringAlloc && s[i] != '"'
    requires UnitsAt(s, i).Parsed? && |out| + 7 <= alloc
    requires next == out + Encode(UnitsAt(s, i).value)
    ensures StringFrom(s, i, out, alloc) == StringFrom(s, UnitsAt(s, i).next, next, alloc)
  {
  }

  /** One plain byte is one round that appends it; the buffer keeps its
      size while seven bytes are free. */
  lemma PlainStep(s: seq<char>, i: nat, out: seq<Byte>, alloc: nat, next: seq<Byte>)
    requires Buffer(s) && i < |s| && alloc >= InitialStringAlloc && Plain(s[i])
    requires |out| + 7 <= alloc && next == out + [s[i] as int as Byte]
    ensures StringFrom(s, i, out, alloc) == StringFrom(s, i + 1, next, alloc)
  {
    var u := s[i] as int as CodeUnit;
    assert UnitsAt(s, i) == Parsed([u], i + 1);
    EncodePointBytes(u);
    assert [u][..0] == [];
    assert Encode([u]) == [s[i] as int as Byte];
  }

  /** One plain byte is one round of the copy that appends it. */
  lemma PlainCopyStep(s: seq<char>, i: nat, out: seq<Byte>)
    requires Buffer(s) && i < |s| && Plain(s[i])
    ensures StringCopy(s, i, out) == StringCopy(s, i + 1, out + [s[i] as int as Byte])
  {
    var u := s[i] as int as CodeUnit;
    assert UnitsAt(s, i) == Parsed([u], i + 1);
    EncodePointBytes(u);
    assert [u][..0] == [];
    assert Encode([u]) == [s[i] as int as Byte];
  }

  /** The bytes of s[i..j] are those of its first byte and then those of
      the rest. */
  lemma AsciiFirst(s: seq<char>, i: nat, j: nat, out: seq<Byte>)
    requires i < j <= |s| && forall k :: i <= k < j ==> s[k] < '\U{80}'
    ensures out + [s[i] as int as Byte] + AsciiBytes(s[i + 1..j]) == out + AsciiBytes(s[i..j])
  {
    assert s[i..j][1..] == s[i + 1..j];
  }

  /** A run of plain bytes inside a string is copied byte for byte, however
      long it is. */
  lemma {:induction false} PlainRun(s: seq<char>, i: nat, j: nat, out: seq<Byte>)
    requires Buffer(s) && i <= j < |s|
    requires forall k :: i <= k < j ==> Plain(s[k])
    ensures StringCopy(s, i, out) == StringCopy(s, j, out + AsciiBytes(s[i..j]))
    decreases j - i
  {
    if i == j {
      assert s[i..j] == [];
      assert out + AsciiBytes(s[i..j]) == out;
    } else {
      PlainCopyStep(s, i, out);
      PlainRun(s, i + 1, j, out + [s[i] as int as Byte]);
      AsciiFirst(s, i, j, out);
    }
  }

  /** So parse_raw_string copies a run of plain bytes byte for byte from a
      buffer of any size, growing it as it goes, as long as the string is
      not too long. */
  lemma PlainRunGrown(s: seq<char>, i: nat, j: nat, out: seq<Byte>, alloc: nat, alloc': nat)
    requires Buffer(s) && i <= j < |s| && alloc >= InitialStringAlloc && alloc' >= InitialStringAlloc
    requires forall k :: i <= k < j ==> Plain(s[k])
    requires |out| + 6 * (|s| - i) + 7 <= SizeMax / 3
    ensures StringFrom(s, i, out, alloc) == StringFrom(s, j, out + AsciiBytes(s[i..j]), alloc')
  {
    PlainRun(s, i, j, out);
    StringFromFits(s, i, out, alloc);
    StringFromFits(s, j, out + AsciiBytes(s[i..j]), alloc');
  }

  /** PlainRun where the buffer keeps its size all along the run, as in
      the first ten bytes of a string. */
  lemma {:induction false} PlainRunInPlace(s: seq<char>, i: nat, j: nat, out: seq<Byte>, alloc: nat)
    requires Buffer(s) && i <= j < |s| && alloc >= InitialStringAlloc
    requires forall k :: i <= k < j ==> Plain(s[k])
    requires |out| + (j - i) + 6 <= alloc
    ensures StringFrom(s, i, out, alloc) == StringFrom(s, j, out + AsciiBytes(s[i..j]), alloc)
    decreases j - i
  {
    if i == j {
      assert s[i..j] == [];
      assert out + AsciiBytes(s[i..j]) == out;
    } else {
      PlainStep(s, i, out, alloc, out + [s[i] as int as Byte]);
      PlainRunInPlace(s, i + 1, j, out + [s[i] as int as Byte], alloc);
      AsciiFirst(s, i, j, out);
    }
  }

  // ---------------------------------------------------------------------
  // The document of test.c

  /** The input test.c hands json_parse (test.c:109): a one-member object
      whose array holds a string with a \n escape, a number with an
      exponent and a string with a surrogate pair. */
  const Sample: string := SampleHead + SampleMiddle + SampleTail

  /** The text in pieces, each short enough to check byte by byte. */
  const SampleHead: string := SampleKey + SampleOpen
  const SampleKey: string := "{ \"foo\" : "
  const SampleOpen: string := "[ \"b\\nar\","
  const SampleMiddle: string := SampleMinus + SampleHigh
  const SampleMinus: string := " -1e+1, \"f"
  const SampleHigh: string := "oo \\uD834"
  const SampleTail: string := "\\uDD1E \" ] }"

  /** Its parse buffer. */
  const SampleBuffer: seq<char> := Sample + ['\0']

  lemma SampleIsBuffer()
    ensures IsCText(Sample) && Buffer(SampleBuffer) && |SampleBuffer| == 52
  {
    assert IsCText(SampleHead) && IsCText(SampleMiddle) && IsCText(SampleTail);
    CTextAppend(SampleHead, SampleMiddle);
    CTextAppend(SampleHead + SampleMiddle, SampleTail);
    TextBuffer(Sample);
  }

  /** The bytes of the buffer one by one. */
  ghost predicate SampleBytesOf(s: seq<char>)
  {
    |s| == 52 && KeyBytesOf(s) && OpenBytesOf(s) && MinusBytesOf(s) && HighBytesOf(s) && TailBytesOf(s)
  }

  ghost predicate KeyBytesOf(s: seq<char>)
    requires |s| == 52
  {
    && s[0] == '{' && s[1] == ' ' && s[2] == '"' && s[3] == 'f' && s[4] == 'o' && s[5] == 'o'
    && s[6] == '"' && s[7] == ' ' && s[8] == ':' && s[9] == ' '
  }

  ghost predicate OpenBytesOf(s: seq<char>)
    requires |s| == 52
  {
    && s[10] == '[' && s[11] == ' '
    && s[12] == '"' && s[13] == 'b' && s[14] == '\\' && s[15] == 'n' && s[16] == 'a' && s[17] == 'r'
    && s[18] == '"' && s[19] == ','
  }

  ghost predicate MinusBytesOf(s: seq<char>)
    requires |s| == 52
  {
    && s[20] == ' ' && s[21] == '-' && s[22] == '1' && s[23] == 'e'
    && s[24] == '+' && s[25] == '1' && s[26] == ',' && s[27] == ' ' && s[28] == '"' && s[29] == 'f'
  }

  ghost predicate HighBytesOf(s: seq<char>)
    requires |s| == 52
  {
    && s[30] == 'o' && s[31] == 'o' && s[32] == ' ' && s[33] == '\\' && s[34] == 'u' && s[35] == 'D'
    && s[36] == '8' && s[37] == '3' && s[38] == '4'
  }

  ghost predicate TailBytesOf(s: seq<char>)
    requires |s| == 52
  {
    && s[39] == '\\' && s[40] == 'u' && s[41] == 'D'
    && s[42] == 'D' && s[43] == '1' && s[44] == 'E' && s[45] == ' ' && s[46] == '"' && s[47] == ' '
    && s[48] == ']' && s[49] == ' ' && s[50] == '}' && s[51] == '\0'
  }

  lemma SampleBytes()
    ensures SampleBytesOf(SampleBuffer)
  {
    SampleKeyBytes();
    SampleOpenBytes();
    SampleMinusBytes();
    SampleHighBytes();
    SampleTailBytes();
  }

  lemma SampleKeyBytes()
    ensures |SampleBuffer| == 52 && KeyBytesOf(SampleBuffer)
  {
    assert SampleBuffer == SampleKey + (SampleOpen + SampleMiddle + SampleTail + ['\0']);
  }

  lemma SampleOpenBytes()
    ensures |SampleBuffer| == 52 && OpenBytesOf(SampleBuffer)
  {
    assert SampleBuffer == SampleKey + (SampleOpen + (SampleMiddle + SampleTail + ['\0']));
  }

  lemma SampleMinusBytes()
    ensures |SampleBuffer| == 52 && MinusBytesOf(SampleBuffer)
  {
    assert SampleBuffer == SampleHead + (SampleMinus + (SampleHigh + SampleTail + ['\0']));
  }

  lemma SampleHighBytes()
    ensures |SampleBuffer| == 52 && HighBytesOf(SampleBuffer)
  {
    assert SampleBuffer == (SampleHead + SampleMinus) + (SampleHigh + (SampleTail + ['\0']));
  }

  lemma SampleTailBytes()
    ensures |SampleBuffer| == 52 && TailBytesOf(SampleBuffer)
  {
    assert SampleBuffer == (SampleHead + SampleMiddle) + (SampleTail + ['\0']);
  }

  lemma CTextAppend(a: string, b: string)
    requires IsCText(a) && IsCText(b)
    ensures IsCText(a + b)
  {
  }

  /** Advancing from i over a single space. */
  lemma SpaceThen(s: seq<char>, i: nat)
    requires Buffer(s) && i + 2 < |s| && s[i + 1] == ' ' && !IsSpace(s[i + 2])
    ensures Advance(s, i, true) == i + 2
  {
    assert SkipWs(s, i + 2) == i + 2;
  }

  /** The name "foo" at position 2. */
  lemma SampleName(s: seq<char>)
    requires Buffer(s) && |s| == 52
    requires s[2] == '"' && s[3] == 'f' && s[4] == 'o' && s[5] == 'o' && s[6] == '"' && s[7] == ' '
    requires s[8] == ':'
    ensures StringAt(s, 2) == Parsed([0x66, 0x6F, 0x6F], 8)
  {
    assert ExpectAt(s, 2, '"', true) == Parsed((), 3);
    forall k | 3 <= k < 6
      ensures Plain(s[k])
    {
      assert k == 3 || k == 4 || k == 5;
    }
    PlainRunInPlace(s, 3, 6, [], InitialStringAlloc);
    assert s[3..6] == "foo";
    assert [] + AsciiBytes("foo") == [0x66, 0x6F, 0x6F];
    SpaceThen(s, 6);
  }

  /** The first element, "b\nar", at position 12: the escape is one line
      feed byte. */
  lemma SampleFirst(s: seq<char>)
    requires Buffer(s) && |s| == 52
    requires s[12] == '"' && s[13] == 'b' && s[14] == '\\' && s[15] == 'n' && s[16] == 'a' && s[17] == 'r'
    requires s[18] == '"' && s[19] == ','
    ensures StringAt(s, 12) == Parsed([0x62, 0x0A, 0x61, 0x72], 19)
  {
    assert ExpectAt(s, 12, '"', true) == Parsed((), 13);
    PlainStep(s, 13, [], InitialStringAlloc, [0x62]);
    SampleNewline(s);
    SampleLetters(s);
    assert SkipWs(s, 19) == 19;
  }

  /** The escape \n at position 14 appends one line feed byte. */
  lemma SampleNewline(s: seq<char>)
    requires Buffer(s) && |s| == 52 && s[14] == '\\' && s[15] == 'n'
    ensures StringFrom(s, 14, [0x62], InitialStringAlloc) == StringFrom(s, 16, [0x62, 0x0A], InitialStringAlloc)
  {
    assert EscapeAt(s, 14) == Parsed(0x0A, 16);
    assert UnitsAt(s, 14) == Parsed([0x0A], 16);
    EncodePointBytes(0x0A);
    assert [0x0A as CodeUnit][..0] == [];
    UnitsStep(s, 14, [0x62], InitialStringAlloc, [0x62, 0x0A]);
  }

  /** The letters "ar" after the escape. */
  lemma SampleLetters(s: seq<char>)
    requires Buffer(s) && |s| == 52 && s[16] == 'a' && s[17] == 'r'
    ensures StringFrom(s, 16, [0x62, 0x0A], InitialStringAlloc)
         == StringFrom(s, 18, [0x62, 0x0A, 0x61, 0x72], InitialStringAlloc)
  {
    PlainStep(s, 16, [0x62, 0x0A], InitialStringAlloc, [0x62, 0x0A, 0x61]);
    PlainStep(s, 17, [0x62, 0x0A, 0x61], InitialStringAlloc, [0x62, 0x0A, 0x61, 0x72]);
  }

  /** The second element, -1e+1, at position 21: its grammar scan and the
      text strtod converts end together, before the comma. */
  lemma SampleNumber(s: seq<char>)
    requires Buffer(s) && |s| == 52
    requires s[21] == '-' && s[22] == '1' && s[23] == 'e' && s[24] == '+' && s[25] == '1' && s[26] == ','
    ensures NumberAt(s, 21) == Parsed(Number("-1e+1"), 26)
  {
    assert SkipWs(s, 22) == 22 && SkipWs(s, 23) == 23 && SkipWs(s, 24) == 24;
    assert SkipWs(s, 25) == 25 && SkipWs(s, 26) == 26;
    assert DigitRun(s, 23) == 23 && DigitRun(s, 26) == 26;
    assert IntegerAt(s, 22) == Parsed((), 23);
    assert SignSkipped(s, 24) == 25;
    assert ExponentAt(s, 23) == Parsed((), 26);
    assert NumberScanAt(s, 21) == Parsed((), 26);
    assert DigitCount(s, 23) == 0 && DigitCount(s, 22) == 1;
    assert DigitCount(s, 26) == 0 && DigitCount(s, 25) == 1;
    assert ExponentEnd(s, 23) == 26;
    assert s[21..26] == "-1e+1";
  }

  /** \uD834\uDD1E at position 33 is one surrogate pair: U+1D11E, four
      bytes of UTF-8. */
  lemma SamplePair(s: seq<char>)
    requires Buffer(s) && |s| == 52
    requires s[33] == '\\' && s[34] == 'u' && s[35] == 'D' && s[36] == '8' && s[37] == '3' && s[38] == '4'
    requires s[39] == '\\' && s[40] == 'u' && s[41] == 'D' && s[42] == 'D' && s[43] == '1' && s[44] == 'E'
    requires s[45] == ' '
    ensures UnitsAt(s, 33) == Parsed([0x1D11E], 45)
    ensures Encode([0x1D11E]) == [0xF0, 0x9D, 0x84, 0x9E]
  {
    assert HexDigits(s, 38, 3, 0xD83) == Parsed(0xD834, 39);
    assert HexDigits(s, 36, 1, 0xD) == Parsed(0xD834, 39);
    assert HexquadAt(s, 35) == Parsed(0xD834, 39);
    assert HexDigits(s, 44, 3, 0xDD1) == Parsed(0xDD1E, 45);
    assert HexDigits(s, 42, 1, 0xD) == Parsed(0xDD1E, 45);
    assert HexquadAt(s, 41) == Parsed(0xDD1E, 45);
    assert EscapeAt(s, 33) == Parsed(0xD834, 39);
    assert EscapeAt(s, 39) == Parsed(0xDD1E, 45);
    assert CombineSurrogates(0xD834, 0xDD1E) == 0x1D11E;
    EncodePointBytes(0x1D11E);
    assert [0x1D11E as CodeUnit][..0] == [];
  }

  /** The four plain bytes the third element starts with. */
  lemma SampleThirdHead(s: seq<char>)
    requires Buffer(s) && |s| == 52
    requires s[28] == '"' && s[29] == 'f' && s[30] == 'o' && s[31] == 'o' && s[32] == ' ' && s[33] == '\\'
    requires s[34] == 'u' && s[35] == 'D' && s[36] == '8' && s[37] == '3' && s[38] == '4' && s[39] == '\\'
    requires s[40] == 'u' && s[41] == 'D' && s[42] == 'D' && s[43] == '1' && s[44] == 'E' && s[45] == ' '
    requires s[46] == '"' && s[47] == ' ' && s[48] == ']'
    ensures StringFrom(s, 29, [], InitialStringAlloc)
         == StringFrom(s, 33, [0x66, 0x6F, 0x6F, 0x20], InitialStringAlloc)
  {
    forall k | 29 <= k < 33
      ensures Plain(s[k])
    {
      assert k == 29 || k == 30 || k == 31 || k == 32;
    }
    PlainRunInPlace(s, 29, 33, [], InitialStringAlloc);
    assert s[29..33] == "foo ";
    assert [] + AsciiBytes("foo ") == [0x66, 0x6F, 0x6F, 0x20];
  }

  /** The third element, "foo \uD834\uDD1E ", at position 28. */
  lemma SampleThird(s: seq<char>)
    requires Buffer(s) && |s| == 52
    requires s[28] == '"' && s[29] == 'f' && s[30] == 'o' && s[31] == 'o' && s[32] == ' ' && s[33] == '\\'
    requires s[34] == 'u' && s[35] == 'D' && s[36] == '8' && s[37] == '3' && s[38] == '4' && s[39] == '\\'
    requires s[40] == 'u' && s[41] == 'D' && s[42] == 'D' && s[43] == '1' && s[44] == 'E' && s[45] == ' '
    requires s[46] == '"' && s[47] == ' ' && s[48] == ']'
    ensures StringAt(s, 28) == Parsed([0x66, 0x6F, 0x6F, 0x20] + [0xF0, 0x9D, 0x84, 0x9E] + [0x20], 48)
  {
    assert ExpectAt(s, 28, '"', true) == Parsed((), 29);
    SampleThirdHead(s);
    SamplePair(s);
    var head: seq<Byte> := [0x66, 0x6F, 0x6F, 0x20];
    var pair: seq<Byte> := [0xF0, 0x9D, 0x84, 0x9E];
    UnitsStep(s, 33, head, InitialStringAlloc, head + pair);
    PlainStep(s, 45, head + pair, InitialStringAlloc, head + pair + [0x20]);
    SpaceThen(s, 46);
  }

  /** A value v up to m followed by a comma: the element loop goes on
      after the comma with v appended. */
  lemma ElementThenComma(s: seq<char>, i: nat, values: seq<Value>, v: Value, m: nat, next: seq<Value>)
    requires Buffer(s) && i < |s| && |values| < MaxItems
    requires ValueAt(s, i) == Parsed(v, m) && s[m] == ',' && next == values + [v]
    ensures m < |s| - 1 && Elements(s, i, values) == Elements(s, Advance(s, m, true), next)
  {
    NulIsLast(s, m);
    assert ExpectAt(s, m, ',', true) == Parsed((), Advance(s, m, true));
  }

  /** A value v up to m followed by the closing bracket: the array of all
      of them. */
  lemma ElementThenClose(s: seq<char>, i: nat, values: seq<Value>, v: Value, m: nat, next: seq<Value>)
    requires Buffer(s) && i < |s| && |values| < MaxItems
    requires ValueAt(s, i) == Parsed(v, m) && s[m] == ']' && next == values + [v]
    ensures m < |s| - 1 && Elements(s, i, values) == Parsed(Array(next), Advance(s, m, true))
  {
    NulIsLast(s, m);
  }

  /** A member p up to m followed by a comma: the loop goes on after it
      with p appended. */
  lemma MemberThenComma(s: seq<char>, i: nat, props: seq<Property>, p: Property, m: nat, next: seq<Property>)
    requires Buffer(s) && i < |s| && |props| < MaxItems
    requires Member(s, i) == Parsed(p, m) && s[m] == ',' && next == props + [p]
    ensures m < |s| - 1 && Members(s, i, props) == Members(s, Advance(s, m, true), next)
  {
    NulIsLast(s, m);
    assert ExpectAt(s, m, ',', true) == Parsed((), Advance(s, m, true));
  }

  /** A member p up to m followed by the closing brace: the object of all
      of them. */
  lemma MemberThenClose(s: seq<char>, i: nat, props: seq<Property>, p: Property, m: nat, next: seq<Property>)
    requires Buffer(s) && i < |s| && |props| < MaxItems
    requires Member(s, i) == Parsed(p, m) && s[m] == '}' && next == props + [p]
    ensures m < |s| - 1 && Members(s, i, props) == Parsed(Object(next), Advance(s, m, true))
  {
    NulIsLast(s, m);
  }

  /** The array at position 10 and its three elements. */
  lemma SampleArray(s: seq<char>)
    requires Buffer(s) && SampleBytesOf(s)
    ensures ArrayAt(s, 10) == Parsed(Array([SampleFirstValue, SampleSecondValue, SampleThirdValue]), 50)
  {
    SampleFirst(s);
    SampleNumber(s);
    SampleThird(s);
    SpaceThen(s, 10);
    SpaceThen(s, 19);
    SpaceThen(s, 26);
    SpaceThen(s, 48);
    assert ValueAt(s, 12) == Parsed(SampleFirstValue, 19);
    NumberValue(s, 21);
    assert ValueAt(s, 28) == Parsed(SampleThirdValue, 48);
    ElementThenComma(s, 12, [], SampleFirstValue, 19, [SampleFirstValue]);
    ElementThenComma(s, 21, [SampleFirstValue], SampleSecondValue, 26, [SampleFirstValue, SampleSecondValue]);
    ElementThenClose(s, 28, [SampleFirstValue, SampleSecondValue], SampleThirdValue, 48,
                     [SampleFirstValue, SampleSecondValue, SampleThirdValue]);
  }

  const SampleFirstValue: Value := String([0x62, 0x0A, 0x61, 0x72])
  const SampleSecondValue: Value := Number("-1e+1")
  const SampleThirdValue: Value := String([0x66, 0x6F, 0x6F, 0x20] + [0xF0, 0x9D, 0x84, 0x9E] + [0x20])

  /** The tree test.c prints: an object whose one member "foo" is the
      array of the line feed string, the number text and the string with
      U+1D11E in UTF-8. */
  const SampleValue: Value :=
    Object([Property([0x66, 0x6F, 0x6F], Array([SampleFirstValue, SampleSecondValue, SampleThirdValue]))])

  /** The object at position 0, up to the NUL. */
  lemma SampleObject(s: seq<char>)
    requires Buffer(s) && SampleBytesOf(s)
    ensures ObjectAt(s, 0) == Parsed(SampleValue, 51)
  {
    SampleName(s);
    SampleArray(s);
    SpaceThen(s, 0);
    SpaceThen(s, 8);
    assert SkipWs(s, 51) == 51;
    var arr := Array([SampleFirstValue, SampleSecondValue, SampleThirdValue]);
    assert Member(s, 2) == Parsed(Property([0x66, 0x6F, 0x6F], arr), 50);
    MemberThenClose(s, 2, [], Property([0x66, 0x6F, 0x6F], arr), 50, [Property([0x66, 0x6F, 0x6F], arr)]);
  }

  /** json_parse on the input of test.c gives that tree. */
  lemma SampleDocument()
    ensures IsCText(Sample) && Document(Sample) == Ok(SampleValue)
  {
    SampleIsBuffer();
    SampleBytes();
    var s := SampleBuffer;
    SampleObject(s);
    assert SkipWs(s, 0) == 0;
    assert ValueAt(s, 0) == Parsed(SampleValue, 51);
    assert Top(s) == Parsed(SampleValue, 51);
  }

  /** A lone digit followed by a byte that cannot continue a number is
      the number of that one digit. */
  lemma SingleDigit(s: seq<char>, i: nat)
    requires Buffer(s) && i + 1 < |s| && IsDigit(s[i])
    requires !IsDigit(s[i + 1]) && !IsSpace(s[i + 1]) && s[i + 1] != '.' && ToLower(s[i + 1]) != 'e'
    ensures ValueAt(s, i) == Parsed(Number(s[i..i + 1]), i + 1)
  {
    NulIsLast(s, i);
    assert SkipWs(s, i + 1) == i + 1;
    assert IntegerAt(s, i) == Parsed((), i + 1);
    assert NumberScanAt(s, i) == Parsed((), i + 1);
    assert DigitCount(s, i + 1) == 0 && DigitCount(s, i) == 1;
    assert StrtodText(s, i) == s[i..i + 1];
    NumberValue(s, i);
  }
}
