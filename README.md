# A verified model of the json.c parser

This project models the JSON decoder in `json.c` in Dafny and proves that model correct. The decoder is a recursive-descent parser over a NUL-terminated C string. It counts lines and skips white space as it goes. It turns `\u` escapes and UTF-16 surrogate pairs into UTF-8 in a buffer that grows by 3/2. It builds a tree whose every block sits on a doubly linked allocation list owned by the parser handle. Any error unwinds to `json_parse`, which reports the line and frees the list.

The model has three layers.

- **The parser itself.** `JsonParser.Parser` has the fields of `struct json_parser`:
  - the buffer and the cursor `pos`;
  - `line`;
  - `skipSpace`;
  - the `Arena`.

  Each static function of json.c that reads the input or allocates is a method of this class or of `Arena`, with the source's loops and their invariants. `encode_utf8` is the module-level method `Unicode.EncodeUtf8`. `unexpected_token` is the function `Grammar.Unexpected`. The `longjmp` of `parse_error` is an `Err` result that every caller hands straight back. `JsonParser.Parse` is `json_parse`.
- **What each routine computes.** The `Grammar` module mirrors every routine as a function of the buffer and a cursor position. It gives `Parsed(value, next)` or `Failed(error, at)`. Every parser method is proved to leave its cursor, outcome and value exactly as that function says (`Reflects`). `Grammar.Document` is the whole of `json_parse` on a text.
- **What is proved about those functions.** The lemmas fall into four groups:
  - `GrammarLaws` holds the all-input lemmas: dispatch, escapes, `\u` quads, surrogates, buffer growth, keywords, member order and count limits.
  - `NumberLaws` compares the number scan of `parse_number` with the number grammar of section 6 of RFC 8259.
  - `Unicode` holds surrogate pairing (RFC 2781 section 2) and the UTF-8 encoder (RFC 3629 section 3).
  - `JsonProperties` and `JsonQuirks` parse whole documents: the test vector of test.c and the corner cases of this particular parser.

Input is ASCII text with the NUL appended. A string value is its UTF-8 bytes. A number is the span of text `strtod` converts, not a double. The sizes and limits are those of an LP64 target: a 64-bit `size_t`, a 32-bit `int`, 24-byte values and 16-byte properties and list headers.

Behaviour of json.c that differs from RFC 8259, reproduced by the model:

- White space right after the opening quote of a string is dropped. `expect(p, '"')` consumes the quote while `skip_space` is still on (json.c:224-225). See `JsonQuirks.QuoteThenSpace`.
- White space is skipped inside numbers and between the letters of a keyword. `"1 2"` is the number `1`, and `"t r u e"` is `true`.
- `strtod` can fail after the grammar scan accepted a number. The scan lets white space follow the sign, and `strtod` stops at it. So `"- 1"` fails with "strtod failed" (`JsonQuirks.SpacedSign`).
- `"01"` and `{"a":1,}` fail in `expect` with "expected ...", not as plain unexpected tokens. The first fails in `expect(p, '\0')`. In the second, the `}` is not the quote of a name (`GrammarLaws.TrailingCommas`).
- There are no separate error kinds for a bad hex digit or a raw control byte. Both are `unexpected_token`.
- A failed parse releases every block on the handle's list. That includes the trees of earlier successful parses on the same handle (json.c:491).
- json.c has no event (SAX) interface. Only the tree-building path exists.

## Model

| member | source | states |
|---|---|---|
| Ascii.HexDigitValue | json.c:158-161 | The value OR'ed in for a hex digit: c - '0' for a decimal digit, c - 'a' + 10 or c - 'A' + 10 for a letter, always below 16 |
| Grammar.SkipWs | json.c:29-56 | skip_space stops at the first position at or after i that is not a space, tab, CR or LF, the NUL included |
| Grammar.SkipWsSpaces | json.c:32-50 | Every byte skip_space steps over is a space, tab, CR or LF |
| Grammar.SkipStep | json.c:34-49 | One step of the loop: CR LF is one step, and each step adds exactly one line for an LF, a CR or a CR LF, and none for a space or tab |
| Grammar.Advance | json.c:115-121 | consume moves exactly one byte when skip_space is off; when it is on, it stops on a byte that is not white space |
| Grammar.Unexpected | json.c:125-133 | The error is "unexpected end of input" exactly at the NUL, and "unexpected token" naming the byte elsewhere |
| Grammar.ExpectAt | json.c:135-145 | expect fails exactly when the byte differs, always with the "expected" form (also at the NUL); the NUL is not consumed; any other byte is consumed |
| Grammar.DigitsAt | json.c:385-389 | A required digit: fails exactly when there is none, with the unexpected-token error; otherwise it stops after a run of digits |
| Grammar.IntegerAt | json.c:375-380 | The integer part fails exactly when no digit is there |
| Grammar.HexquadAt | json.c:147-164 | Four bytes read on success, to a value below 0x10000; a failure lies within those four bytes |
| Grammar.EscapeAt | json.c:166-191 | An escape reads at least the backslash and its letter and gives a code unit of at most 0xFFFF |
| Grammar.UnitsAt | json.c:227-255 | A round reads at least one byte and produces one or two code units |
| Grammar.Grown | json.c:257-264 | The buffer never shrinks, and keeps its size while len + 7 fits |
| Grammar.StringFrom | json.c:225-273 | The loop moves past where it starts on success and fails inside the input |
| Grammar.StringAt | json.c:219-274 | parse_raw_string moves past the opening quote on success and fails inside the input |
| Grammar.StringValueAt | json.c:277-283 | parse_string gives a string value |
| Grammar.DigitRun | json.c:379-380 | The digit loop stops at the first byte, white space skipped, that is not a digit |
| Grammar.FractionAt | json.c:382-390 | The fraction reads nothing exactly when no point is there |
| Grammar.ExponentAt | json.c:392-403 | The exponent reads nothing exactly when no e or E is there |
| Grammar.NumberScanAt | json.c:371-403 | The scan moves past its start on success and fails inside the input (its meaning is NumberLaws.NumberSound and NumberComplete) |
| Grammar.StrtodText | json.c:405-407 | The text strtod converts is a slice of the input from the number's start |
| Grammar.NumberAt | json.c:365-410 | parse_number gives a number value |
| Grammar.Letters | json.c:417-418 | The expect loop never moves back and fails inside the input |
| Grammar.KeywordAt | json.c:412-420 | parse_keyword moves past the first letter; a failure lies after it |
| Grammar.ValueAt | json.c:422-453 | parse_value moves past its start on success and fails inside the input |
| Grammar.LiteralAt | json.c:435-450 | The keyword cases move past their start on success and fail inside the input |
| Grammar.ObjectAt | json.c:287-326 | parse_object gives an object value; a failure lies after the brace |
| Grammar.Member | json.c:303-305 | A member moves past its start on success and fails inside the input |
| Grammar.Members | json.c:300-322 | The member loop gives an object value |
| Grammar.ArrayAt | json.c:328-363 | parse_array gives an array value; a failure lies after the bracket |
| Grammar.Elements | json.c:341-359 | The element loop gives an array value |
| Grammar.LineAt | json.c:29-56 | The line json_parse reports is at least 1 |
| Grammar.Top | json.c:495-503 | json_parse succeeds only when nothing but the NUL follows the top-level value |
| Grammar.Document | json.c:482-504 | A failure always reports a line of at least 1 |
| Unicode.CombineSurrogates | json.c:238-239 | The pairing formula (hi << 10) + lo - 0x35FDC00 always gives a code point in [0x10000, 0x10FFFF] |
| Unicode.CombineIsRfc2781 | json.c:238 | The formula equals the decoding rule of RFC 2781 section 2.2, 0x10000 + ((hi - 0xD800) << 10) + (lo - 0xDC00) |
| Unicode.SplitThenCombine | json.c:238 | Splitting any supplementary code point into surrogates and pairing them gives it back |
| Unicode.CombineThenSplit | json.c:238 | Pairing any two surrogates and splitting the result gives both back |
| Unicode.EncodePointLength | json.c:200-209 | encode_utf8 writes 1, 2, 3 or 4 bytes for units below 0x80, 0x800, 0x10000 and above |
| Unicode.EncodePointBytes | json.c:211-213 | The bytes of each length spelled out: a lead byte of 0xC0, 0xE0 or 0xF0 plus the top bits, then continuation bytes of 0x80 plus six bits each |
| Unicode.EncodePointShape | json.c:211-213 | The lead byte carries the bit pattern of RFC 3629 section 3 for its length, and every continuation byte is 10xxxxxx |
| Unicode.DecodeEncodePoint | json.c:193-217 | Standard UTF-8 decoding of what encode_utf8 writes for a unit gives the unit back |
| Unicode.EncodeBound | json.c:215 | The assertion ret <= 4 * len holds for every input |
| Unicode.EncodeUtf8 | json.c:193-217 | Writes exactly the encoding of src at offset at, returns its length, and leaves every other byte of dst unchanged |
| Unicode.EncodePointInto | json.c:197-213 | One round of the loop writes exactly the bytes of one unit at the offset and nothing else |
| Unicode.EncodeNext | json.c:196-214 | After round i the buffer holds the encoding of the first i + 1 units |
| Arena.Arena.constructor | json.c:455-463 | json_create_parser: the list starts empty and well linked |
| Arena.Arena.Alloc | json.c:67-85 | Fails with "too large allocation" exactly when the header would overflow a size_t; otherwise a fresh block of the size is put at the head and the links stay consistent |
| Arena.Arena.Realloc | json.c:87-108 | A null block is a fresh allocation; any other block is moved to a fresh block that takes its place in the list and keeps the bytes both sizes share |
| Arena.Arena.Resize | json.c:94-107 | The moved block replaces the old one at its position, with the same neighbours |
| Arena.Arena.Relink | json.c:100-105 | Pointing the neighbours and the head at the moved block keeps every prev and next link consistent |
| Arena.Arena.FreeAll | json.c:465-474 | free_allocs releases every block once, in list order, and leaves the head NULL |
| Arena.Move | json.c:96 | realloc keeps the header links and the bytes both sizes share |
| JsonParser.Parser.constructor | json.c:495-497 | The state json_parse sets up: skip_space on, cursor at the start, line 1 |
| JsonParser.Parser.SkipSpace | json.c:29-56 | Moves the cursor to SkipWs and keeps line equal to one plus the line breaks before the cursor |
| JsonParser.Parser.Next | json.c:110-113 | The byte under the cursor, which is the NUL exactly at the end |
| JsonParser.Parser.Consume | json.c:115-121 | Returns the byte under the cursor and moves as Advance says |
| JsonParser.Parser.Expect | json.c:135-145 | Outcome and cursor as ExpectAt says |
| JsonParser.Parser.ParseHexDigit | json.c:152-161 | One hex digit and its value, or unexpected token |
| JsonParser.Parser.ParseHexquad | json.c:147-164 | Outcome and cursor as HexquadAt says (see GrammarLaws.Hexquad) |
| JsonParser.Parser.ParseEscapedChar | json.c:166-191 | Outcome and cursor as EscapeAt says (see GrammarLaws.EscapeLetters) |
| JsonParser.Parser.ReadUnits | json.c:227-255 | The code units of one round, surrogates paired or replaced, as UnitsAt says |
| JsonParser.Parser.MakeRoom | json.c:257-264 | Keeps the buffer while len + 7 fits, grows it to 3/2 otherwise, keeping its bytes, and fails with "too long string" once alloc > SIZE_MAX / 3 |
| JsonParser.Parser.ParseRawString | json.c:219-274 | Outcome and cursor as StringAt says; a new block at the head of the list holds the bytes followed by a NUL |
| JsonParser.Parser.StringBody | json.c:225-273 | The loop of parse_raw_string: its bytes, and a NUL after them, as StringFrom says |
| JsonParser.Parser.Close | json.c:268-273 | skip_space back on, the closing quote consumed, the NUL written after len bytes (so alloc > len) |
| JsonParser.Parser.StringRound | json.c:226-266 | One round of the loop advances the cursor and appends the round's UTF-8 bytes, or fails as StringFrom says |
| JsonParser.Parser.Append | json.c:256-266 | The bytes so far followed by the encoding of the round's units, in the kept or grown buffer; fails exactly when Grown does |
| JsonParser.Parser.ParseString | json.c:277-283 | A value node and then the string bytes, two new blocks on the list; outcome as StringValueAt says |
| JsonParser.Parser.SkipDigits | json.c:379-380 | The cursor ends at DigitRun, the end of the digit run with white space skipped |
| JsonParser.Parser.ParseDigits | json.c:385-389 | A required digit and the rest of the run, as DigitsAt says |
| JsonParser.Parser.ParseInteger | json.c:375-380 | A 0 alone, or a digit run, as IntegerAt says |
| JsonParser.Parser.ParseFraction | json.c:382-390 | Nothing without a point, else the point and at least one digit |
| JsonParser.Parser.ParseExponent | json.c:392-403 | Nothing without e/E, else the letter, an optional sign and at least one digit |
| JsonParser.Parser.ScanNumber | json.c:371-403 | The full grammar check of a number, as NumberScanAt says |
| JsonParser.Parser.ParseNumber | json.c:365-410 | The number span strtod converts, or "strtod failed" when it converts nothing, as NumberAt says |
| JsonParser.Parser.ExpectLetters | json.c:417-418 | Each remaining letter of the keyword in turn, as Letters says |
| JsonParser.Parser.ParseKeyword | json.c:412-420 | The keyword's letters and then one value block, as KeywordAt says; nothing is allocated on failure |
| JsonParser.Parser.ParseLiteral | json.c:435-450 | true, false or null by the first letter, as LiteralAt says |
| JsonParser.Parser.ParseValue | json.c:422-453 | Outcome and cursor as ValueAt says; the list keeps every earlier block and gains only fresh ones |
| JsonParser.Parser.ParseMember | json.c:303-305 | A name, a colon and a value, as Member says |
| JsonParser.Parser.ParseObject | json.c:287-326 | {} is the empty object; otherwise the members, as ObjectAt says |
| JsonParser.Parser.ParseMembers | json.c:300-325 | The member loop, as Members says |
| JsonParser.Parser.MemberRound | json.c:303-321 | One member, the count guard, then a table of PropertySize times the new member count in place of the old one on the list, then the closing brace or a comma |
| JsonParser.Parser.Separator | json.c:319-321 | The closing byte ends the loop and stays under the cursor; anything else must be a comma, as ExpectAt says |
| JsonParser.Parser.ParseArray | json.c:328-363 | [] is the empty array; otherwise the elements, as ArrayAt says |
| JsonParser.Parser.ParseElements | json.c:341-360 | The element loop, as Elements says |
| JsonParser.Parser.ElementRound | json.c:343-358 | One value, the count guard, then a table of AddressSize times the new element count in place of the old one on the list, then the closing bracket or a comma |
| JsonParser.Parser.GrowTable | json.c:307-312 | Fails with the container's "too big" error exactly at INT_MAX / sizeof(void *) entries, changing nothing; otherwise a fresh table of count + 1 entries replaces the old one at its place on the list, or goes to its head when there was none |
| JsonParser.TableBound | json.c:310-312 | A table of at most INT_MAX / sizeof(void *) entries always fits in a size_t |
| JsonParser.Parse | json.c:482-504 | json_parse returns exactly Document(text); on failure every block on the list is released, earlier parses' included |
| GrammarLaws.ValueStart | json.c:422-453 | A value parses only from { [ " - 0-9 t f n; any other byte is an unexpected token, or the end of input at the NUL |
| GrammarLaws.EscapeLetters | json.c:169-190 | The eight one-letter escapes give their characters and consume two bytes; any other letter except u is an unexpected token |
| GrammarLaws.Hexquad | json.c:147-164 | \u reads exactly four hex digits, most significant first, into a value below 0x10000; the first non-hex byte is an unexpected token |
| GrammarLaws.HexDigitCase | json.c:158-161 | Upper- and lower-case hex letters have the same value |
| GrammarLaws.Surrogates | json.c:230-247 | A high surrogate pairs with a following low escape; before another escape it gives U+FFFD and then that unit unchanged; before anything else it gives U+FFFD, as does a lone low surrogate |
| GrammarLaws.ControlByte | json.c:251-253 | A raw control byte inside a string is an error, "unexpected end of input" at the NUL |
| GrammarLaws.Unterminated | json.c:226-253 | A string with no closing quote, whose escapes are well formed or cut short by the NUL, ends in "unexpected end of input" at the NUL, unless it is too long first |
| GrammarLaws.QuadCutEnd | json.c:151-157 | Hex digits of a \u that the NUL cuts short end in "unexpected end of input" at the NUL |
| GrammarLaws.EscapeOpen | json.c:166-191 | An escape in a string with no closing quote is read whole and leaves the rest open, or meets the end of input |
| GrammarLaws.UnitsOpen | json.c:227-255 | One round in a string with no closing quote does the same, for one byte, one escape or a surrogate pair |
| GrammarLaws.StringCopy | json.c:226-266 | The loop of parse_raw_string with a buffer that never runs short: the bytes already written stay in front of the result |
| GrammarLaws.StringFromCopy | json.c:257-264 | The buffer size decides nothing but "too long string": every other outcome equals that of StringCopy |
| GrammarLaws.StringFromFits | json.c:257-264 | While six bytes per input byte still fit under SIZE_MAX / 3, the outcome is exactly that of StringCopy, whatever the starting size |
| GrammarLaws.GrownRoom | json.c:257-264 | After the check, len + 7 <= alloc after at most one growth by 3/2, or the string is too long exactly when alloc > SIZE_MAX / 3 |
| GrammarLaws.LettersSpelled | json.c:416-418 | The letters of a keyword written out in full are all accepted |
| GrammarLaws.LettersCut | json.c:416-418 | The first wrong letter fails in expect, naming the letter found and the one wanted |
| GrammarLaws.Keywords | json.c:435-450 | true, false and null written out parse to their values |
| GrammarLaws.MembersOrder | json.c:307-322 | The member loop keeps the members read so far, in order, in front; adds at least one; never exceeds INT_MAX / sizeof(void *) |
| GrammarLaws.ElementsOrder | json.c:345-359 | The same for array elements |
| GrammarLaws.ContainerBound | json.c:307-308 | No object or array holds more than INT_MAX / sizeof(void *) entries |
| GrammarLaws.TrailingCommas | json.c:303-358 | A comma must be followed by another member or value: } there fails expecting a quote, and ] is an unexpected token |
| JsonProperties.PlainRun | json.c:251-266 | A run of plain bytes of any length inside a string is copied byte for byte (with StringFromCopy, whatever the buffer does) |
| JsonProperties.PlainRunGrown | json.c:251-266 | Below the size bound, the loop after a run of plain bytes goes on from its bytes, whatever sizes the buffer has at either end |
| JsonProperties.PlainRunInPlace | json.c:251-266 | A run of plain bytes that leaves the buffer at its size is copied byte for byte, the buffer unchanged |
| JsonProperties.SamplePair | json.c:232-239 | The escapes \uD834\uDD1E pair into U+1D11E, written as F0 9D 84 9E |
| JsonProperties.SampleDocument | test.c:109 | The test input parses to an object whose one member foo holds "b\nar", the number -1e+1 and "foo " + F0 9D 84 9E + " " |
| JsonProperties.SingleDigit | json.c:375-410 | A lone digit before a byte that cannot continue a number is that one-digit number |
| NumberLaws.NumberSound | json.c:371-403 | Whatever the scan of parse_number accepts is, once the white space it lets through is dropped, a number as section 6 of RFC 8259 defines it |
| NumberLaws.NumberComplete | json.c:371-403 | A number of section 6 of RFC 8259 written out whole, before a byte that cannot continue it, is accepted whole; the cursor stops at that byte |
| NumberLaws.ZeroStops | json.c:375-380 | A 0 that starts the integer part is all of it: a digit after it is left to the caller |
| NumberLaws.IntegerText | json.c:375-380 | The integer part the scan reads is 0 or a digit run not starting with 0, once white space is dropped |
| NumberLaws.FractionText | json.c:382-390 | The fraction the scan reads is empty or a point and at least one digit |
| NumberLaws.ExponentText | json.c:392-403 | The exponent the scan reads is empty or e/E, an optional sign and at least one digit |
| JsonQuirks.LeadingZero | json.c:501 | "01" scans the number 0 and fails at the final expect, on line 1 |
| JsonQuirks.SpacedKeyword | json.c:416-418 | "t r u e" is true |
| JsonQuirks.CutKeyword | json.c:135-141 | "tru" fails in expect at the NUL with the "expected" form, not "unexpected end of input" |
| JsonQuirks.EmptyText | json.c:125-130 | An empty text is an unexpected end of input |
| JsonQuirks.SpacedNumber | json.c:378-405 | "1 2" is the number 1: the scan skips the space, strtod stops at it |
| JsonQuirks.SpacedSign | json.c:372-407 | "- 1" passes the scan but strtod converts nothing |
| JsonQuirks.EmptyObject | json.c:294-298 | "{}" is an object with no members |
| JsonQuirks.EmptyArray | json.c:335-339 | "[ ]" is an array with no elements |
| JsonQuirks.TrailingComma | json.c:343-358 | "[1,]" fails on the ] after the comma |
| JsonQuirks.LineCount | json.c:34-44 | CR LF counts as one line and LF as another, so the error in "[1,\r\n\n]" is on line 3 |
| JsonQuirks.OpenString | json.c:251-253 | A string the input ends inside fails with "unexpected end of input" |
| JsonQuirks.QuoteThenSpace | json.c:224-225 | The space right after an opening quote is dropped |
| JsonQuirks.LoneHigh | json.c:244-245 | A high surrogate before a plain byte becomes U+FFFD (EF BF BD) |
| JsonQuirks.HighThenHigh | json.c:240-243 | A high surrogate before another high one gives U+FFFD and then the second unit encoded as three bytes |
| JsonQuirks.LoneLow | json.c:246-247 | A lone low surrogate becomes U+FFFD |
| JsonQuirks.DuplicateNames | json.c:310-317 | A repeated name is kept as two members, in input order |
| JsonQuirks.FullNumber | json.c:365-410 | "-0.5E-3" uses every part of the number grammar and is kept whole |
| JsonQuirks.MissingFraction | json.c:382-387 | "1." fails: a digit must follow the point |

## Left out

- `strtod` produces no double here. A number keeps the text `strtod` would convert (`Grammar.StrtodText`: sign, digits, point, exponent). Its hexadecimal, infinity and NaN forms and `errno` are not modelled. None of them can change a result. Only the hexadecimal form can start where the scanner accepted a number: a 0 followed by x. The parse then always fails at the x, in `expect(p, ',')` or `expect(p, '\0')` of the caller, before the converted value is used.
- `Grammar.StrtodText` assumes the C locale, whose decimal point is '.'. The test program calls `setlocale(LC_ALL, "")` (test-parser.c:150), and a locale with another decimal point would make `strtod` stop at the '.'.
- `malloc` and `realloc` failure ("malloc failed", "realloc failed") and `strerror` are not modelled. A real allocator can fail at any call, and that choice is left open.
- `realloc` always moves the block (`Arena.Move`). Growing a block in place is not modelled; lists and bytes come out the same either way.
- `setjmp`/`longjmp` is modelled as an `Err` outcome passed back to `json_parse`. The message text, the 1024-byte buffer and the `PR` rendering of bytes are left out. An error is a kind plus the bytes involved, and `Parse` returns `Report(line, error)` instead of calling the `err` callback.
- Raw input bytes of 0x80 and above are not modelled. Their meaning depends on the signedness of `char`, and `isxdigit`/`iscntrl` on them is undefined. Escapes still reach every code unit.
- Stack depth is not modelled. The recursion is unbounded in the source as well.
- The tree is returned as a `Value` rather than written into the blocks. The model allocates the same blocks in the same order but does not store the tree's fields in them.
- `json_destroy_parser` (json.c:476-480) is `Arena.FreeAll` followed by `free(p)`. Freeing the handle itself is not modelled.
- The `expect(p, '{')` and `expect(p, '[')` of `parse_object`/`parse_array` are modelled as `Consume`. `parse_value` reaches them only on that byte, so they always match.
- Bit operations are written as arithmetic: `<<`, `|`, `&` and `>>` in `parse_hexquad`, `encode_utf8` and the 3/2 growth. The operands' bits never overlap, so the results are identical.
- The 32-bit `int` counts of the object and array loops and the `int` return of `encode_utf8` are unbounded integers. They cannot reach 2^31 below the guards modelled.
- The `int line` counter (json.c:24, 35, 40) is an unbounded integer. No guard bounds it, and the model does not capture its overflow on an input with more than 2^31 - 1 line breaks.
- A string holding `\u0000` keeps the bytes after it. In C it ends at that NUL.
- JsonParser.Parser.ParseValue: states that the allocation list keeps every earlier block and gains only fresh ones, not the exact order of the new blocks.
- JsonParser.Parser.ParseObject: states that the allocation list keeps every earlier block and gains only fresh ones, not the exact order of the new blocks.
- JsonParser.Parser.ParseArray: states that the allocation list keeps every earlier block and gains only fresh ones, not the exact order of the new blocks.
- JsonParser.Parser.ParseMembers: states that the allocation list keeps every earlier block and gains only fresh ones, not the exact order of the new blocks.
- JsonParser.Parser.ParseElements: states that the allocation list keeps every earlier block and gains only fresh ones, not the exact order of the new blocks.
- NumberLaws.NumberComplete: stated for a number written without white space inside it, before a byte that cannot continue it. That stop condition is sufficient, not necessary.
- Grammar.DigitCount: its contract states only where the digit run ends, not that every byte before that is a digit.
- The event (SAX) interface of `json.h` has no code in json.c, so it is not modelled.
