/** Properties of the grammar functions over every buffer: the dispatch of
    parse_value, escapes and \u quads, the growth of the string buffer,
    and the order and count of object members and array elements. */
module GrammarLaws {
  import opened Ascii
  import opened Unicode
  import opened JsonTypes
  import opened Grammar

  // ---------------------------------------------------------------------
  // parse_value

  /** A value parses only from one of the bytes parse_value dispatches on;
      any other byte is an unexpected token, or the end of input at the
      NUL. */
  lemma ValueStart(s: seq<char>, i: nat)
    requires Buffer(s) && i < |s|
    ensures ValueAt(s, i).Parsed? ==> StartsValue(s[i])
    ensures !StartsValue(s[i]) ==> ValueAt(s, i) == Failed(Unexpected(s, i), i)
  {
  }

  /** parse_value hands a minus or a digit to parse_number. */
  lemma NumberValue(s: seq<char>, i: nat)
    requires Buffer(s) && i < |s| && (s[i] == '-' || IsDigit(s[i]))
    ensures ValueAt(s, i) == NumberAt(s, i)
  {
  }

  /** parse_value hands t, f and n to the keyword cases. */
  lemma LiteralValue(s: seq<char>, i: nat)
    requires Buffer(s) && i < |s| && (s[i] == 't' || s[i] == 'f' || s[i] == 'n')
    ensures ValueAt(s, i) == LiteralAt(s, i)
  {
  }

  /** parse_value hands a quote to parse_string. */
  lemma StringValue(s: seq<char>, i: nat)
    requires Buffer(s) && i < |s| && s[i] == '"'
    ensures ValueAt(s, i) == StringValueAt(s, i)
  {
  }

  /** parse_value hands a bracket to parse_array. */
  lemma ArrayValue(s: seq<char>, i: nat)
    requires Buffer(s) && i < |s| && s[i] == '['
    ensures ValueAt(s, i) == ArrayAt(s, i)
  {
  }

  /** parse_value hands a brace to parse_object. */
  lemma ObjectValue(s: seq<char>, i: nat)
    requires Buffer(s) && i < |s| && s[i] == '{'
    ensures ValueAt(s, i) == ObjectAt(s, i)
  {
  }

  // ---------------------------------------------------------------------
  // parse_escaped_char, parse_hexquad

  /** The escapes of section 7 of RFC 8259 other than \u, as pairs of the
      letter after the backslash and the character it stands for. */
  const EscapeTable: seq<(char, char)> :=
    [('"', '"'), ('\\', '\\'), ('/', '/'), ('b', '\U{8}'),
     ('f', '\U{C}'), ('n', '\n'), ('r', '\r'), ('t', '\t')]

  /** A backslash and a letter other than u is the character the table
      gives for the letter, and an error for a letter not in it. */
  lemma EscapeLetters(s: seq<char>, i: nat)
    requires Buffer(s) && i < |s| && s[i] == '\\' && s[i + 1] != 'u'
    ensures forall k :: 0 <= k < |EscapeTable| && EscapeTable[k].0 == s[i + 1] ==>
              EscapeAt(s, i) == Parsed(EscapeTable[k].1 as int as CodeUnit, i + 2)
    ensures (forall k :: 0 <= k < |EscapeTable| ==> EscapeTable[k].0 != s[i + 1]) ==>
              EscapeAt(s, i) == Failed(Unexpected(s, i + 1), i + 1)
  {
    NulIsLast(s, i);
    var c := s[i + 1];
    if forall k :: 0 <= k < |EscapeTable| ==> EscapeTable[k].0 != c {
      assert EscapeTable[0].0 != c && EscapeTable[1].0 != c && EscapeTable[2].0 != c && EscapeTable[3].0 != c;
      assert EscapeTable[4].0 != c && EscapeTable[5].0 != c && EscapeTable[6].0 != c && EscapeTable[7].0 != c;
    }
  }

  /** The value of four hex digits, the first the most significant. */
  function QuadValue(a: char, b: char, c: char, d: char): (v: nat)
    requires IsXDigit(a) && IsXDigit(b) && IsXDigit(c) && IsXDigit(d)
    ensures v < 0x10000
  {
    HexDigitValue(a) * 0x1000 + HexDigitValue(b) * 0x100 + HexDigitValue(c) * 0x10 + HexDigitValue(d)
  }

  /** parse_hexquad reads exactly the four hex digits at i, in either case,
      most significant first; the first byte that is not one is an
      unexpected token. */
  lemma Hexquad(s: seq<char>, i: nat)
    requires Buffer(s) && i < |s|
    ensures HexquadAt(s, i).Parsed? <==>
              IsXDigit(s[i]) && IsXDigit(s[i + 1]) && IsXDigit(s[i + 2]) && IsXDigit(s[i + 3])
    ensures HexquadAt(s, i).Parsed? ==>
              HexquadAt(s, i) == Parsed(QuadValue(s[i], s[i + 1], s[i + 2], s[i + 3]), i + 4)
    ensures HexquadAt(s, i).Failed? ==>
              exists k :: i <= k < i + 4 && k < |s| && !IsXDigit(s[k])
                          && HexquadAt(s, i) == Failed(Unexpected(s, k), k)
  {
    NulIsLast(s, i);
    if !IsXDigit(s[i]) {
      return;
    }
    var v0 := HexDigitValue(s[i]);
    NulIsLast(s, i + 1);
    assert HexDigits(s, i, 0, 0) == HexDigits(s, i + 1, 1, v0);
    if !IsXDigit(s[i + 1]) {
      assert HexDigits(s, i + 1, 1, v0) == Failed(Unexpected(s, i + 1), i + 1);
      return;
    }
    var v1 := v0 * 16 + HexDigitValue(s[i + 1]);
    NulIsLast(s, i + 2);
    assert HexDigits(s, i + 1, 1, v0) == HexDigits(s, i + 2, 2, v1);
    if !IsXDigit(s[i + 2]) {
      assert HexDigits(s, i + 2, 2, v1) == Failed(Unexpected(s, i + 2), i + 2);
      return;
    }
    var v2 := v1 * 16 + HexDigitValue(s[i + 2]);
    NulIsLast(s, i + 3);
    assert HexDigits(s, i + 2, 2, v1) == HexDigits(s, i + 3, 3, v2);
    if !IsXDigit(s[i + 3]) {
      assert HexDigits(s, i + 3, 3, v2) == Failed(Unexpected(s, i + 3), i + 3);
      return;
    }
    var v3 := v2 * 16 + HexDigitValue(s[i + 3]);
    assert HexDigits(s, i + 3, 3, v2) == HexDigits(s, i + 4, 4, v3) == Parsed(v3, i + 4);
  }

  /** Upper and lower case hex digits have the same value. */
  lemma HexDigitCase(c: char)
    requires 'a' <= c <= 'f'
    ensures IsXDigit((c as int - 32) as char)
    ensures HexDigitValue((c as int - 32) as char) == HexDigitValue(c)
  {
  }

  // ---------------------------------------------------------------------
  // parse_raw_string's buffer

  /** The growth check of parse_raw_string: whenever the bytes so far fit
      with the NUL, after the check at most one growth by 3/2 leaves room
      for the NUL and a round of six bytes, or the string is too long. */
  lemma GrownRoom(len: nat, alloc: nat)
    requires alloc >= InitialStringAlloc && len < alloc
    ensures Grown(len, alloc).None? <==> len + 7 > alloc && alloc > SizeMax / 3
    ensures Grown(len, alloc).Some? ==> len + 7 <= Grown(len, alloc).value
  {
  }

  /** One round at a backslash, once the escape has been read: a high
      surrogate before a second escape pairs with a low one, and otherwise
      gives U+FFFD and the second unit as it is; a high surrogate before
      anything else, and a lone low one, give U+FFFD; any other unit is
      kept. */
  lemma Surrogates(s: seq<char>, i: nat)
    requires Buffer(s) && i < |s| && s[i] == '\\' && EscapeAt(s, i).Parsed?
    ensures var e := EscapeAt(s, i);
            IsHighSurrogate(e.value) && s[e.next] == '\\' && EscapeAt(s, e.next).Parsed? ==>
              var f := EscapeAt(s, e.next);
              && (IsLowSurrogate(f.value) ==> UnitsAt(s, i) == Parsed([CombineSurrogates(e.value, f.value)], f.next))
              && (!IsLowSurrogate(f.value) ==> UnitsAt(s, i) == Parsed([Replacement, f.value], f.next))
    ensures var e := EscapeAt(s, i);
            IsHighSurrogate(e.value) && s[e.next] == '\\' && EscapeAt(s, e.next).Failed? ==>
              UnitsAt(s, i) == Failed(EscapeAt(s, e.next).error, EscapeAt(s, e.next).at)
    ensures var e := EscapeAt(s, i);
            IsHighSurrogate(e.value) && s[e.next] != '\\' ==> UnitsAt(s, i) == Parsed([Replacement], e.next)
    ensures var e := EscapeAt(s, i);
            IsLowSurrogate(e.value) ==> UnitsAt(s, i) == Parsed([Replacement], e.next)
    ensures var e := EscapeAt(s, i);
            !IsHighSurrogate(e.value) && !IsLowSurrogate(e.value) ==> UnitsAt(s, i) == Parsed([e.value], e.next)
  {
  }

  /** A raw control byte in a string is an error at that byte: the end of
      input at the NUL, an unexpected token anywhere else. */
  lemma ControlByte(s: seq<char>, i: nat, out: seq<Byte>, alloc: nat)
    requires Buffer(s) && i < |s| && alloc >= InitialStringAlloc && IsCntrl(s[i])
    ensures StringFrom(s, i, out, alloc) == Failed(Unexpected(s, i), i)
    ensures i == |s| - 1 ==> StringFrom(s, i, out, alloc) == Failed(UnexpectedEnd, i)
  {
    NulIsLast(s, i);
  }

  /** The loop of parse_raw_string with a buffer that never runs short:
      the bytes of every round appended, in order, as many as there are. */
  function StringCopy(s: seq<char>, i: nat, out: seq<Byte>): (r: Scan<seq<Byte>>)
    requires Buffer(s) && i < |s|
    ensures r.Parsed? ==> i < r.next < |s| && |out| <= |r.value| && r.value[..|out|] == out
    ensures r.Failed? ==> i <= r.at < |s|
    decreases |s| - i
  {
    if s[i] == '"' then Parsed(out, Advance(s, i, true))
    else
      var (units, j) :- UnitsAt(s, i);
      var r := StringCopy(s, j, out + Encode(units));
      assert r.Parsed? ==> r.value[..|out|] == (out + Encode(units))[..|out|];
      r
  }

  /** The size of parse_raw_string's buffer decides nothing but "too long
      string": every other outcome, the bytes and the errors, is that of
      a buffer that never runs short. */
  lemma {:induction false} StringFromCopy(s: seq<char>, i: nat, out: seq<Byte>, alloc: nat)
    requires Buffer(s) && i < |s| && alloc >= InitialStringAlloc
    ensures || StringFrom(s, i, out, alloc) == StringCopy(s, i, out)
            || (StringFrom(s, i, out, alloc).Failed? && StringFrom(s, i, out, alloc).error == TooLongString)
    decreases |s| - i
  {
    if s[i] != '"' {
      match UnitsAt(s, i)
      case Failed(_, _) =>
      case Parsed(units, j) =>
        match Grown(|out|, alloc)
        case None =>
        case Some(a) => StringFromCopy(s, j, out + Encode(units), a);
    }
  }

  /** No string whose buffer stays below SIZE_MAX / 3 bytes is too long:
      as long as six bytes for every byte still to read fit within that
      bound, parse_raw_string gives what a buffer that never runs short
      gives, whatever size it starts from. */
  lemma {:induction false} StringFromFits(s: seq<char>, i: nat, out: seq<Byte>, alloc: nat)
    requires Buffer(s) && i < |s| && alloc >= InitialStringAlloc
    requires |out| + 6 * (|s| - i) + 7 <= SizeMax / 3
    ensures StringFrom(s, i, out, alloc) == StringCopy(s, i, out)
    decreases |s| - i
  {
    if s[i] != '"' {
      match UnitsAt(s, i)
      case Failed(_, _) =>
      case Parsed(units, j) =>
        UnitsRoom(s, i);
        assert Grown(|out|, alloc).Some?;
        StringFromFits(s, j, out + Encode(units), Grown(|out|, alloc).value);
    }
  }

  /** Fewer than n hex digits from k, the NUL right after them. */
  ghost predicate QuadCut(s: seq<char>, k: nat, n: nat)
    requires Buffer(s) && k < |s|
    decreases n
  {
    n > 0 && (k == |s| - 1 || (IsXDigit(s[k]) && QuadCut(s, k + 1, n - 1)))
  }

  /** The bytes from i to the NUL hold no closing quote: bytes that are
      neither a quote nor a control byte, and well-formed escapes, the last
      of which the end of input may cut short. */
  ghost predicate OpenBody(s: seq<char>, i: nat)
    requires Buffer(s) && i < |s|
    decreases |s| - i
  {
    if i == |s| - 1 then true
    else if s[i] == '"' || IsCntrl(s[i]) then false
    else if s[i] != '\\' then OpenBody(s, i + 1)
    else if i + 1 == |s| - 1 then true
    else if EscapeLetter(s[i + 1]).Some? then OpenBody(s, i + 2)
    else
      && s[i + 1] == 'u'
      && (|| QuadCut(s, i + 2, 4)
          || (&& i + 6 < |s|
              && IsXDigit(s[i + 2]) && IsXDigit(s[i + 3]) && IsXDigit(s[i + 4]) && IsXDigit(s[i + 5])
              && OpenBody(s, i + 6)))
  }

  /** parse_hexquad on hex digits that the NUL cuts short is the end of
      input. */
  lemma {:induction false} QuadCutEnd(s: seq<char>, k: nat, n: nat, val: nat)
    requires Buffer(s) && k < |s| && n < 4 && QuadCut(s, k, 4 - n)
    ensures HexDigits(s, k, n, val) == Failed(UnexpectedEnd, |s| - 1)
    decreases 4 - n
  {
    NulIsLast(s, k);
    if k < |s| - 1 {
      var d := HexDigitValue(s[k]);
      assert HexDigits(s, k, n, val) == HexDigits(s, k + 1, n + 1, val * 16 + d);
      QuadCutEnd(s, k + 1, n + 1, val * 16 + d);
    }
  }

  /** An escape inside an open string body is read whole and leaves the
      rest open, or is cut short by the end of input. */
  lemma EscapeOpen(s: seq<char>, i: nat)
    requires Buffer(s) && i < |s| - 1 && s[i] == '\\' && OpenBody(s, i)
    ensures || EscapeAt(s, i) == Failed(UnexpectedEnd, |s| - 1)
            || (EscapeAt(s, i).Parsed? && OpenBody(s, EscapeAt(s, i).next))
  {
    NulIsLast(s, i + 1);
    if i + 1 < |s| - 1 && EscapeLetter(s[i + 1]).None? {
      if QuadCut(s, i + 2, 4) {
        QuadCutEnd(s, i + 2, 0, 0);
      } else {
        Hexquad(s, i + 2);
      }
    }
  }

  /** One round inside an open string body reads a byte or an escape (two
      for a surrogate pair) and leaves the rest open, or meets the end of
      input. */
  lemma UnitsOpen(s: seq<char>, i: nat)
    requires Buffer(s) && i < |s| - 1 && OpenBody(s, i)
    ensures s[i] != '"'
    ensures || UnitsAt(s, i) == Failed(UnexpectedEnd, |s| - 1)
            || (UnitsAt(s, i).Parsed? && OpenBody(s, UnitsAt(s, i).next))
  {
    if s[i] == '\\' {
      EscapeOpen(s, i);
      var e := EscapeAt(s, i);
      if e.Parsed? && IsHighSurrogate(e.value) && s[e.next] == '\\' {
        NulIsLast(s, e.next);
        EscapeOpen(s, e.next);
      }
    }
  }

  /** A string with no closing quote, whose escapes are well formed or cut
      short by the end of the input, ends in "unexpected end of input" at
      the NUL, unless it grows too long first. */
  lemma {:induction false} Unterminated(s: seq<char>, i: nat, out: seq<Byte>, alloc: nat)
    requires Buffer(s) && i < |s| && alloc >= InitialStringAlloc && OpenBody(s, i)
    ensures StringFrom(s, i, out, alloc).Failed?
    ensures StringFrom(s, i, out, alloc).error == UnexpectedEnd || StringFrom(s, i, out, alloc).error == TooLongString
    ensures StringFrom(s, i, out, alloc).error == UnexpectedEnd ==> StringFrom(s, i, out, alloc).at == |s| - 1
    decreases |s| - i
  {
    NulIsLast(s, i);
    if i < |s| - 1 {
      UnitsOpen(s, i);
      match UnitsAt(s, i)
      case Failed(_, _) =>
      case Parsed(units, j) =>
        match Grown(|out|, alloc)
        case None =>
        case Some(a) => Unterminated(s, j, out + Encode(units), a);
    }
  }

  // ---------------------------------------------------------------------
  // parse_keyword

  /** The letters word[n..] written out from i with nothing between them
      are expected one by one, and the cursor ends past the white space
      after the last. */
  lemma {:induction false} LettersSpelled(s: seq<char>, i: nat, word: string, n: nat)
    requires Buffer(s) && n < |word| && i + |word| - n < |s|
    requires forall k :: 0 <= k < |word| ==> 'a' <= word[k] <= 'z'
    requires forall k :: n <= k < |word| ==> s[i + k - n] == word[k]
    ensures Letters(s, i, word, n) == Parsed((), SkipWs(s, i + |word| - n))
    decreases |word| - n
  {
    assert s[i] == word[n];
    var j := Advance(s, i, true);
    if n + 1 < |word| {
      assert s[i + 1] == word[n + 1];
      assert j == i + 1;
      LettersSpelled(s, i + 1, word, n + 1);
    } else {
      assert Letters(s, j, word, n + 1) == Parsed((), j);
    }
  }

  /** After the letters word[n..m] written out from i, a byte other than
      word[m] that is not white space is an error that names both. */
  lemma {:induction false} LettersCut(s: seq<char>, i: nat, word: string, n: nat, m: nat)
    requires Buffer(s) && n <= m < |word| && i + m - n < |s|
    requires forall k :: 0 <= k < |word| ==> 'a' <= word[k] <= 'z'
    requires forall k :: n <= k < m ==> s[i + k - n] == word[k]
    requires s[i + m - n] != word[m] && !IsSpace(s[i + m - n])
    ensures Letters(s, i, word, n) == Failed(Expected(s[i + m - n], word[m]), i + m - n)
    decreases m - n
  {
    if n < m {
      assert s[i] == word[n];
      NulIsLast(s, i);
      var j := Advance(s, i, true);
      if n + 1 < m {
        assert s[i + 1] == word[n + 1];
      }
      assert j == i + 1;
      LettersCut(s, i + 1, word, n + 1, m);
    }
  }

  /** parse_value accepts true, false and null written out in full, and
      leaves the cursor past the white space that follows. */
  lemma Keywords(s: seq<char>, i: nat)
    requires Buffer(s) && i < |s|
    ensures i + 4 < |s| && s[i..i + 4] == "true" ==> ValueAt(s, i) == Parsed(Boolean(true), SkipWs(s, i + 4))
    ensures i + 5 < |s| && s[i..i + 5] == "false" ==> ValueAt(s, i) == Parsed(Boolean(false), SkipWs(s, i + 5))
    ensures i + 4 < |s| && s[i..i + 4] == "null" ==> ValueAt(s, i) == Parsed(Null, SkipWs(s, i + 4))
  {
    if i + 4 < |s| && s[i..i + 4] == "true" {
      assert s[i] == 't';
      KeywordSpelled(s, i, "true");
      assert LiteralAt(s, i) == Parsed(Boolean(true), SkipWs(s, i + 4));
      LiteralValue(s, i);
    } else if i + 5 < |s| && s[i..i + 5] == "false" {
      assert s[i] == 'f';
      KeywordSpelled(s, i, "false");
      assert LiteralAt(s, i) == Parsed(Boolean(false), SkipWs(s, i + 5));
      LiteralValue(s, i);
    } else if i + 4 < |s| && s[i..i + 4] == "null" {
      assert s[i] == 'n';
      KeywordSpelled(s, i, "null");
      assert LiteralAt(s, i) == Parsed(Null, SkipWs(s, i + 4));
      LiteralValue(s, i);
    }
  }

  /** A keyword written out in full from i. */
  lemma KeywordSpelled(s: seq<char>, i: nat, word: string)
    requires Buffer(s) && 1 < |word| && i + |word| < |s|
    requires forall k :: 0 <= k < |word| ==> 'a' <= word[k] <= 'z'
    requires s[i..i + |word|] == word
    ensures KeywordAt(s, i, word) == Parsed((), SkipWs(s, i + |word|))
  {
    assert s[i] == word[0] && s[i + 1] == word[1];
    assert Advance(s, i, true) == i + 1;
    forall k | 1 <= k < |word|
      ensures s[i + 1 + k - 1] == word[k]
    {
      assert s[i..i + |word|][k] == word[k];
    }
    LettersSpelled(s, i + 1, word, 1);
  }

  // ---------------------------------------------------------------------
  // parse_object, parse_array

  /** The member loop keeps the members read so far in front, in order,
      adds at least one, and never holds more than MaxItems. */
  lemma {:induction false} MembersOrder(s: seq<char>, i: nat, props: seq<Property>)
    requires Buffer(s) && i < |s| && |props| <= MaxItems
    ensures Members(s, i, props).Parsed? ==>
              var r := Members(s, i, props).value.properties;
              |props| < |r| <= MaxItems && r[..|props|] == props
    decreases |s| - i
  {
    var m := Member(s, i);
    if m.Parsed? && |props| < MaxItems && s[m.next] != '}' {
      var e := ExpectAt(s, m.next, ',', true);
      if e.Parsed? {
        var next := props + [m.value];
        MembersOrder(s, e.next, next);
        if Members(s, i, props).Parsed? {
          var r := Members(s, i, props).value.properties;
          assert r[..|next|][..|props|] == props;
        }
      }
    }
  }

  /** The element loop does the same for array values. */
  lemma {:induction false} ElementsOrder(s: seq<char>, i: nat, values: seq<Value>)
    requires Buffer(s) && i < |s| && |values| <= MaxItems
    ensures Elements(s, i, values).Parsed? ==>
              var r := Elements(s, i, values).value.values;
              |values| < |r| <= MaxItems && r[..|values|] == values
    decreases |s| - i
  {
    var v := ValueAt(s, i);
    if v.Parsed? && |values| < MaxItems && s[v.next] != ']' {
      var e := ExpectAt(s, v.next, ',', true);
      if e.Parsed? {
        var next := values + [v.value];
        ElementsOrder(s, e.next, next);
        if Elements(s, i, values).Parsed? {
          var r := Elements(s, i, values).value.values;
          assert r[..|next|][..|values|] == values;
        }
      }
    }
  }

  /** An object or array at i never holds more than MaxItems entries. */
  lemma ContainerBound(s: seq<char>, i: nat)
    requires Buffer(s) && i < |s|
    ensures ValueAt(s, i).Parsed? && ValueAt(s, i).value.Object? ==>
              |ValueAt(s, i).value.properties| <= MaxItems
    ensures ValueAt(s, i).Parsed? && ValueAt(s, i).value.Array? ==>
              |ValueAt(s, i).value.values| <= MaxItems
  {
    if s[i] == '{' {
      var j := Advance(s, i, true);
      if s[j] != '}' {
        MembersOrder(s, j, []);
      }
    } else if s[i] == '[' {
      var j := Advance(s, i, true);
      if s[j] != ']' {
        ElementsOrder(s, j, []);
      }
    }
  }

  /** A comma must be followed by another member or value: a closing brace
      there is not the quote of a name, and a closing bracket is not a
      value. */
  lemma TrailingCommas(s: seq<char>, i: nat, props: seq<Property>, values: seq<Value>)
    requires Buffer(s) && i < |s|
    ensures s[i] == '}' ==> Members(s, i, props) == Failed(Expected('}', '"'), i)
    ensures s[i] == ']' ==> Elements(s, i, values) == Failed(UnexpectedToken(']'), i)
  {
  }
}
